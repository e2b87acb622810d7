/**
  The order service: purchase, upgrade and renewal orders, and the payment
  callback that turns a completed order into a purchased package.

  The three stores are fields of the service: the packages table (`catalog`),
  the orders table (a map from order id) and the purchased-package store
  (insertion order). Ids the database would generate come from counters.
  The payment gateway is not called: each purchase returns the payment
  request it would send.
*/
module Orders {
  import opened Wrappers
  import opened PackageTree
  import opened Lifecycle

  /** The locale every payment request carries. */
  const Locale: string := "vi"

  datatype PaymentRequest = PaymentRequest(
    amount: int,
    locale: string,
    orderId: OrderId,
    partner: string,
    clientIp: string,
    returnUrl: string)

  /** What a purchase returns: the new order and its payment request. */
  datatype Checkout = Checkout(order: Order, payment: PaymentRequest)

  /** The payment request for order `o`: its price, in the fixed locale, tagged with its id and partner. */
  function PaymentFor(o: Order, clientIp: string, returnUrl: string): (p: PaymentRequest)
    ensures p.amount == o.price && p.orderId == o.id && p.partner == o.partner && p.locale == Locale
    ensures p.clientIp == clientIp && p.returnUrl == returnUrl
  {
    PaymentRequest(o.price, Locale, o.id, o.partner, clientIp, returnUrl)
  }

  /**
    The checks upgrade and renewal share: the purchased package must exist,
    belong to the caller, and its newest order must exist; that order is the
    result.
  */
  function PriorOrder(pps: seq<PurchasedPackage>, orders: map<OrderId, Order>, purchasedId: nat, userId: UserId)
    : (r: Result<Order, Error>)
    ensures (forall k :: 0 <= k < |pps| ==> pps[k].id != purchasedId) <==> r == Err(PurchasedPackageNotFound)
    ensures r == Err(AccessDenied) ==> exists k :: 0 <= k < |pps| && pps[k].id == purchasedId && pps[k].userId != userId
    ensures r.Ok? || r == Err(OrderNotFound) ==>
      exists k :: 0 <= k < |pps| && pps[k].id == purchasedId && pps[k].userId == userId
    ensures r.Ok? <==>
      exists k :: 0 <= k < |pps| && pps[k].id == purchasedId && pps[k].userId == userId && pps[k].orderId in orders &&
                  (forall j :: 0 <= j < k ==> pps[j].id != purchasedId)
    ensures r.Ok? ==>
      exists k :: 0 <= k < |pps| && pps[k].id == purchasedId && (forall j :: 0 <= j < k ==> pps[j].id != purchasedId) &&
                  pps[k].orderId in orders && r.value == orders[pps[k].orderId]
    ensures r.Err? ==> r.error in {PurchasedPackageNotFound, AccessDenied, OrderNotFound}
  {
    match FindById(pps, purchasedId)
    case None => Err(PurchasedPackageNotFound)
    case Some(k) =>
      if pps[k].userId != userId then Err(AccessDenied)
      else if pps[k].orderId !in orders then Err(OrderNotFound)
      else Ok(orders[pps[k].orderId])
  }

  class OrderService {
    var catalog: seq<Package>
    var orders: map<OrderId, Order>
    var purchased: seq<PurchasedPackage>
    var nextOrderId: OrderId
    var nextPurchasedId: nat
    /** The order type and status the schema gives an order that does not set them. */
    const defaultKind: OrderType
    const initialStatus: OrderStatus

    ghost predicate Valid()
      reads this
    {
      && WellFormed(catalog)
      && (forall id :: id in orders ==>
            orders[id].id == id && id < nextOrderId && Find(catalog, orders[id].packageId).Some?)
      && IdsBelow(purchased, nextPurchasedId)
      && UniqueRecordIds(purchased)
    }

    constructor (catalog: seq<Package>, defaultKind: OrderType, initialStatus: OrderStatus)
      requires WellFormed(catalog)
      ensures Valid()
      ensures this.catalog == catalog && orders == map[] && purchased == []
      ensures this.defaultKind == defaultKind && this.initialStatus == initialStatus
    {
      this.catalog := catalog;
      this.defaultKind := defaultKind;
      this.initialStatus := initialStatus;
      orders := map[];
      purchased := [];
      nextOrderId := 0;
      nextPurchasedId := 0;
    }

    /** Stores `o` under a fresh id. */
    method Insert(o: Order) returns (stored: Order)
      requires Valid() && Find(catalog, o.packageId).Some?
      modifies this`orders, this`nextOrderId
      ensures Valid()
      ensures stored == o.(id := old(nextOrderId)) && stored.id !in old(orders)
      ensures orders == old(orders)[stored.id := stored]
    {
      stored := o.(id := nextOrderId);
      orders := orders[stored.id := stored];
      nextOrderId := nextOrderId + 1;
    }

    /**
      A first purchase: the package must exist; the order captures its
      current price, with the schema's default type and status.
    */
    method Create(packageId: PackageId, userId: UserId, groupId: Option<string>, partner: string,
                  clientIp: string, returnUrl: string) returns (r: Result<Checkout, Error>)
      requires Valid()
      modifies this`orders, this`nextOrderId
      ensures Valid()
      ensures r.Err? <==> Find(catalog, packageId).None?
      ensures r.Err? ==> r.error == PackageNotFound && orders == old(orders) && nextOrderId == old(nextOrderId)
      ensures r.Ok? ==>
        var o := r.value.order;
        && o == Order(old(nextOrderId), userId, groupId, packageId, Find(catalog, packageId).value.price,
                      partner, defaultKind, initialStatus, None)
        && o.id !in old(orders) && orders == old(orders)[o.id := o]
        && r.value.payment == PaymentFor(o, clientIp, returnUrl)
    {
      var pkg := Find(catalog, packageId);
      if pkg.None? {
        r := Err(PackageNotFound);
        return;
      }
      var o := Insert(Order(0, userId, groupId, packageId, pkg.value.price, partner, defaultKind, initialStatus, None));
      r := Ok(Checkout(o, PaymentFor(o, clientIp, returnUrl)));
    }

    /**
      An upgrade of a purchased package to package `targetId`: allowed only if
      the package of the subscription's newest order is a strict descendant of
      the target. The order takes the target's id and price and refers to that
      newest order; its type is the one the caller asks for.
    */
    method Upgrade(purchasedId: nat, targetId: PackageId, userId: UserId, kind: OrderType, partner: string,
                   clientIp: string, returnUrl: string) returns (r: Result<Checkout, Error>)
      requires Valid()
      modifies this`orders, this`nextOrderId
      ensures Valid()
      ensures r.Err? ==> orders == old(orders) && nextOrderId == old(nextOrderId)
      ensures var prior := PriorOrder(purchased, old(orders), purchasedId, userId);
        && (prior.Err? ==> r == Err(prior.error))
        && (prior.Ok? ==> (r.Ok? <==> IsDescendant(catalog, targetId, prior.value.packageId)))
        && (prior.Ok? && r.Err? ==> r.error == CannotUpgrade)
        && (r.Ok? ==>
              var o := r.value.order;
              && Find(catalog, targetId).Some?
              && o == Order(old(nextOrderId), userId, None, targetId, Find(catalog, targetId).value.price,
                            partner, kind, initialStatus, Some(prior.value.id))
              && o.id !in old(orders) && orders == old(orders)[o.id := o]
              && r.value.payment == PaymentFor(o, clientIp, returnUrl))
    {
      var prior := PriorOrder(purchased, orders, purchasedId, userId);
      if prior.Err? {
        r := Err(prior.error);
        return;
      }
      var current := prior.value.packageId;
      var children := AllChildren(catalog, targetId);
      assert current in Ids(children) <==> IsDescendant(catalog, targetId, current) by {
        IdsMembership(children, current);
        if IsDescendant(catalog, targetId, current) {
          DescendantsExist(catalog, targetId, current);
          assert Find(catalog, current).value in children;
        }
      }
      if current !in Ids(children) {
        r := Err(CannotUpgrade);
        return;
      }
      DescendantsExist(catalog, targetId, current);
      var target := Find(catalog, targetId).value;
      var o := Insert(Order(0, userId, None, target.id, target.price, partner, kind, initialStatus,
                            Some(prior.value.id)));
      r := Ok(Checkout(o, PaymentFor(o, clientIp, returnUrl)));
    }

    /**
      A renewal of a purchased package: the order repeats the package and the
      current price of the subscription's newest order and refers to that
      order; its type is the one the caller asks for.
    */
    method Renew(purchasedId: nat, userId: UserId, kind: OrderType, partner: string,
                 clientIp: string, returnUrl: string) returns (r: Result<Checkout, Error>)
      requires Valid()
      modifies this`orders, this`nextOrderId
      ensures Valid()
      ensures r.Err? ==> orders == old(orders) && nextOrderId == old(nextOrderId)
      ensures var prior := PriorOrder(purchased, old(orders), purchasedId, userId);
        && (prior.Err? ==> r == Err(prior.error))
        && (prior.Ok? ==>
              var pkg := Find(catalog, prior.value.packageId).value;
              && r.Ok?
              && var o := r.value.order;
              && o == Order(old(nextOrderId), userId, None, prior.value.packageId, pkg.price,
                            partner, kind, initialStatus, Some(prior.value.id))
              && o.id !in old(orders) && orders == old(orders)[o.id := o]
              && r.value.payment == PaymentFor(o, clientIp, returnUrl))
    {
      var prior := PriorOrder(purchased, orders, purchasedId, userId);
      if prior.Err? {
        r := Err(prior.error);
        return;
      }
      var pkg := Find(catalog, prior.value.packageId).value;
      var o := Insert(Order(0, userId, None, pkg.id, pkg.price, partner, kind, initialStatus,
                            Some(prior.value.id)));
      r := Ok(Checkout(o, PaymentFor(o, clientIp, returnUrl)));
    }

    /**
      The purchased-package side of the payment callback for order `o` of
      package `pkg`: on `completed`, a `create` order adds a purchased package,
      and a `renew` or `upgrade` order extends the record of the order it
      refers to.
    */
    method Complete(o: Order, pkg: Package, status: OrderStatus, now: Month) returns (r: Result<(), Error>)
      requires UniqueRecordIds(purchased) && IdsBelow(purchased, nextPurchasedId)
      modifies this`purchased, this`nextPurchasedId
      ensures UniqueRecordIds(purchased) && IdsBelow(purchased, nextPurchasedId)
      ensures var effect := CompletionEffect(old(purchased), o, pkg, status, now, old(nextPurchasedId));
        && (effect.Err? ==> r == Err(effect.error))
        && (effect.Ok? ==> r.Ok? && purchased == effect.value)
      ensures r.Err? ==> purchased == old(purchased) && nextPurchasedId == old(nextPurchasedId)
      ensures nextPurchasedId == old(nextPurchasedId) + (|purchased| - |old(purchased)|)
    {
      ghost var effect := CompletionEffect(purchased, o, pkg, status, now, nextPurchasedId);
      if o.kind.Renew? && status == Completed {
        var k := FindByOrder(purchased, o.referenceId);
        if k.None? {
          r := Err(PurchasedPackageNotFound);
          return;
        }
        purchased := UpdateMany(purchased, o.referenceId.value,
                                Extend(o.id, AddMonths(purchased[k.value].endDate, pkg.duration)));
      }
      if status == Completed && o.kind.Create? {
        purchased := purchased + [NewRecord(nextPurchasedId, o, pkg, now)];
        nextPurchasedId := nextPurchasedId + 1;
      }
      if status == Completed && o.kind.Upgrade? {
        var k := FindByOrder(purchased, o.referenceId);
        if k.None? {
          r := Err(PurchasedPackageNotFound);
          return;
        }
        purchased := UpdateMany(purchased, o.referenceId.value,
                                Replace(o.id, AddMonths(purchased[k.value].endDate, pkg.duration), o.userId,
                                        SnapshotOf(pkg)));
      }
      assert effect == Ok(purchased);
      CompletionKeepsRecordIds(old(purchased), o, pkg, status, now, old(nextPurchasedId));
      r := Ok(());
    }

    /**
      The payment callback: the order must exist; its completion effect is
      applied to the purchased packages, then the order takes the new status.
    */
    method UpdateFromPaymentService(id: OrderId, status: OrderStatus, now: Month) returns (r: Result<Order, Error>)
      requires Valid()
      modifies this`orders, this`purchased, this`nextPurchasedId
      ensures Valid()
      ensures id !in old(orders) ==> r == Err(OrderNotFound)
      ensures r.Err? ==>
        orders == old(orders) && purchased == old(purchased) && nextPurchasedId == old(nextPurchasedId)
      ensures id in old(orders) ==>
        var o := old(orders)[id];
        var effect := CompletionEffect(old(purchased), o, Find(catalog, o.packageId).value, status, now,
                                       old(nextPurchasedId));
        && (effect.Err? ==> r == Err(effect.error))
        && (effect.Ok? ==>
              && r == Ok(o.(status := status))
              && orders == old(orders)[id := o.(status := status)]
              && purchased == effect.value
              && nextPurchasedId == old(nextPurchasedId) + (|purchased| - |old(purchased)|))
    {
      if id !in orders {
        r := Err(OrderNotFound);
        return;
      }
      var o := orders[id];
      var pkg := Find(catalog, o.packageId).value;
      var done := Complete(o, pkg, status, now);
      if done.Err? {
        r := Err(done.error);
        return;
      }
      var updated := o.(status := status);
      orders := orders[id := updated];
      r := Ok(updated);
    }
  }
}
