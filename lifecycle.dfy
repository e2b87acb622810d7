/**
  Orders and purchased packages as values, and what completing an order does
  to the purchased-package store.

  The purchased-package store is a sequence in insertion order, so that
  `findFirst` (the first matching record) and `updateMany` (every matching
  record) keep their meaning even if two records share an order id.
  Dates are whole months.
*/
module Lifecycle {
  import opened Wrappers
  import opened PackageTree

  type OrderId = nat
  type UserId = string

  /** A point in time, counted in whole months. */
  type Month = int

  function AddMonths(date: Month, months: int): Month {
    date + months
  }

  datatype OrderType = Create | Upgrade | Renew

  datatype OrderStatus = New | Pending | Completed | Other(name: string)

  datatype Order = Order(
    id: OrderId,
    userId: UserId,
    groupId: Option<string>,
    packageId: PackageId,
    price: int,
    partner: string,
    kind: OrderType,
    status: OrderStatus,
    referenceId: Option<OrderId>)   // the order being upgraded or renewed

  datatype Error =
    | PackageNotFound
    | PurchasedPackageNotFound
    | OrderNotFound
    | AccessDenied
    | CannotUpgrade

  /** The copy of a package a purchased package keeps. */
  datatype Snapshot = Snapshot(
    id: PackageId,
    name: string,
    price: int,
    duration: int,
    images: seq<string>,
    services: seq<Service>)

  datatype PurchasedPackage = PurchasedPackage(
    id: nat,
    userId: UserId,
    orderId: OrderId,      // the newest completed order of this subscription
    endDate: Month,
    expired: bool,
    snapshot: Snapshot)

  /** The services of a package with every usage counter set back to zero. */
  function ResetUsage(services: seq<Service>): (r: seq<Service>)
    ensures |r| == |services|
    ensures forall i :: 0 <= i < |r| ==> r[i].config.used == 0
    ensures forall i :: 0 <= i < |r| ==>
      r[i].(config := r[i].config.(used := services[i].config.used)) == services[i]
  {
    if services == [] then []
    else [services[0].(config := services[0].config.(used := 0))] + ResetUsage(services[1..])
  }

  /** The copy of `p` a purchased package keeps: its identity, name, price, duration and images,
      and its services in order with every usage counter at zero. */
  function SnapshotOf(p: Package): (r: Snapshot)
    ensures r.id == p.id && r.name == p.name && r.price == p.price && r.duration == p.duration
    ensures r.images == p.images
    ensures |r.services| == |p.services|
    ensures forall i :: 0 <= i < |r.services| ==>
      r.services[i].config.used == 0 && r.services[i].id == p.services[i].id &&
      r.services[i].name == p.services[i].name && r.services[i].kind == p.services[i].kind &&
      r.services[i].config.settings == p.services[i].config.settings
  {
    Snapshot(p.id, p.name, p.price, p.duration, p.images, ResetUsage(p.services))
  }

  /** Purchased-package ids are the store's primary key. */
  predicate UniqueRecordIds(pps: seq<PurchasedPackage>) {
    forall i, j :: 0 <= i < j < |pps| ==> pps[i].id != pps[j].id
  }

  /** At most one record per order id: one subscription record per lineage of orders. */
  predicate OnePerOrder(pps: seq<PurchasedPackage>) {
    forall i, j :: 0 <= i < j < |pps| ==> pps[i].orderId != pps[j].orderId
  }

  /** The index of the first record with the given id (`findUnique` by id). */
  function FindById(pps: seq<PurchasedPackage>, id: nat): (r: Option<nat>)
    ensures r.Some? ==> r.value < |pps| && pps[r.value].id == id
    ensures r.Some? ==> forall k :: 0 <= k < r.value ==> pps[k].id != id
    ensures r.None? ==> forall k :: 0 <= k < |pps| ==> pps[k].id != id
  {
    if pps == [] then None
    else if pps[0].id == id then Some(0)
    else
      match FindById(pps[1..], id)
      case None => None
      case Some(k) => Some(k + 1)
  }

  /** The index of the first record whose order id is `orderId` (`findFirst({ where: { orderId } })`);
      an absent order id matches nothing. */
  function FindByOrder(pps: seq<PurchasedPackage>, orderId: Option<OrderId>): (r: Option<nat>)
    ensures r.Some? ==> orderId.Some? && r.value < |pps| && pps[r.value].orderId == orderId.value
    ensures r.Some? ==> forall k :: 0 <= k < r.value ==> pps[k].orderId != orderId.value
    ensures r.None? ==> forall k :: 0 <= k < |pps| ==> orderId.None? || pps[k].orderId != orderId.value
  {
    if orderId.None? || pps == [] then None
    else if pps[0].orderId == orderId.value then Some(0)
    else
      match FindByOrder(pps[1..], orderId)
      case None => None
      case Some(k) => Some(k + 1)
  }

  /** The data an `updateMany` writes into each matching record. */
  datatype Patch =
    | Extend(orderId: OrderId, endDate: Month)
    | Replace(orderId: OrderId, endDate: Month, userId: UserId, snapshot: Snapshot)

  function Apply(patch: Patch, pp: PurchasedPackage): PurchasedPackage {
    match patch
    case Extend(o, e) => pp.(orderId := o, endDate := e)
    case Replace(o, e, u, s) => pp.(orderId := o, endDate := e, userId := u, expired := false, snapshot := s)
  }

  /** `updateMany({ where: { orderId }, data })`: every record with that order id is patched,
      every other record is left as it is, and no record moves. */
  function UpdateMany(pps: seq<PurchasedPackage>, orderId: OrderId, patch: Patch): (r: seq<PurchasedPackage>)
    ensures |r| == |pps|
    ensures forall k :: 0 <= k < |r| ==>
      r[k] == if pps[k].orderId == orderId then Apply(patch, pps[k]) else pps[k]
  {
    if pps == [] then []
    else
      [if pps[0].orderId == orderId then Apply(patch, pps[0]) else pps[0]]
      + UpdateMany(pps[1..], orderId, patch)
  }

  /** The record a completed `create` order adds. */
  function NewRecord(id: nat, o: Order, pkg: Package, now: Month): (r: PurchasedPackage)
    ensures r.id == id && r.userId == o.userId && r.orderId == o.id && !r.expired
    ensures r.endDate == AddMonths(now, pkg.duration) && r.endDate - now == pkg.duration
    ensures r.snapshot == SnapshotOf(pkg)
  {
    PurchasedPackage(id, o.userId, o.id, AddMonths(now, pkg.duration), false, SnapshotOf(pkg))
  }

  /**
    What a payment callback with status `status` does to the purchased-package
    store, for order `o` of package `pkg`; `freshId` is the id a new record gets.
  */
  function CompletionEffect(pps: seq<PurchasedPackage>, o: Order, pkg: Package, status: OrderStatus,
                            now: Month, freshId: nat): (r: Result<seq<PurchasedPackage>, Error>)
    ensures r.Ok? ==> |pps| <= |r.value| <= |pps| + 1
    ensures r.Ok? && |r.value| == |pps| + 1 ==> status == Completed && o.kind == Create && r.value[..|pps|] == pps
    ensures r.Err? ==> r.error == PurchasedPackageNotFound && status == Completed && o.kind != Create
  {
    if status != Completed then Ok(pps)
    else
      match o.kind
      case Create => Ok(pps + [NewRecord(freshId, o, pkg, now)])
      case Renew =>
        (match FindByOrder(pps, o.referenceId)
         case None => Err(PurchasedPackageNotFound)
         case Some(k) =>
           Ok(UpdateMany(pps, o.referenceId.value, Extend(o.id, AddMonths(pps[k].endDate, pkg.duration)))))
      case Upgrade =>
        (match FindByOrder(pps, o.referenceId)
         case None => Err(PurchasedPackageNotFound)
         case Some(k) =>
           Ok(UpdateMany(pps, o.referenceId.value,
                         Replace(o.id, AddMonths(pps[k].endDate, pkg.duration), o.userId, SnapshotOf(pkg)))))
  }

  /** The callback fails exactly when a renewal or an upgrade completes and no record holds the order it refers to. */
  lemma CompletionFailsOnlyWithoutRecord(pps: seq<PurchasedPackage>, o: Order, pkg: Package, status: OrderStatus,
                                         now: Month, freshId: nat)
    ensures CompletionEffect(pps, o, pkg, status, now, freshId).Err? <==>
      status == Completed && o.kind != Create && FindByOrder(pps, o.referenceId).None?
    ensures CompletionEffect(pps, o, pkg, status, now, freshId).Err? ==>
      CompletionEffect(pps, o, pkg, status, now, freshId).error == PurchasedPackageNotFound
  {
  }

  /** Any status other than completed leaves the store as it is. */
  lemma OtherStatusChangesNothing(pps: seq<PurchasedPackage>, o: Order, pkg: Package, status: OrderStatus,
                                  now: Month, freshId: nat)
    requires status != Completed
    ensures CompletionEffect(pps, o, pkg, status, now, freshId) == Ok(pps)
  {
  }

  /** Completing a `create` order appends one record: not expired, ending `duration` months
      after now, owned by the buyer, pointing at the order, with every usage counter at zero. */
  lemma CompletingCreate(pps: seq<PurchasedPackage>, o: Order, pkg: Package, now: Month, freshId: nat)
    requires o.kind == Create
    ensures var e := CompletionEffect(pps, o, pkg, Completed, now, freshId);
      && e.Ok? && |e.value| == |pps| + 1 && e.value[..|pps|] == pps
      && var rec := e.value[|pps|];
      && rec.id == freshId && rec.userId == o.userId && rec.orderId == o.id
      && !rec.expired && rec.endDate == AddMonths(now, pkg.duration)
      && rec.snapshot.id == pkg.id && rec.snapshot.price == pkg.price && rec.snapshot.duration == pkg.duration
      && |rec.snapshot.services| == |pkg.services|
      && (forall i :: 0 <= i < |pkg.services| ==>
           rec.snapshot.services[i].config.used == 0 && rec.snapshot.services[i].id == pkg.services[i].id)
      && rec.snapshot == SnapshotOf(pkg)
  {
    var e := CompletionEffect(pps, o, pkg, Completed, now, freshId);
    assert e.value[..|pps|] == pps;
  }

  /** Completing a renewal extends the one record of the lineage in place: its expiry moves
      `duration` months past its old expiry (not past now), it points at the new order,
      and nothing else changes, in that record or elsewhere. */
  lemma CompletingRenewal(pps: seq<PurchasedPackage>, o: Order, pkg: Package, now: Month, freshId: nat, k: nat)
    requires o.kind == Renew && OnePerOrder(pps)
    requires FindByOrder(pps, o.referenceId) == Some(k)
    ensures var e := CompletionEffect(pps, o, pkg, Completed, now, freshId);
      && e.Ok? && |e.value| == |pps|
      && e.value[k] == pps[k].(orderId := o.id, endDate := AddMonths(pps[k].endDate, pkg.duration))
      && forall j :: 0 <= j < |pps| && j != k ==> e.value[j] == pps[j]
  {
    var e := CompletionEffect(pps, o, pkg, Completed, now, freshId);
    forall j | 0 <= j < |pps| && j != k ensures e.value[j] == pps[j] {
      assert pps[j].orderId != pps[k].orderId;
    }
  }

  /** Completing an upgrade rewrites the one record of the lineage in place: same record id,
      expiry moved by the new package's duration from the old expiry, the new package's
      snapshot with every usage counter at zero, not expired, pointing at the new order. */
  lemma CompletingUpgrade(pps: seq<PurchasedPackage>, o: Order, pkg: Package, now: Month, freshId: nat, k: nat)
    requires o.kind == Upgrade && OnePerOrder(pps)
    requires FindByOrder(pps, o.referenceId) == Some(k)
    ensures var e := CompletionEffect(pps, o, pkg, Completed, now, freshId);
      && e.Ok? && |e.value| == |pps|
      && var rec := e.value[k];
      && rec.id == pps[k].id && rec.orderId == o.id && rec.userId == o.userId && !rec.expired
      && rec.endDate == AddMonths(pps[k].endDate, pkg.duration)
      && rec.snapshot.id == pkg.id && rec.snapshot.price == pkg.price && rec.snapshot.duration == pkg.duration
      && |rec.snapshot.services| == |pkg.services|
      && (forall i :: 0 <= i < |pkg.services| ==> rec.snapshot.services[i].config.used == 0)
      && rec.snapshot == SnapshotOf(pkg)
      && forall j :: 0 <= j < |pps| && j != k ==> e.value[j] == pps[j]
  {
    var e := CompletionEffect(pps, o, pkg, Completed, now, freshId);
    forall j | 0 <= j < |pps| && j != k ensures e.value[j] == pps[j] {
      assert pps[j].orderId != pps[k].orderId;
    }
  }

  /** Every record id is below `bound`. */
  predicate IdsBelow(pps: seq<PurchasedPackage>, bound: nat) {
    forall k :: 0 <= k < |pps| ==> pps[k].id < bound
  }

  /** The callback never changes or duplicates a record id: it adds at most one record, whose id
      is the fresh one, so ids stay unique and below the advanced counter. */
  lemma CompletionKeepsRecordIds(pps: seq<PurchasedPackage>, o: Order, pkg: Package, status: OrderStatus,
                                 now: Month, freshId: nat)
    requires UniqueRecordIds(pps) && IdsBelow(pps, freshId)
    requires CompletionEffect(pps, o, pkg, status, now, freshId).Ok?
    ensures var r := CompletionEffect(pps, o, pkg, status, now, freshId).value;
      && |pps| <= |r| <= |pps| + 1
      && (forall k :: 0 <= k < |pps| ==> r[k].id == pps[k].id)
      && UniqueRecordIds(r) && IdsBelow(r, freshId + (|r| - |pps|))
  {
    var r := CompletionEffect(pps, o, pkg, status, now, freshId).value;
    if status == Completed && o.kind != Create {
      assert forall k :: 0 <= k < |r| ==> r[k].id == pps[k].id;
    } else if status == Completed {
      assert forall k :: 0 <= k < |pps| ==> r[k] == pps[k];
      assert r[|pps|].id == freshId;
    }
  }

  /** An order id no record holds yet. */
  predicate FreshOrderId(pps: seq<PurchasedPackage>, id: OrderId) {
    forall k :: 0 <= k < |pps| ==> pps[k].orderId != id
  }

  /** As long as each order completes at most once, the store keeps one record per lineage. */
  lemma CompletionKeepsOnePerOrder(pps: seq<PurchasedPackage>, o: Order, pkg: Package, status: OrderStatus,
                                   now: Month, freshId: nat)
    requires OnePerOrder(pps) && FreshOrderId(pps, o.id)
    requires CompletionEffect(pps, o, pkg, status, now, freshId).Ok?
    ensures OnePerOrder(CompletionEffect(pps, o, pkg, status, now, freshId).value)
  {
    var r := CompletionEffect(pps, o, pkg, status, now, freshId).value;
    if status == Completed && o.kind != Create {
      var k := FindByOrder(pps, o.referenceId).value;
      forall i, j | 0 <= i < j < |r| ensures r[i].orderId != r[j].orderId {
        if i == k {
          assert r[i].orderId == o.id && r[j] == pps[j];
        } else if j == k {
          assert r[j].orderId == o.id && r[i] == pps[i];
        } else {
          assert pps[i].orderId != pps[k].orderId && pps[j].orderId != pps[k].orderId;
          assert r[i] == pps[i] && r[j] == pps[j];
        }
      }
    } else if status == Completed {
      forall i, j | 0 <= i < j < |r| ensures r[i].orderId != r[j].orderId {
        if j == |pps| {
          assert r[i] == pps[i];
        } else {
          assert r[i] == pps[i] && r[j] == pps[j];
        }
      }
    }
  }

  /** A second `completed` callback for the same `create` order adds a second record for the
      same order: the one-record-per-lineage rule depends on each order completing once. */
  lemma RepeatedCreateCompletionDuplicates(pps: seq<PurchasedPackage>, o: Order, pkg: Package,
                                           now: Month, id1: nat, id2: nat)
    requires o.kind == Create
    ensures var once := CompletionEffect(pps, o, pkg, Completed, now, id1).value;
      var twice := CompletionEffect(once, o, pkg, Completed, now, id2).value;
      |twice| == |pps| + 2 && !OnePerOrder(twice)
  {
    var once := CompletionEffect(pps, o, pkg, Completed, now, id1).value;
    var twice := CompletionEffect(once, o, pkg, Completed, now, id2).value;
    assert twice[|pps|].orderId == o.id == twice[|pps| + 1].orderId;
  }

  /** Renewals compound: two renewals in a row move the expiry by both durations, counted from
      the original expiry, whatever the time of either callback. */
  lemma RenewalsCompound(pps: seq<PurchasedPackage>, k: nat, o1: Order, pkg1: Package, o2: Order, pkg2: Package,
                         now1: Month, now2: Month, id1: nat, id2: nat)
    requires OnePerOrder(pps) && FreshOrderId(pps, o1.id)
    requires o1.kind == Renew && FindByOrder(pps, o1.referenceId) == Some(k)
    requires o2.kind == Renew && o2.referenceId == Some(o1.id)
    ensures var once := CompletionEffect(pps, o1, pkg1, Completed, now1, id1);
      && once.Ok?
      && var twice := CompletionEffect(once.value, o2, pkg2, Completed, now2, id2);
      && twice.Ok? && |twice.value| == |pps|
      && twice.value[k] == pps[k].(orderId := o2.id,
                                   endDate := AddMonths(AddMonths(pps[k].endDate, pkg1.duration), pkg2.duration))
  {
    CompletingRenewal(pps, o1, pkg1, now1, id1, k);
    var once := CompletionEffect(pps, o1, pkg1, Completed, now1, id1).value;
    CompletionKeepsOnePerOrder(pps, o1, pkg1, Completed, now1, id1);
    assert once[k].orderId == o1.id;
    assert FindByOrder(once, o2.referenceId) == Some(k) by {
      forall j | 0 <= j < |once| && j != k ensures once[j].orderId != o1.id {
        assert once[j] == pps[j];
      }
    }
    CompletingRenewal(once, o2, pkg2, now2, id2, k);
  }
}
