/**
  The order listings: which orders a user or an administrator sees, the page
  of them returned, and the page count. The rows are taken in the order the
  store returns them for the requested creation-time order.
*/
module OrderListing {
  import opened Wrappers
  import opened Lifecycle
  import opened Pagination

  /** The filters of the two listings: a user sees their own orders other than new ones;
      an administrator sees every order, optionally narrowed by user. Both may narrow by status. */
  datatype Filter =
    | ForUser(userId: UserId, status: Option<OrderStatus>)
    | ForAdmin(user: Option<UserId>, status: Option<OrderStatus>)

  predicate Listed(o: Order, f: Filter)
    ensures Listed(o, f) ==> f.status.None? || o.status == f.status.value
    ensures f.ForUser? ==>
      (Listed(o, f) <==> (o.userId == f.userId && o.status != New && (f.status.None? || o.status == f.status.value)))
    ensures f.ForAdmin? && f.user.None? && f.status.None? ==> Listed(o, f)
  {
    match f
    case ForUser(u, s) => o.userId == u && (s.None? || o.status == s.value) && o.status != New
    case ForAdmin(u, s) => (s.None? || o.status == s.value) && (u.None? || o.userId == u.value)
  }

  /** The rows the filter keeps, in their order. */
  function Select(rows: seq<Order>, f: Filter): (r: seq<Order>)
    ensures |r| <= |rows|
    ensures forall o :: o in r <==> o in rows && Listed(o, f)
    ensures |rows| == 1 ==> r == if Listed(rows[0], f) then rows else []
  {
    if rows == [] then []
    else if Listed(rows[0], f) then [rows[0]] + Select(rows[1..], f)
    else Select(rows[1..], f)
  }

  /** Filtering a row followed by more rows. */
  lemma SelectCons(x: Order, rest: seq<Order>, f: Filter)
    ensures Select([x] + rest, f) == (if Listed(x, f) then [x] else []) + Select(rest, f)
  {
    assert ([x] + rest)[0] == x && ([x] + rest)[1..] == rest;
  }

  /** Filtering a concatenation filters each part and keeps them in order; with the singleton
      case this fixes the selected rows, their order and their number. */
  lemma {:induction false} SelectConcat(a: seq<Order>, b: seq<Order>, f: Filter)
    ensures Select(a + b, f) == Select(a, f) + Select(b, f)
  {
    if a == [] {
      assert a + b == b;
    } else {
      var x, rest := a[0], a[1..];
      assert a == [x] + rest && a + b == [x] + (rest + b);
      SelectCons(x, rest, f);
      SelectCons(x, rest + b, f);
      SelectConcat(rest, b, f);
      var head := if Listed(x, f) then [x] else [];
      assert head + (Select(rest, f) + Select(b, f)) == (head + Select(rest, f)) + Select(b, f);
    }
  }

  /** `Math.ceil(count / take)`. */
  function TotalPages(count: nat, take: int): (n: nat)
    requires take >= 1
    ensures count == 0 ==> n == 0
    ensures count > 0 ==> 1 <= n && (n - 1) * take < count <= n * take
  {
    var n := (count + take - 1) / take;
    assert count > 0 ==> (n - 1) * take < count <= n * take by {
      if count > 0 {
        var m := (count + take - 1) % take;
        assert count + take - 1 == n * take + m && 0 <= m < take;
        assert (n - 1) * take == n * take - take;
      }
    }
    n
  }

  datatype Listing = Listing(data: seq<Order>, totalPages: nat, totalCount: nat)

  /** The rows after the first `skip`, at most `take` of them. */
  function Window<T>(s: seq<T>, skip: nat, take: nat): (w: seq<T>)
    ensures |w| <= take
    ensures skip + take <= |s| ==> |w| == take
    ensures |w| == if skip >= |s| then 0 else if |s| - skip < take then |s| - skip else take
    ensures forall k :: 0 <= k < |w| ==> skip + k < |s| && w[k] == s[skip + k]
    ensures forall x :: x in w ==> x in s
  {
    if skip >= |s| then []
    else if skip + take <= |s| then s[skip..skip + take]
    else s[skip..]
  }

  /**
    One page of a listing: the matching rows after skipping the earlier
    pages, at most one page size of them; the count of all matching rows;
    and the number of pages they fill.
  */
  function FindAll(rows: seq<Order>, f: Filter, o: PageOptions): (r: Listing)
    requires InBounds(o)
    ensures r.totalCount == |Select(rows, f)|
    ensures |r.data| <= o.take
    ensures forall x :: x in r.data ==> x in rows && Listed(x, f)
    ensures f.ForUser? ==> forall x :: x in r.data ==> x.userId == f.userId && x.status != New
    ensures forall k :: 0 <= k < |r.data| ==> Skip(o) + k < r.totalCount && r.data[k] == Select(rows, f)[Skip(o) + k]
    ensures Skip(o) + o.take <= r.totalCount ==> |r.data| == o.take
    ensures r.totalCount > 0 ==> (r.totalPages - 1) * o.take < r.totalCount <= r.totalPages * o.take
    ensures o.page > r.totalPages ==> r.data == []
    ensures |r.data| == if Skip(o) >= r.totalCount then 0
                        else if r.totalCount - Skip(o) < o.take then r.totalCount - Skip(o) else o.take
    ensures r.totalPages == TotalPages(r.totalCount, o.take)
    ensures r.totalCount == 0 ==> r.totalPages == 0
  {
    var matching := Select(rows, f);
    assert o.page > TotalPages(|matching|, o.take) ==> Skip(o) >= |matching| by {
      if o.page > TotalPages(|matching|, o.take) {
        PagesAfterLastAreEmpty(|matching|, o);
      }
    }
    Listing(Window(matching, Skip(o), o.take), TotalPages(|matching|, o.take), |matching|)
  }

  /** Every matching row is on a page from 1 to the page count. */
  lemma RowsWithinPageCount(count: nat, take: int, i: nat)
    requires MinTake <= take && i < count
    ensures 1 <= i / take + 1 <= TotalPages(count, take)
  {
    var n := TotalPages(count, take);
    var q := i / take;
    assert q * take <= i by {
      assert i == q * take + i % take;
    }
    if q >= n {
      MulMonotone(n, q, take);
      assert false;
    }
  }

  /** A page after the last one starts past every matching row, so it is empty. */
  lemma PagesAfterLastAreEmpty(count: nat, o: PageOptions)
    requires InBounds(o) && o.page > TotalPages(count, o.take)
    ensures Skip(o) >= count
  {
    var n := TotalPages(count, o.take);
    assert Skip(o) == (o.page - 1) * o.take;
    MulMonotone(n, o.page - 1, o.take);
  }
}
