/**
  Page options of the listing endpoints: sort order, page number and page
  size, with the defaults and the bounds their validators enforce, and the
  number of rows to skip for a page.
*/
module Pagination {
  import opened Wrappers

  datatype SortOrder = Asc | Desc

  const DefaultOrder: SortOrder := Desc
  const DefaultPage: int := 1
  const DefaultTake: int := 1000
  const MinPage: int := 1
  const MinTake: int := 1
  const MaxTake: int := 5000

  datatype PageOptions = PageOptions(order: SortOrder, page: int, take: int)

  /** The bounds the validators enforce: an integer page of at least 1, a page size from 1 to 5000. */
  predicate InBounds(o: PageOptions) {
    MinPage <= o.page && MinTake <= o.take <= MaxTake
  }

  /**
    The options a query yields: a field the query leaves out keeps its
    default; a field it gives replaces the default and must pass validation,
    otherwise the request is rejected.
  */
  function FromQuery(order: Option<SortOrder>, page: Option<int>, take: Option<int>): (r: Option<PageOptions>)
    ensures r.Some? <==> (page.None? || MinPage <= page.value) && (take.None? || MinTake <= take.value <= MaxTake)
    ensures r.Some? ==> InBounds(r.value)
    ensures r.Some? ==>
      && r.value.order == (if order.Some? then order.value else DefaultOrder)
      && r.value.page == (if page.Some? then page.value else DefaultPage)
      && r.value.take == (if take.Some? then take.value else DefaultTake)
  {
    var o := PageOptions(
      match order case Some(v) => v case None => DefaultOrder,
      match page case Some(v) => v case None => DefaultPage,
      match take case Some(v) => v case None => DefaultTake);
    if InBounds(o) then Some(o) else None
  }

  /** The rows before page `o.page` when each page holds `o.take` rows. */
  function Skip(o: PageOptions): (s: int)
    ensures InBounds(o) ==> 0 <= s && s % o.take == 0 && s / o.take == o.page - 1
    ensures o.page == 1 ==> s == 0
  {
    var s := (o.page - 1) * o.take;
    assert InBounds(o) ==> s / o.take == o.page - 1 && s % o.take == 0 by {
      if InBounds(o) {
        DivMulExact(o.page - 1, o.take);
      }
    }
    s
  }

  lemma DivMulExact(q: nat, t: int)
    requires t >= 1
    ensures (q * t) / t == q && (q * t) % t == 0
  {
    DivUnique(q * t, t, q);
  }

  /** The quotient is the one `q` with `q * t <= i < q * t + t`. */
  lemma DivUnique(i: int, t: int, q: int)
    requires t >= 1 && q * t <= i < q * t + t
    ensures i / t == q && i % t == i - q * t
  {
    var d, m := i / t, i % t;
    assert i == d * t + m && 0 <= m < t;
    if d < q {
      assert (d + 1) * t <= q * t by {
        assert d + 1 <= q;
        MulMonotone(d + 1, q, t);
      }
    } else if d > q {
      assert (q + 1) * t <= d * t by {
        MulMonotone(q + 1, d, t);
      }
    }
  }

  lemma MulMonotone(a: int, b: int, t: int)
    requires a <= b && t >= 0
    ensures a * t <= b * t
  {
    assert b * t - a * t == (b - a) * t;
  }

  /** Row `i` (counted from 0) lies on page `o.page` exactly when `o.page` is `i / o.take + 1`:
      the pages tile the rows without gaps or overlaps. */
  lemma RowOnPage(o: PageOptions, i: int)
    requires InBounds(o) && 0 <= i
    ensures Skip(o) <= i < Skip(o) + o.take <==> o.page == i / o.take + 1
  {
    var t := o.take;
    if Skip(o) <= i < Skip(o) + t {
      DivUnique(i, t, o.page - 1);
    }
    if o.page == i / t + 1 {
      var q := i / t;
      assert i == q * t + i % t;
      assert Skip(o) == q * t;
    }
  }

  /** The default options are within the bounds and start at the first row. */
  lemma DefaultsStartAtFirstRow()
    ensures FromQuery(None, None, None) == Some(PageOptions(Desc, 1, 1000))
    ensures Skip(FromQuery(None, None, None).value) == 0
  {
  }
}
