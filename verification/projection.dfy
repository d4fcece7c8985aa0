/** What render() shows: every item turned into a row with its dates read
    back and its status, the rows the chosen filter keeps, in order of expiry
    (the JavaScript sort is stable, so rows expiring on the same day keep the
    order of the item list). */
module Projection {
  import opened Calendar
  import opened Optional
  import opened IsoDates
  import opened Status
  import opened ItemStore
  import opened Sorting

  datatype Row = Row(item: Item, start: Option<Day>, expiry: Option<Day>, status: StatusInfo)

  /** The row for one item, seen on day `today`. */
  function MakeRow(it: Item, today: Day): Row {
    var expiry := ParseISODate(it.expiryDate);
    Row(it, ParseISODate(it.startDate), expiry, GetStatus(expiry, today))
  }

  /** A row reads its item's expiry back: for an expiry text toISODate wrote
      (from year 0 on), the row's expiry is that date and its count the days
      from today to it. */
  lemma {:induction false} RowOfWrittenExpiry(it: Item, t: Day, today: Day)
    requires it.expiryDate == ToISODate(t) && Civil(t).year >= 0
    ensures MakeRow(it, today).item == it
    ensures MakeRow(it, today).expiry == Some(t)
    ensures MakeRow(it, today).status.left == Some(t - today)
  {
    ParseToISODate(t);
  }

  /** items.map(...): one row per item, in the same order. */
  function Rows(items: seq<Item>, today: Day): seq<Row> {
    seq(|items|, i requires 0 <= i < |items| => MakeRow(items[i], today))
  }

  // ---------------------------------------------------------------------------
  // The filter
  // ---------------------------------------------------------------------------

  const AllFilter: string := "all"
  const ExpiredFilter: string := "expired"
  const SoonFilter: string := "soon"

  /** Whether the filter keeps a row with day count `left` (None is NaN, which
      fails every comparison). "expired" keeps today as well; an unknown
      filter value keeps everything. */
  predicate Keep(filter: string, left: Option<int>) {
    if filter == AllFilter then true
    else if filter == ExpiredFilter then left.Some? && left.value <= 0
    else if filter == SoonFilter then left.Some? && 0 < left.value <= SoonDays
    else true
  }

  /** The filters select by badge: "expired" keeps exactly the Danger rows,
      "soon" exactly the Warn rows, anything else every row. */
  lemma KeepByKind(filter: string, expiry: Option<Day>, today: Day)
    ensures var s := GetStatus(expiry, today);
            && (filter == ExpiredFilter ==> (Keep(filter, s.left) <==> s.kind == Danger))
            && (filter == SoonFilter ==> (Keep(filter, s.left) <==> s.kind == Warn))
            && (filter != ExpiredFilter && filter != SoonFilter ==> Keep(filter, s.left))
  {
  }

  /** rows.filter(...): the rows the filter keeps, in their order. */
  function FilterRows(rows: seq<Row>, filter: string): (r: seq<Row>)
    ensures forall x :: x in r <==> x in rows && Keep(filter, x.status.left)
    ensures forall x: Row :: multiset(r)[x] == if Keep(filter, x.status.left) then multiset(rows)[x] else 0
  {
    var r := Kept(rows, filter);
    KeptCounts(rows, filter);
    forall x
      ensures x in r <==> x in rows && Keep(filter, x.status.left)
    {
      assert x in r <==> multiset(r)[x] > 0;
      assert x in rows <==> multiset(rows)[x] > 0;
    }
    r
  }

  /** The recursion behind FilterRows: each row, kept or dropped, in turn. */
  function Kept(rows: seq<Row>, filter: string): seq<Row> {
    if rows == [] then []
    else (if Keep(filter, rows[0].status.left) then [rows[0]] else []) + Kept(rows[1..], filter)
  }

  lemma {:induction false} KeptCounts(rows: seq<Row>, filter: string)
    ensures forall x: Row :: multiset(Kept(rows, filter))[x] == if Keep(filter, x.status.left) then multiset(rows)[x] else 0
  {
    if rows != [] {
      var h, t := rows[0], rows[1..];
      assert rows == [h] + t;
      KeptCounts(t, filter);
    }
  }

  lemma {:induction false} KeptAppend(a: seq<Row>, b: seq<Row>, filter: string)
    ensures Kept(a + b, filter) == Kept(a, filter) + Kept(b, filter)
  {
    if a != [] {
      assert (a + b)[0] == a[0] && (a + b)[1..] == a[1..] + b;
      KeptAppend(a[1..], b, filter);
    } else {
      assert a + b == b;
    }
  }

  /** Filtering works piecewise over concatenation, so the kept rows keep
      their relative order. */
  lemma FilterAppend(a: seq<Row>, b: seq<Row>, filter: string)
    ensures FilterRows(a + b, filter) == FilterRows(a, filter) + FilterRows(b, filter)
  {
    KeptAppend(a, b, filter);
  }

  // ---------------------------------------------------------------------------
  // The sort by expiry
  // ---------------------------------------------------------------------------

  /** Every row has a readable expiry date, so the comparator a.expiry -
      b.expiry is a number for every pair. */
  predicate AllDated(rows: seq<Row>) {
    forall i :: 0 <= i < |rows| ==> rows[i].expiry.Some?
  }

  /** The sort key: the expiry's time value (only used on dated rows). */
  function ExpiryKey(row: Row): int {
    if row.expiry.Some? then row.expiry.value else 0
  }

  // ---------------------------------------------------------------------------
  // render(): the rows on the page
  // ---------------------------------------------------------------------------

  /** The rows the page shows on day `today` under `filter`: the rows the
      filter keeps, earliest expiry first, rows expiring the same day in item
      order. The comparator only has a consistent meaning when every kept row
      has a readable expiry date, which is what the precondition asks. */
  function Project(items: seq<Item>, filter: string, today: Day): (r: seq<Row>)
    requires AllDated(FilterRows(Rows(items, today), filter))
    ensures Sorted(r, ExpiryKey)
    ensures forall x :: x in r <==> x in Rows(items, today) && Keep(filter, x.status.left)
    ensures multiset(r) == multiset(FilterRows(Rows(items, today), filter))
    ensures forall k :: WithKey(r, ExpiryKey, k) == WithKey(FilterRows(Rows(items, today), filter), ExpiryKey, k)
  {
    var kept := FilterRows(Rows(items, today), filter);
    var r := Sort(kept, ExpiryKey);
    SortSorted(kept, ExpiryKey);
    assert forall x :: x in r <==> x in kept by {
      forall x
        ensures x in r <==> x in kept
      {
        assert x in r <==> multiset(r)[x] > 0;
        assert x in kept <==> multiset(kept)[x] > 0;
      }
    }
    forall k
      ensures WithKey(r, ExpiryKey, k) == WithKey(kept, ExpiryKey, k)
    {
      SortIsStable(kept, ExpiryKey, k);
    }
    r
  }

  /** Under the "all" filter the page shows one row per item. */
  lemma {:induction false} AllFilterShowsEveryItem(items: seq<Item>, today: Day)
    requires AllDated(Rows(items, today))
    ensures FilterRows(Rows(items, today), AllFilter) == Rows(items, today)
    ensures |Project(items, AllFilter, today)| == |items|
  {
    KeepEverything(Rows(items, today), AllFilter);
    var r := Project(items, AllFilter, today);
    assert |r| == |multiset(r)|;
  }

  lemma KeepEverything(rows: seq<Row>, filter: string)
    requires filter != ExpiredFilter && filter != SoonFilter
    ensures FilterRows(rows, filter) == rows
  {
    KeptEverything(rows, filter);
  }

  lemma {:induction false} KeptEverything(rows: seq<Row>, filter: string)
    requires filter != ExpiredFilter && filter != SoonFilter
    ensures Kept(rows, filter) == rows
  {
    if rows != [] {
      KeptEverything(rows[1..], filter);
      assert rows == [rows[0]] + rows[1..];
    }
  }
}
