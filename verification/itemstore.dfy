/** The list of tracked items and the three ways the page changes it: the add
    form (with its validation), the per-row delete button and the clear-all
    button; plus reading the list back from storage. */
module ItemStore {
  import opened Text
  import opened Calendar
  import opened Optional
  import opened IsoDates
  import opened ShelfLife

  /** A stored item. The start and expiry dates are kept as ISO text. */
  datatype Item = Item(
    id: string,
    name: string,
    startDate: string,
    expiryDate: string,
    lifeValue: int,
    lifeUnit: string,
    note: string)

  /** What the add form holds when it is submitted. `lifeValue` is
      Number(field): None when that is NaN or infinite. */
  datatype Draft = Draft(name: string, startDate: string, lifeValue: Option<int>, lifeUnit: string, note: string)

  /** The form's checks: a name that is not blank, a start date, and a finite
      shelf life greater than zero. */
  predicate Accepts(d: Draft) {
    Trim(d.name) != [] && d.startDate != [] && d.lifeValue.Some? && d.lifeValue.value > 0
  }

  /** toISODate of an Invalid Date: every field renders as NaN. */
  const InvalidDateText: string := "NaN-NaN-NaN"

  /** The stored expiry text: the start date read back, moved by the shelf
      life and written out; a start date that does not read gives an Invalid
      Date all the way through. */
  function ExpiryText(startDate: string, value: int, unit: string): string {
    match ParseISODate(startDate)
    case None => InvalidDateText
    case Some(start) => ToISODate(AddShelfLife(start, value, unit))
  }

  /** The item the form creates under the fresh id `id`. */
  function NewItem(d: Draft, id: string): Item
    requires Accepts(d)
  {
    Item(id, Trim(d.name), d.startDate, ExpiryText(d.startDate, d.lifeValue.value, d.lifeUnit),
         d.lifeValue.value, d.lifeUnit, Trim(d.note))
  }

  /** Submitting the add form: a draft the checks refuse changes nothing;
      otherwise exactly one item is appended, carrying the fresh id, the
      trimmed name and note, and the start date and shelf life as entered. */
  function AddItem(items: seq<Item>, d: Draft, id: string): (r: seq<Item>)
    ensures !Accepts(d) ==> r == items
    ensures Accepts(d) ==>
              && |r| == |items| + 1 && r[..|items|] == items
              && var it := r[|items|];
              && it.id == id && it.startDate == d.startDate
              && it.lifeValue == d.lifeValue.value && it.lifeUnit == d.lifeUnit
              && it.name != [] && !IsSpace(it.name[0]) && !IsSpace(it.name[|it.name| - 1])
              && (exists i, j :: TrimBounds(d.name, i, j) && it.name == d.name[i..j])
              && (exists i, j :: TrimBounds(d.note, i, j) && it.note == d.note[i..j])
  {
    if Accepts(d) then
      var r := items + [NewItem(d, id)];
      assert r[..|items|] == items;
      r
    else items
  }

  /** The expiry date of an added item reads back as the start date moved by
      the shelf life (for dates from year 0 on); a start date that does not
      read leaves an expiry that does not read either. */
  lemma {:induction false} AddedExpiry(items: seq<Item>, d: Draft, id: string)
    requires Accepts(d)
    ensures var it := AddItem(items, d, id)[|items|];
            match ParseISODate(d.startDate)
            case None => ParseISODate(it.expiryDate) == None
            case Some(start) =>
              var expiry := AddShelfLife(start, d.lifeValue.value, d.lifeUnit);
              Civil(expiry).year >= 0 ==> ParseISODate(it.expiryDate) == Some(expiry)
  {
    match ParseISODate(d.startDate)
    case None =>
      InvalidDateUnreadable();
    case Some(start) =>
      var expiry := AddShelfLife(start, d.lifeValue.value, d.lifeUnit);
      if Civil(expiry).year >= 0 {
        ParseToISODate(expiry);
      }
  }

  /** The text toISODate gives an Invalid Date does not read as a date,
      whichever way the year is taken. */
  lemma InvalidDateUnreadable()
    ensures ParseISODate(InvalidDateText) == None
    ensures ParseISODateAsWritten(InvalidDateText) == None
  {
    var nan := "NaN";
    assert InvalidDateText == nan + "-" + nan + "-" + nan;
    assert !IsDigit(nan[0]);
    SplitThree(nan, nan, nan, '-');
  }

  // ---------------------------------------------------------------------------
  // Delete and clear
  // ---------------------------------------------------------------------------

  /** items.filter(x => x.id !== id): the delete button of the row for `id`. */
  function DeleteItem(items: seq<Item>, id: string): (r: seq<Item>)
    ensures forall x :: x in r <==> x in items && x.id != id
    ensures forall x: Item :: x.id != id ==> multiset(r)[x] == multiset(items)[x]
    ensures |r| <= |items|
  {
    if items == [] then []
    else
      var rest := DeleteItem(items[1..], id);
      assert items == [items[0]] + items[1..];
      if items[0].id == id then rest else [items[0]] + rest
  }

  /** Deleting an id that no item carries changes nothing. */
  lemma {:induction false} DeleteAbsent(items: seq<Item>, id: string)
    requires forall x :: x in items ==> x.id != id
    ensures DeleteItem(items, id) == items
  {
    if items != [] {
      DeleteAbsent(items[1..], id);
      assert items == [items[0]] + items[1..];
    }
  }

  lemma {:induction false} DeleteAppend(a: seq<Item>, b: seq<Item>, id: string)
    ensures DeleteItem(a + b, id) == DeleteItem(a, id) + DeleteItem(b, id)
  {
    if a != [] {
      assert (a + b)[1..] == a[1..] + b;
      DeleteAppend(a[1..], b, id);
    } else {
      assert a + b == b;
    }
  }

  /** Deleting the item just added under a fresh id restores the list. */
  lemma {:induction false} DeleteUndoesAdd(items: seq<Item>, d: Draft, id: string)
    requires forall x :: x in items ==> x.id != id
    ensures DeleteItem(AddItem(items, d, id), id) == items
  {
    DeleteAbsent(items, id);
    if Accepts(d) {
      var it := NewItem(d, id);
      DeleteAppend(items, [it], id);
      assert DeleteItem([it], id) == [];
    }
  }

  /** No two items share an id. */
  predicate UniqueIds(items: seq<Item>) {
    forall i, j :: 0 <= i < j < |items| ==> items[i].id != items[j].id
  }

  /** Adding under an id no item carries keeps the ids unique. */
  lemma AddKeepsIdsUnique(items: seq<Item>, d: Draft, id: string)
    requires UniqueIds(items) && forall x :: x in items ==> x.id != id
    ensures UniqueIds(AddItem(items, d, id))
  {
    var r := AddItem(items, d, id);
    if Accepts(d) {
      forall i, j | 0 <= i < j < |r|
        ensures r[i].id != r[j].id
      {
        assert r[i] == items[i];
        if j < |items| {
          assert r[j] == items[j];
        } else {
          assert items[i] in items;
        }
      }
    }
  }

  lemma UniqueTail(items: seq<Item>)
    requires items != [] && UniqueIds(items)
    ensures UniqueIds(items[1..])
    ensures forall y :: y in items[1..] ==> y.id != items[0].id
  {
    var tail := items[1..];
    forall y | y in tail
      ensures y.id != items[0].id
    {
      var k :| 0 <= k < |tail| && tail[k] == y;
      assert items[k + 1] == y;
    }
    forall i, j | 0 <= i < j < |tail|
      ensures tail[i].id != tail[j].id
    {
      assert tail[i] == items[i + 1] && tail[j] == items[j + 1];
    }
  }

  lemma UniqueCons(x: Item, rest: seq<Item>)
    requires UniqueIds(rest) && forall y :: y in rest ==> y.id != x.id
    ensures UniqueIds([x] + rest)
  {
    var r := [x] + rest;
    forall i, j | 0 <= i < j < |r|
      ensures r[i].id != r[j].id
    {
      assert r[j] == rest[j - 1];
      if i > 0 {
        assert r[i] == rest[i - 1];
      }
    }
  }

  /** Deleting keeps the ids unique. */
  lemma {:induction false} DeleteKeepsIdsUnique(items: seq<Item>, id: string)
    requires UniqueIds(items)
    ensures UniqueIds(DeleteItem(items, id))
  {
    if items != [] {
      UniqueTail(items);
      DeleteKeepsIdsUnique(items[1..], id);
      if items[0].id != id {
        UniqueCons(items[0], DeleteItem(items[1..], id));
      }
    }
  }

  // ---------------------------------------------------------------------------
  // Loading from storage
  // ---------------------------------------------------------------------------

  /** loadItems(): no stored value, or an empty one, gives the empty list; a
      stored value is decoded (JSON.parse, the parameter `decode`), and a
      value that does not decode gives the empty list too. */
  function Load(raw: Option<string>, decode: string -> Option<seq<Item>>): seq<Item> {
    match raw
    case None => []
    case Some(text) =>
      if text == [] then []
      else
        match decode(text)
        case None => []
        case Some(items) => items
  }
}
