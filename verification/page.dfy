/** The page as a whole: the item list and the chosen filter, changed by the
    four things a user can do, and the start date the form offers. */
module Page {
  import opened Calendar
  import opened Optional
  import opened IsoDates
  import opened ItemStore

  datatype PageState = PageState(items: seq<Item>, filter: string)

  /** The user's actions: submitting the add form (with the id createId()
      produced), a row's delete button, the clear-all button, and choosing a
      filter. */
  datatype Command =
    | Submit(draft: Draft, id: string)
    | Delete(id: string)
    | ClearAll
    | ChooseFilter(filter: string)

  /** The state after one action; the page is then rendered afresh. */
  function Apply(s: PageState, c: Command): (r: PageState)
    ensures c.ChooseFilter? ==> r == PageState(s.items, c.filter)
    ensures !c.ChooseFilter? ==> r.filter == s.filter
    ensures c.ClearAll? ==> r.items == []
    ensures c.Delete? ==> forall x :: x in r.items <==> x in s.items && x.id != c.id
    ensures c.Submit? && !Accepts(c.draft) ==> r == s
    ensures c.Submit? && Accepts(c.draft) ==> |r.items| == |s.items| + 1 && r.items[..|s.items|] == s.items
  {
    match c
    case Submit(d, id) => PageState(AddItem(s.items, d, id), s.filter)
    case Delete(id) => PageState(DeleteItem(s.items, id), s.filter)
    case ClearAll => PageState([], s.filter)
    case ChooseFilter(f) => PageState(s.items, f)
  }

  /** The id a submit carries is not used yet (createId() is random; the model
      takes it as given). */
  predicate FreshId(s: PageState, c: Command) {
    c.Submit? ==> forall x :: x in s.items ==> x.id != c.id
  }

  /** Every action keeps the item ids unique, as long as new ids are fresh;
      this is what lets a delete button remove exactly its own row. */
  lemma ApplyKeepsIdsUnique(s: PageState, c: Command)
    requires UniqueIds(s.items) && FreshId(s, c)
    ensures UniqueIds(Apply(s, c).items)
  {
    match c
    case Submit(d, id) => AddKeepsIdsUnique(s.items, d, id);
    case Delete(id) => DeleteKeepsIdsUnique(s.items, id);
    case ClearAll =>
    case ChooseFilter(f) =>
  }

  /** With unique ids, a delete removes exactly one row when the id is on the
      page and nothing otherwise. */
  lemma {:induction false} DeleteRemovesOne(items: seq<Item>, id: string)
    requires UniqueIds(items)
    ensures |DeleteItem(items, id)| == |items| - (if exists x :: x in items && x.id == id then 1 else 0)
  {
    if items != [] {
      var head, tail := items[0], items[1..];
      assert items == [head] + tail;
      UniqueTail(items);
      DeleteRemovesOne(tail, id);
      if head.id == id {
        assert head in items;
        assert !exists x :: x in tail && x.id == id;
        assert DeleteItem(items, id) == DeleteItem(tail, id);
      } else {
        assert DeleteItem(items, id) == [head] + DeleteItem(tail, id);
        HasIdPastHead(items, id);
      }
    }
  }

  lemma HasIdPastHead(items: seq<Item>, id: string)
    requires items != [] && items[0].id != id
    ensures (exists x :: x in items && x.id == id) <==> (exists x :: x in items[1..] && x.id == id)
  {
    assert items == [items[0]] + items[1..];
    if exists x :: x in items && x.id == id {
      var x :| x in items && x.id == id;
      assert x in items[1..];
    }
  }

  /** The start date the form offers when the page opens: today's ISO text,
      which reads back as today from year 0 on, and from year 100 on also
      under parseISODate as written. */
  function DefaultStartDate(today: Day): (s: string)
    ensures Civil(today).year >= 0 ==> ParseISODate(s) == Some(today)
    ensures Civil(today).year >= 100 ==> ParseISODateAsWritten(s) == Some(today)
  {
    if Civil(today).year >= 100 then
      ParseToISODate(today);
      ParseToISODateAsWritten(today);
      ToISODate(today)
    else if Civil(today).year >= 0 then
      ParseToISODate(today);
      ToISODate(today)
    else
      ToISODate(today)
  }
}
