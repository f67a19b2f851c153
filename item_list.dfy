/** The operations of List<Item> and LINQ that the in-memory stores use, as functions on
    the list's contents, with the facts about them that the stores and the controller need. */
module ItemList {
  import opened Entities

  /** Some element carries `id`. */
  predicate HasId(items: seq<Item>, id: Guid) {
    exists k :: 0 <= k < |items| && items[k].id == id
  }

  /** Two different positions carry `id`. */
  predicate SharedId(items: seq<Item>, id: Guid) {
    exists i, j :: 0 <= i < j < |items| && items[i].id == id && items[j].id == id
  }

  /** No two positions carry the same id: the store's intended invariant. */
  predicate UniqueIds(items: seq<Item>) {
    forall i, j :: 0 <= i < j < |items| ==> items[i].id != items[j].id
  }

  /** items.FindIndex(x => x.Id == id): the first matching position, or -1. */
  function IndexOf(items: seq<Item>, id: Guid): (r: int)
    ensures -1 <= r < |items|
    ensures r == -1 <==> !HasId(items, id)
    ensures 0 <= r ==> items[r].id == id && forall k :: 0 <= k < r ==> items[k].id != id
  {
    if |items| == 0 then -1
    else if items[0].id == id then 0
    else
      var r := IndexOf(items[1..], id);
      assert forall k :: 1 <= k < |items| ==> items[k] == items[1..][k - 1];
      if r == -1 then -1 else r + 1
  }

  /** The linear scan behind List<Item>.FindIndex. */
  method FindIndex(items: seq<Item>, id: Guid) returns (index: int)
    ensures index == IndexOf(items, id)
  {
    index := 0;
    while index < |items|
      invariant 0 <= index <= |items|
      invariant forall k :: 0 <= k < index ==> items[k].id != id
    {
      if items[index].id == id {
        return;
      }
      index := index + 1;
    }
    index := -1;
  }

  /** items.Where(x => x.Id == id): the matching elements, in list order. */
  function Where(items: seq<Item>, id: Guid): seq<Item> {
    if |items| == 0 then []
    else (if items[0].id == id then [items[0]] else []) + Where(items[1..], id)
  }

  /** Enumerable.SingleOrDefault: null for no element, the element for one, an exception for more. */
  function SingleOrDefault(matches: seq<Item>): Outcome<Option<Item>> {
    if |matches| == 0 then Returned(None)
    else if |matches| == 1 then Returned(Some(matches[0]))
    else Threw(InvalidOperation)
  }

  /** items.Where(x => x.Id == id).SingleOrDefault(), the stores' lookup. */
  function GetById(items: seq<Item>, id: Guid): Outcome<Option<Item>> {
    SingleOrDefault(Where(items, id))
  }

  /** items[items.FindIndex(x => x.Id == item.Id)] = item, on a copy of the contents. */
  function ReplaceById(items: seq<Item>, item: Item): (r: Outcome<seq<Item>>)
    ensures r.Returned? <==> HasId(items, item.id)
    ensures r.Threw? ==> r.exception == ArgumentOutOfRange
    ensures r.Returned? ==>
      var k := IndexOf(items, item.id);
      |r.value| == |items| && r.value[k] == item && items[k].id == item.id &&
      forall j :: 0 <= j < |items| && j != k ==> r.value[j] == items[j]
  {
    var index := IndexOf(items, item.id);
    if index < 0 then Threw(ArgumentOutOfRange) else Returned(items[index := item])
  }

  /** items.RemoveAt(items.FindIndex(x => x.Id == id)), on a copy of the contents. */
  function RemoveById(items: seq<Item>, id: Guid): (r: Outcome<seq<Item>>)
    ensures r.Returned? <==> HasId(items, id)
    ensures r.Threw? ==> r.exception == ArgumentOutOfRange
    ensures r.Returned? ==>
      var k := IndexOf(items, id);
      |r.value| == |items| - 1 && r.value == items[..k] + items[k + 1..] &&
      multiset(r.value) + multiset{items[k]} == multiset(items)
  {
    var index := IndexOf(items, id);
    if index < 0 then Threw(ArgumentOutOfRange)
    else
      assert items == items[..index] + [items[index]] + items[index + 1..];
      Returned(items[..index] + items[index + 1..])
  }

  /** The three records both stores start with, in list order. */
  function SeedItems(potionId: Guid, swordId: Guid, shieldId: Guid,
                     potionDate: Timestamp, swordDate: Timestamp, shieldDate: Timestamp): (r: seq<Item>)
    ensures |r| == 3
    ensures r[0] == Item(potionId, "Potion", 9, potionDate)
    ensures r[1] == Item(swordId, "Irom Sword", 20, swordDate)
    ensures r[2] == Item(shieldId, "Bronze Shield", 18, shieldDate)
    ensures UniqueIds(r) <==> potionId != swordId && potionId != shieldId && swordId != shieldId
  {
    [ Item(potionId, "Potion", 9, potionDate),
      Item(swordId, "Irom Sword", 20, swordDate),
      Item(shieldId, "Bronze Shield", 18, shieldDate) ]
  }

  // ---- Where, and what the lookup returns ----

  /** Filtering distributes over concatenation. */
  lemma {:induction false} WhereConcat(a: seq<Item>, b: seq<Item>, id: Guid)
    ensures Where(a + b, id) == Where(a, id) + Where(b, id)
  {
    if |a| == 0 {
      assert a + b == b;
    } else {
      var head := if a[0].id == id then [a[0]] else [];
      assert (a + b)[0] == a[0];
      assert (a + b)[1..] == a[1..] + b;
      calc {
        Where(a + b, id);
        head + Where(a[1..] + b, id);
        { WhereConcat(a[1..], b, id); }
        head + (Where(a[1..], id) + Where(b, id));
        (head + Where(a[1..], id)) + Where(b, id);
        Where(a, id) + Where(b, id);
      }
    }
  }

  /** A one-element list matches exactly when its element carries the id. */
  lemma WhereSingle(x: Item, id: Guid)
    ensures Where([x], id) == if x.id == id then [x] else []
  {
    assert [x][1..] == [];
  }

  /** Nothing matches exactly when no element carries the id. */
  lemma {:induction false} WhereEmpty(items: seq<Item>, id: Guid)
    ensures Where(items, id) == [] <==> !HasId(items, id)
  {
    if |items| > 0 {
      WhereEmpty(items[1..], id);
      if HasId(items[1..], id) {
        var k :| 0 <= k < |items[1..]| && items[1..][k].id == id;
        assert items[k + 1].id == id;
      }
      if HasId(items, id) && items[0].id != id {
        var k :| 0 <= k < |items| && items[k].id == id;
        assert items[1..][k - 1].id == id;
      }
    }
  }

  /** The first match is the element at the FindIndex position. */
  lemma {:induction false} WhereFirst(items: seq<Item>, id: Guid)
    requires HasId(items, id)
    ensures |Where(items, id)| > 0 && Where(items, id)[0] == items[IndexOf(items, id)]
  {
    if items[0].id != id {
      var k :| 0 <= k < |items| && items[k].id == id;
      assert items[1..][k - 1].id == id;
      WhereFirst(items[1..], id);
    }
  }

  /** Two positions share `id` exactly when the head and some later element carry it,
      or two positions of the tail do. */
  lemma SharedIdCons(items: seq<Item>, id: Guid)
    requires |items| > 0
    ensures SharedId(items, id) <==>
              (items[0].id == id && HasId(items[1..], id)) || SharedId(items[1..], id)
  {
    var tail := items[1..];
    if (items[0].id == id && HasId(tail, id)) || SharedId(tail, id) {
      SharedIdFromTail(items, id);
    }
    if SharedId(items, id) {
      var i, j :| 0 <= i < j < |items| && items[i].id == id && items[j].id == id;
      assert tail[j - 1].id == id;
      if i > 0 {
        assert tail[i - 1].id == id;
      }
    }
  }

  /** The converse half of SharedIdCons. */
  lemma SharedIdFromTail(items: seq<Item>, id: Guid)
    requires |items| > 0
    requires (items[0].id == id && HasId(items[1..], id)) || SharedId(items[1..], id)
    ensures SharedId(items, id)
  {
    var tail := items[1..];
    if SharedId(tail, id) {
      var i, j :| 0 <= i < j < |tail| && tail[i].id == id && tail[j].id == id;
      assert items[i + 1].id == id && items[j + 1].id == id;
    } else {
      var k :| 0 <= k < |tail| && tail[k].id == id;
      assert items[k + 1].id == id;
    }
  }

  /** At least two matches exactly when two positions share the id. */
  lemma {:induction false} WhereShared(items: seq<Item>, id: Guid)
    ensures |Where(items, id)| >= 2 <==> SharedId(items, id)
  {
    if |items| > 0 {
      WhereShared(items[1..], id);
      WhereEmpty(items[1..], id);
      SharedIdCons(items, id);
    }
  }

  /** The lookup returns null when nothing matches, the matching element when one
      does, and throws InvalidOperationException when two positions share the id. */
  lemma GetByIdCases(items: seq<Item>, id: Guid)
    ensures GetById(items, id) == Returned(None) <==> !HasId(items, id)
    ensures GetById(items, id).Threw? <==> SharedId(items, id)
    ensures GetById(items, id).Threw? ==> GetById(items, id).exception == InvalidOperation
    ensures HasId(items, id) && !SharedId(items, id) ==>
              GetById(items, id) == Returned(Some(items[IndexOf(items, id)]))
  {
    WhereEmpty(items, id);
    WhereShared(items, id);
    if HasId(items, id) {
      WhereFirst(items, id);
    }
  }

  /** With unique ids the lookup never throws. */
  lemma UniqueLookup(items: seq<Item>, id: Guid)
    requires UniqueIds(items)
    ensures GetById(items, id) ==
              if HasId(items, id) then Returned(Some(items[IndexOf(items, id)])) else Returned(None)
  {
    GetByIdCases(items, id);
  }

  /** Lookups of ids other than the one a change touched see the same result. */
  lemma {:induction false} WhereSplit(items: seq<Item>, k: nat, x: Item, id: Guid)
    requires k < |items| && items[k].id != id && x.id != id
    ensures Where(items[..k] + [x] + items[k + 1..], id) == Where(items, id)
    ensures Where(items[..k] + items[k + 1..], id) == Where(items, id)
  {
    assert items == items[..k] + [items[k]] + items[k + 1..];
    WhereConcat(items[..k] + [x], items[k + 1..], id);
    WhereConcat(items[..k], [x], id);
    WhereConcat(items[..k] + [items[k]], items[k + 1..], id);
    WhereConcat(items[..k], [items[k]], id);
    WhereConcat(items[..k], items[k + 1..], id);
    WhereSingle(x, id);
    WhereSingle(items[k], id);
  }

  /** With unique ids, the element at `k` is the only one carrying its id. */
  lemma OnlyAt(items: seq<Item>, k: nat)
    requires UniqueIds(items) && k < |items|
    ensures !HasId(items[..k], items[k].id) && !HasId(items[k + 1..], items[k].id)
  {
    var after := items[k + 1..];
    assert forall j :: 0 <= j < |after| ==> after[j] == items[k + 1 + j];
  }

  /** Overwriting a slot with a record of the same id keeps ids unique. */
  lemma ReplaceKeepsUnique(items: seq<Item>, k: nat, item: Item)
    requires UniqueIds(items) && k < |items| && items[k].id == item.id
    ensures UniqueIds(items[k := item])
  {
  }

  /** Removing one slot keeps ids unique. */
  lemma RemoveKeepsUnique(items: seq<Item>, k: nat)
    requires UniqueIds(items) && k < |items|
    ensures UniqueIds(items[..k] + items[k + 1..])
  {
    var next := items[..k] + items[k + 1..];
    assert forall j :: 0 <= j < |next| ==> next[j] == items[if j < k then j else j + 1];
  }

  // ---- each change, followed by a lookup ----

  /** Appending an item with a fresh id keeps ids unique; the new item is then found,
      and every other id is looked up as before. */
  lemma GetAfterAdd(items: seq<Item>, item: Item, other: Guid)
    requires UniqueIds(items) && !HasId(items, item.id)
    ensures UniqueIds(items + [item])
    ensures GetById(items + [item], item.id) == Returned(Some(item))
    ensures other != item.id ==> GetById(items + [item], other) == GetById(items, other)
  {
    WhereConcat(items, [item], item.id);
    WhereConcat(items, [item], other);
    WhereEmpty(items, item.id);
    WhereSingle(item, item.id);
    WhereSingle(item, other);
  }

  /** After replacing the slot of `item.id`, ids stay unique, that id yields the new
      record, and every other id is looked up as before. */
  lemma GetAfterReplace(items: seq<Item>, item: Item, other: Guid)
    requires UniqueIds(items) && HasId(items, item.id)
    ensures ReplaceById(items, item).Returned?
    ensures UniqueIds(ReplaceById(items, item).value)
    ensures GetById(ReplaceById(items, item).value, item.id) == Returned(Some(item))
    ensures other != item.id ==>
              GetById(ReplaceById(items, item).value, other) == GetById(items, other)
  {
    var k := IndexOf(items, item.id);
    var next := ReplaceById(items, item).value;
    var before, after := items[..k], items[k + 1..];
    assert next == before + [item] + after;
    ReplaceKeepsUnique(items, k, item);
    OnlyAt(items, k);
    WhereEmpty(before, item.id);
    WhereEmpty(after, item.id);
    WhereConcat(before + [item], after, item.id);
    WhereConcat(before, [item], item.id);
    WhereSingle(item, item.id);
    if other != item.id {
      WhereSplit(items, k, item, other);
    }
  }

  /** After removing the slot of `id`, ids stay unique, `id` is no longer found,
      and every other id is looked up as before. */
  lemma GetAfterRemove(items: seq<Item>, id: Guid, other: Guid)
    requires UniqueIds(items) && HasId(items, id)
    ensures RemoveById(items, id).Returned?
    ensures UniqueIds(RemoveById(items, id).value)
    ensures GetById(RemoveById(items, id).value, id) == Returned(None)
    ensures other != id ==> GetById(RemoveById(items, id).value, other) == GetById(items, other)
  {
    var k := IndexOf(items, id);
    var next := RemoveById(items, id).value;
    var before, after := items[..k], items[k + 1..];
    assert next == before + after;
    RemoveKeepsUnique(items, k);
    OnlyAt(items, k);
    WhereEmpty(before, id);
    WhereEmpty(after, id);
    WhereConcat(before, after, id);
    if other != id {
      WhereSplit(items, k, items[k], other);
    }
  }
}
