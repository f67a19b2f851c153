/** The synchronous in-memory store of the original Catalog project: a private list of
    items, changed in place; the same behaviour as the asynchronous store, without tasks. */
module Repositories {
  import opened Entities
  import opened ItemList

  class InMemItemsRepository {
    /** The private List<Item>, in insertion order. */
    var items: seq<Item>

    /** The store's intended invariant; callers keep it by creating only fresh ids. */
    ghost predicate Valid()
      reads this
    {
      UniqueIds(items)
    }

    /** The field initializer: three seed records, each with its own new Guid and clock reading. */
    constructor (potionId: Guid, swordId: Guid, shieldId: Guid,
                 potionDate: Timestamp, swordDate: Timestamp, shieldDate: Timestamp)
      ensures items == SeedItems(potionId, swordId, shieldId, potionDate, swordDate, shieldDate)
      ensures |items| == 3
      ensures items[0].name == "Potion" && items[0].price == 9
      ensures items[1].name == "Irom Sword" && items[1].price == 20
      ensures items[2].name == "Bronze Shield" && items[2].price == 18
      ensures potionId != swordId && potionId != shieldId && swordId != shieldId ==> Valid()
    {
      items := SeedItems(potionId, swordId, shieldId, potionDate, swordDate, shieldDate);
    }

    /** The whole list, in insertion order. */
    method GetItems() returns (result: seq<Item>)
      ensures result == items
    {
      result := items;
    }

    /** The element whose id matches: null when none does, InvalidOperationException
        when two do. */
    method GetItem(id: Guid) returns (result: Outcome<Option<Item>>)
      ensures result == GetById(items, id)
      ensures result == Returned(None) <==> !HasId(items, id)
      ensures result.Threw? <==> SharedId(items, id)
      ensures result.Threw? ==> result.exception == InvalidOperation
      ensures HasId(items, id) && !SharedId(items, id) ==>
                result == Returned(Some(items[IndexOf(items, id)]))
    {
      result := GetById(items, id);
      GetByIdCases(items, id);
    }

    /** Appends the item; no check for an existing id. */
    method CreateItem(item: Item)
      modifies this
      ensures items == old(items) + [item]
      ensures old(Valid()) && !old(HasId(items, item.id)) ==> Valid()
    {
      items := items + [item];
      if old(Valid()) && !old(HasId(items, item.id)) {
        GetAfterAdd(old(items), item, item.id);
      }
    }

    /** Overwrites the slot FindIndex gives; with no match the indexer throws and nothing changes. */
    method UpdateItem(item: Item) returns (status: Outcome<()>)
      modifies this
      ensures match ReplaceById(old(items), item)
                case Returned(next) => status == Returned(()) && items == next
                case Threw(e) => status == Threw(e) && items == old(items)
      ensures old(Valid()) ==> Valid()
    {
      var index := FindIndex(items, item.id);
      if index < 0 {
        status := Threw(ArgumentOutOfRange);
        return;
      }
      items := items[index := item];
      status := Returned(());
      if old(Valid()) {
        GetAfterReplace(old(items), item, item.id);
      }
    }

    /** Removes the slot FindIndex gives; with no match RemoveAt throws and nothing changes. */
    method DeleteItem(id: Guid) returns (status: Outcome<()>)
      modifies this
      ensures match RemoveById(old(items), id)
                case Returned(next) => status == Returned(()) && items == next
                case Threw(e) => status == Threw(e) && items == old(items)
      ensures old(Valid()) ==> Valid()
    {
      var index := FindIndex(items, id);
      if index < 0 {
        status := Threw(ArgumentOutOfRange);
        return;
      }
      items := items[..index] + items[index + 1..];
      status := Returned(());
      if old(Valid()) {
        GetAfterRemove(old(items), id, id);
      }
    }
  }
}
