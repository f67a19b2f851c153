/** The request handler for /items: maps each request onto the in-memory store and
    the store's answer onto an HTTP outcome, converting records to their views. */
module Controllers {
  import opened Entities
  import opened ItemList
  import ApiRepositories

  /** The outcomes the handler produces. */
  datatype ActionResult =
    | Ok(dto: ItemDto)                                              // 200 with the item's view
    | NotFound                                                      // 404
    | NoContent                                                     // 204
    | CreatedAtAction(actionName: string, routeId: Guid, dto: ItemDto)  // 201, Location of the get
    | Faulted(exception: Exception)                                 // an exception escaping the store

  /** item.AsDto(): the field-by-field projection. */
  function AsDto(item: Item): ItemDto {
    ItemDto(item.id, item.name, item.price, item.createdDate)
  }

  /** items.Select(item => item.AsDto()). */
  function SelectAsDto(items: seq<Item>): (dtos: seq<ItemDto>)
    ensures |dtos| == |items|
    ensures forall k :: 0 <= k < |items| ==>
              dtos[k].id == items[k].id && dtos[k].name == items[k].name &&
              dtos[k].price == items[k].price && dtos[k].createdDate == items[k].createdDate
  {
    if |items| == 0 then [] else [AsDto(items[0])] + SelectAsDto(items[1..])
  }

  class ItemsController {
    /** The injected store. */
    const repository: ApiRepositories.InMemItemsRepository

    constructor (repository: ApiRepositories.InMemItemsRepository)
      ensures this.repository == repository
    {
      this.repository := repository;
    }

    /** GET /items: one view per stored item, in store order. */
    method GetItemsAsync() returns (dtos: seq<ItemDto>)
      ensures dtos == SelectAsDto(repository.items)
    {
      var items := repository.GetItemsAsync();
      dtos := SelectAsDto(items);
    }

    /** GET /items/{id}: NotFound when absent, else the item's view. */
    method GetItemAsync(id: Guid) returns (result: ActionResult)
      ensures match GetById(repository.items, id)
                case Returned(None) => result == NotFound
                case Returned(Some(item)) => result == Ok(AsDto(item))
                case Threw(e) => result == Faulted(e)
      ensures result == NotFound <==> !HasId(repository.items, id)
      ensures SharedId(repository.items, id) ==> result == Faulted(InvalidOperation)
      ensures HasId(repository.items, id) && !SharedId(repository.items, id) ==>
                result == Ok(AsDto(repository.items[IndexOf(repository.items, id)]))
    {
      var item := repository.GetItemAsync(id);
      if item.Threw? {
        return Faulted(item.exception);
      }
      if item.value.None? {
        return NotFound;
      }
      result := Ok(AsDto(item.value.value));
    }

    /** POST /items: stores a new record built from the body, with the id Guid.NewGuid()
        supplied as `newId` and the clock reading as `now`. */
    method CreateItemAsync(itemDto: CreateItemDto, newId: Guid, now: Timestamp)
      returns (result: ActionResult)
      modifies repository
      ensures repository.items ==
                old(repository.items) + [Item(newId, itemDto.name, itemDto.price, now)]
      ensures result ==
                CreatedAtAction("GetItemAsync", newId, ItemDto(newId, itemDto.name, itemDto.price, now))
      ensures old(UniqueIds(repository.items)) && !old(HasId(repository.items, newId)) ==>
                UniqueIds(repository.items)
    {
      var item := Item(newId, itemDto.name, itemDto.price, now);
      repository.CreateItemAsync(item);
      result := CreatedAtAction("GetItemAsync", item.id, AsDto(item));
    }

    /** PUT /items/{id}: NotFound and no change when absent; otherwise the existing record
        with the body's name and price, keeping id and creation date, and NoContent. */
    method UpdateItemAsync(id: Guid, itemDto: UpdateItemDto) returns (result: ActionResult)
      modifies repository
      ensures var before := old(repository.items);
              if !HasId(before, id) then
                result == NotFound && repository.items == before
              else if SharedId(before, id) then
                result == Faulted(InvalidOperation) && repository.items == before
              else
                var k := IndexOf(before, id);
                result == NoContent &&
                repository.items == before[k := before[k].(name := itemDto.name, price := itemDto.price)]
      ensures old(UniqueIds(repository.items)) ==> UniqueIds(repository.items)
    {
      var existingItem := repository.GetItemAsync(id);
      if existingItem.Threw? {
        return Faulted(existingItem.exception);
      }
      if existingItem.value.None? {
        return NotFound;
      }
      var updatedItem := existingItem.value.value.(name := itemDto.name, price := itemDto.price);
      var status := repository.UpdateItemAsync(updatedItem);
      assert status == Returned(());  // the record just found is always there to overwrite
      result := NoContent;
    }

    /** DELETE /items/{id}: NotFound and no change when absent; otherwise the item is
        removed, the others keep their order, and NoContent. */
    method DeleteItemAsync(id: Guid) returns (result: ActionResult)
      modifies repository
      ensures var before := old(repository.items);
              if !HasId(before, id) then
                result == NotFound && repository.items == before
              else if SharedId(before, id) then
                result == Faulted(InvalidOperation) && repository.items == before
              else
                var k := IndexOf(before, id);
                result == NoContent && repository.items == before[..k] + before[k + 1..]
      ensures old(UniqueIds(repository.items)) ==> UniqueIds(repository.items)
    {
      var existingItem := repository.GetItemAsync(id);
      if existingItem.Threw? {
        return Faulted(existingItem.exception);
      }
      if existingItem.value.None? {
        return NotFound;
      }
      var status := repository.DeleteItemAsync(id);
      assert status == Returned(());  // the record just found is always there to remove
      result := NoContent;
    }
  }

  /** An update followed by a get of the same id: the new name and price come back
      with the id and creation date of the record that was stored. */
  method UpdateThenGet(controller: ItemsController, id: Guid, itemDto: UpdateItemDto,
                       ghost existing: Item)
    returns (updated: ActionResult, fetched: ActionResult)
    requires UniqueIds(controller.repository.items)
    requires GetById(controller.repository.items, id) == Returned(Some(existing))
    modifies controller.repository
    ensures updated == NoContent
    ensures fetched == Ok(ItemDto(id, itemDto.name, itemDto.price, existing.createdDate))
    ensures UniqueIds(controller.repository.items) && HasId(controller.repository.items, id)
  {
    ghost var before := controller.repository.items;
    UniqueLookup(before, id);
    updated := controller.UpdateItemAsync(id, itemDto);
    GetAfterReplace(before, existing.(name := itemDto.name, price := itemDto.price), id);
    fetched := controller.GetItemAsync(id);
  }

  /** A full lifecycle on a fresh store seeded with ids 1, 2 and 3: create "Potion" at 9,
      get it, update it to "Elixir" at 12, get it, delete it, get it. */
  method PotionScenario(now: Timestamp)
    returns (created: ActionResult, first: ActionResult, updated: ActionResult,
             second: ActionResult, deleted: ActionResult, third: ActionResult)
    ensures created == CreatedAtAction("GetItemAsync", 4, ItemDto(4, "Potion", 9, now))
    ensures first == Ok(ItemDto(4, "Potion", 9, now))
    ensures updated == NoContent
    ensures second == Ok(ItemDto(4, "Elixir", 12, now))
    ensures deleted == NoContent
    ensures third == NotFound
  {
    var store := new ApiRepositories.InMemItemsRepository(1, 2, 3, now, now, now);
    var controller := new ItemsController(store);
    ghost var seed := store.items;
    assert UniqueIds(seed) && !HasId(seed, 4);
    created := controller.CreateItemAsync(CreateItemDto("Potion", 9), 4, now);
    GetAfterAdd(seed, Item(4, "Potion", 9, now), 4);
    first := controller.GetItemAsync(4);
    updated, second := UpdateThenGet(controller, 4, UpdateItemDto("Elixir", 12), Item(4, "Potion", 9, now));
    ghost var afterUpdate := store.items;
    deleted := controller.DeleteItemAsync(4);
    GetAfterRemove(afterUpdate, 4, 4);
    third := controller.GetItemAsync(4);
  }
}
