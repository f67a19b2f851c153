# Catalog item store and items endpoint, in Dafny

This project models the core of a small CRUD catalog service. It covers two parts.

- **The in-memory item store.** There are two copies: the asynchronous `InMemItemsRepository` of the
  Catalog.Api project and the synchronous one of the original project. Each owns a private
  `List<Item>` seeded with three records. Listing returns the list. Lookup is
  `Where(x => x.Id == id).SingleOrDefault()`. Create appends. Update overwrites the slot `FindIndex`
  returns. Delete calls `RemoveAt` on that slot.
- **The items controller.** It handles `GET /items`, `GET /items/{id}`, `POST /items`,
  `PUT /items/{id}` and `DELETE /items/{id}`. It turns records into views field by field, and
  Update and Delete check that the item exists before they change anything.

How the source is expressed in Dafny:

- `Item`, `ItemDto`, `CreateItemDto` and `UpdateItemDto` are datatypes (`entities.dfy`).
- `Guid` is a 128-bit value.
- A `DateTimeOffset` is its UTC instant, in ticks. .NET compares offsets by that instant.
- `decimal` prices are integers.
- The list operations the stores rely on are functions on the list's contents (`item_list.dfy`).
  This covers `FindIndex`, `Where`, `SingleOrDefault`, the indexer assignment and `RemoveAt`.
  `FindIndex`'s linear scan is also a method with a loop.
- Each store is a class whose `items: seq<Item>` field its methods reassign
  (`api_repository.dfy`, `repository.dfy`).
- The controller is a class holding the store; its methods return an `ActionResult` datatype
  (`items_controller.dfy`).

The exceptions the store raises on non-null items are modelled as outcomes, not excluded by
preconditions.

- `SingleOrDefault` over two records with the same id throws `InvalidOperationException`.
- `items[-1] = item` and `RemoveAt(-1)` throw `ArgumentOutOfRangeException`. This happens when
  `FindIndex` finds no match.
- The controller passes an exception from the store on as `Faulted`.

Id uniqueness (`UniqueIds`) is the store's intended invariant. Every change keeps it, and Create
keeps it when the new id is fresh. Under that invariant, lookups never throw, and the controller's
Update and Delete cannot reach the throwing paths. The controller asserts this after each of those
store calls.

A lookup of a missing id returns null. A duplicate id makes `SingleOrDefault` throw, and Create
appends without checking for one. The model follows the code here. Nothing in the code checks that a
price is non-negative, and the model does not check it either.

## Model

| member | source | states |
|---|---|---|
| `ItemList.IndexOf` | Catalog.Api/Repositories/InMemItemsRepository.cs:42 | `FindIndex` by id returns -1 exactly when no element has the id; otherwise it returns the first position carrying the id |
| `ItemList.FindIndex` | Catalog.Api/Repositories/InMemItemsRepository.cs:35 | the linear scan returns exactly the position `IndexOf` specifies (first match, or -1) |
| `ItemList.WhereEmpty` | Catalog.Api/Repositories/InMemItemsRepository.cs:23 | the `Where` filter by id is empty exactly when no element carries the id |
| `ItemList.WhereFirst` | Catalog.Api/Repositories/InMemItemsRepository.cs:23 | when some element carries the id, the first element of the filter is the one at the `FindIndex` position |
| `ItemList.WhereShared` | Catalog.Api/Repositories/InMemItemsRepository.cs:23 | the filter holds two or more elements exactly when two positions share the id |
| `ItemList.GetByIdCases` | Catalog.Api/Repositories/InMemItemsRepository.cs:21-25 | the lookup returns null exactly when the id is absent; it throws, and only InvalidOperationException, exactly when two positions share the id; otherwise it returns the matching element |
| `ItemList.UniqueLookup` | Repositories/InMemItemsRepository.cs:21-24 | with unique ids the lookup never throws: it returns the element at the id's position, or null when the id is absent |
| `ItemList.ReplaceById` | Catalog.Api/Repositories/InMemItemsRepository.cs:33-38 | the update succeeds exactly when the id is present, and otherwise throws ArgumentOutOfRangeException; on success the length is kept, the matching slot holds the new item, and every other slot is untouched |
| `ItemList.RemoveById` | Catalog.Api/Repositories/InMemItemsRepository.cs:40-45 | the delete succeeds exactly when the id is present, and otherwise throws ArgumentOutOfRangeException; on success the list is one shorter, it is the list minus the matching slot with the rest in order, and the removed element is the only one the multiset loses |
| `ItemList.SeedItems` | Catalog.Api/Repositories/InMemItemsRepository.cs:9-14 | the seed is three records, in order: "Potion" at 9, "Irom Sword" at 20, "Bronze Shield" at 18, each with its own id and date; its ids are unique exactly when the three generated ids differ |
| `ItemList.GetAfterAdd` | Catalog.Api/Repositories/InMemItemsRepository.cs:21-31 | appending an item with a fresh id keeps ids unique; a lookup of that id then returns the item, and a lookup of any other id returns what it returned before |
| `ItemList.GetAfterReplace` | Catalog.Api/Repositories/InMemItemsRepository.cs:21-38 | with unique ids and a present id, the update succeeds and keeps ids unique; a lookup of that id then returns the new item, and a lookup of any other id is unchanged |
| `ItemList.GetAfterRemove` | Catalog.Api/Repositories/InMemItemsRepository.cs:21-45 | with unique ids and a present id, the delete succeeds and keeps ids unique; a lookup of that id then returns null, and a lookup of any other id is unchanged |
| `ApiRepositories.InMemItemsRepository.constructor` | Catalog.Api/Repositories/InMemItemsRepository.cs:9-14 | the new store holds exactly the three seed records, in order; it satisfies the invariant when the three generated ids differ |
| `ApiRepositories.InMemItemsRepository.GetItemsAsync` | Catalog.Api/Repositories/InMemItemsRepository.cs:16-19 | returns the current contents unchanged and in insertion order, and changes nothing |
| `ApiRepositories.InMemItemsRepository.GetItemAsync` | Catalog.Api/Repositories/InMemItemsRepository.cs:21-25 | returns null exactly when the id is absent; throws InvalidOperationException exactly when the id is shared; otherwise returns the element at the id's position; changes nothing |
| `ApiRepositories.InMemItemsRepository.CreateItemAsync` | Catalog.Api/Repositories/InMemItemsRepository.cs:27-31 | the new contents are the old contents with the item appended; with a fresh id, ids stay unique |
| `ApiRepositories.InMemItemsRepository.UpdateItemAsync` | Catalog.Api/Repositories/InMemItemsRepository.cs:33-38 | with a matching id, overwrites exactly that slot and completes; with none, throws ArgumentOutOfRangeException and leaves the list unchanged; keeps the invariant |
| `ApiRepositories.InMemItemsRepository.DeleteItemAsync` | Catalog.Api/Repositories/InMemItemsRepository.cs:40-45 | with a matching id, removes exactly that slot, keeping the others in order, and completes; with none, throws ArgumentOutOfRangeException and leaves the list unchanged; keeps the invariant |
| `Repositories.InMemItemsRepository.constructor` | Repositories/InMemItemsRepository.cs:9-14 | the synchronous store starts with the same three seed records, in order |
| `Repositories.InMemItemsRepository.GetItems` | Repositories/InMemItemsRepository.cs:16-19 | returns the contents as they are, and changes nothing |
| `Repositories.InMemItemsRepository.GetItem` | Repositories/InMemItemsRepository.cs:21-24 | returns the single element with the id, null when there is none, or throws when the id is shared; changes nothing |
| `Repositories.InMemItemsRepository.CreateItem` | Repositories/InMemItemsRepository.cs:26-29 | appends exactly one element at the end and leaves the earlier ones unchanged |
| `Repositories.InMemItemsRepository.UpdateItem` | Repositories/InMemItemsRepository.cs:31-35 | replaces only the slot holding the id and keeps the length; throws and changes nothing when no slot matches |
| `Repositories.InMemItemsRepository.DeleteItem` | Repositories/InMemItemsRepository.cs:37-41 | removes only the slot holding the id and keeps the others in order; throws and changes nothing when no slot matches |
| `Controllers.SelectAsDto` | Controllers/ItemsController.cs:30-39 | one view per item, in the same order; each view carries its item's id, name, price and creation date unchanged |
| `Controllers.ItemsController.constructor` | Controllers/ItemsController.cs:18-22 | the controller holds the store it is given |
| `Controllers.ItemsController.GetItemsAsync` | Controllers/ItemsController.cs:26-43 | returns the views of the stored items, in store order, and changes nothing |
| `Controllers.ItemsController.GetItemAsync` | Controllers/ItemsController.cs:47-56 | returns NotFound exactly when no stored item has the id; otherwise returns the view of that item, or Faulted when the store throws on a shared id; changes nothing |
| `Controllers.ItemsController.CreateItemAsync` | Controllers/ItemsController.cs:60-76 | stores exactly one new item built from the body's name and price, the supplied new id and the supplied time; returns Created for the get action with that id and the view of the stored item; with a fresh id, ids stay unique |
| `Controllers.ItemsController.UpdateItemAsync` | Controllers/ItemsController.cs:80-99 | on an absent id, returns NotFound and leaves the store unchanged; on a present id, stores the existing record with the body's name and price, keeping its id, creation date and position, and returns NoContent; keeps ids unique |
| `Controllers.ItemsController.DeleteItemAsync` | Controllers/ItemsController.cs:102-115 | on an absent id, returns NotFound and removes nothing; on a present id, removes that item, keeps the others in order, and returns NoContent; keeps ids unique |
| `Controllers.UpdateThenGet` | Controllers/ItemsController.cs:82-98 | after an update of a stored id, a get of that id returns the new name and price with the original id and creation date |
| `Controllers.PotionScenario` | Controllers/ItemsController.cs:47-115 | on a fresh store: creating "Potion" at 9 returns its view; a get returns the same view; an update to "Elixir" at 12 returns NoContent; a get returns the new name and price with the same id and date; a delete returns NoContent; a final get returns NotFound |

## Left out

- The `IItemsRepository` interface and the MongoDB-backed repository that `Program.cs` registers are not part of this model. The repository is not shown, and interfaces are not modelled. The controller holds the asynchronous in-memory store directly. That is the store whose method names (`GetItemAsync`, ...) the controller calls.
- `Program.cs` is left out: dependency injection, Swagger, HTTPS redirection, authorization and the MongoDB client are platform plumbing.
- `Task`, `await`, `Task.FromResult` and `Task.CompletedTask` are left out. Each asynchronous operation is a sequential method.
- The logging call at Controllers/ItemsController.cs:41 is left out. It is an output side effect with nothing to verify.
- `Guid.NewGuid()` and `DateTimeOffset.UtcNow` are parameters: each generated seed id and date, the created item's id and its timestamp. The model does not prove that generated ids collide with probability zero.
- ItemsController.CreateItemAsync has no freshness precondition on the new id, because the source appends without checking. Unique ids are promised only when the supplied id is fresh.
- ASP.NET result types, routing attributes and model binding are left out. This includes the 400 outcome for a body that does not bind. The outcomes are the `ActionResult` datatype, and the `CreatedAtAction` route values become the action name and the id.
- The `AsDto` extension is not shown in the source; it is modelled as the field-by-field copy shown in the commented code at Controllers/ItemsController.cs:30-36.
- Item arguments and list elements are never null here. The C# store accepts a null `Item`: `Add` stores it, and every later `Where` or `FindIndex` predicate that reaches it throws NullReferenceException. An `UpdateItemAsync(null)` does the same. None of these exceptions is modelled.
- Route resolution of `CreatedAtAction` is not modelled. The model returns the action name "GetItemAsync" as written, but ASP.NET Core may drop the "Async" suffix from action names, and then no route would match that name.
- `decimal` prices are integers, so fractional prices and decimal scale are not modelled. `string` names cannot be null here.
- ApiRepositories.InMemItemsRepository.GetItemsAsync returns a snapshot of the contents, not the live `List<Item>` reference. Later changes seen through that alias are not modelled. The same holds for Repositories.InMemItemsRepository.GetItems.
- The check-then-act race between concurrent requests, and the unsynchronised shared list, are left out. Operations are sequential.
- The unit tests (Moq, xUnit, FluentAssertions) are left out. Their assertions appear as the contracts of the controller methods and of `PotionScenario`.
