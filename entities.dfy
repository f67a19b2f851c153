/** The values the catalog passes around: the stored item record, its wire views,
    and the two exceptions the in-memory store can raise. */
module Entities {

  /** System.Guid: an opaque 128-bit identifier. */
  type Guid = bv128

  /** DateTimeOffset, as the UTC instant in ticks (.NET compares offsets by that instant). */
  type Timestamp = int

  /** The stored record (Entities/Item.cs); all four properties are init-only. */
  datatype Item = Item(id: Guid, name: string, price: int, createdDate: Timestamp)

  /** The externally visible projection of an item (Catalog.Api/Dtos/ItemDto.cs). */
  datatype ItemDto = ItemDto(id: Guid, name: string, price: int, createdDate: Timestamp)

  /** Body of a create request: the system assigns the id and the creation date. */
  datatype CreateItemDto = CreateItemDto(name: string, price: int)

  /** Body of an update request: the id comes from the route, the date is kept. */
  datatype UpdateItemDto = UpdateItemDto(name: string, price: int)

  /** A reference that may be null. */
  datatype Option<T> = None | Some(value: T)

  /** The exceptions List<T> and LINQ raise on the paths the store exercises. */
  datatype Exception =
    | InvalidOperation    // SingleOrDefault over more than one match
    | ArgumentOutOfRange  // list indexer or RemoveAt given index -1

  /** A call that either returns a value or lets an exception escape. */
  datatype Outcome<T> = Returned(value: T) | Threw(exception: Exception)
}
