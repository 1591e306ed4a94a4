/** Conversions between an item and its transfer objects. */
module ItemMapper {
  import opened Common
  import opened Model

  /** The id of the request an item answers; absent when there is none. */
  function RequestIdOf(item: Item): (r: Option<Id>)
    ensures item.request.None? ==> r.None?
    ensures item.request.Some? ==> r == item.request.value.id
  {
    if item.request.None? then None else item.request.value.id
  }

  /** The item as a payload: every field present except possibly `id` and
      `requestId`. */
  function ToInputDto(item: Item): (d: ItemDto)
    ensures d.id == item.id
    ensures d.name == Some(item.name) && d.description == Some(item.description)
    ensures d.available == Some(item.available)
    ensures d.requestId == RequestIdOf(item)
  {
    ItemDto(item.id, Some(item.name), Some(item.description), Some(item.available), RequestIdOf(item))
  }

  /** The item as shown, with booking summary and comments left unset. */
  function ToOutputDto(item: Item): (d: ItemOutputDto)
    ensures d.id == item.id && d.name == item.name && d.description == item.description
    ensures d.available == item.available && d.requestId == RequestIdOf(item)
    ensures d.lastBooking.None? && d.nextBooking.None? && d.comments.None?
  {
    ItemOutputDto(item.id, item.name, item.description, item.available, None, None, RequestIdOf(item), None)
  }

  /** A new item with the payload's fields, the given owner and no request. */
  function ToItem(d: ItemDto, owner: User): (item: Item)
    requires d.name.Some? && d.description.Some? && d.available.Some?
    ensures item.id == d.id && Some(item.name) == d.name
    ensures Some(item.description) == d.description && Some(item.available) == d.available
    ensures item.owner == owner && item.request.None?
  {
    Item(d.id, d.name.value, d.description.value, d.available.value, owner, None)
  }

  /** Turning an item into a payload and back keeps everything but the owner,
      which is the one supplied, and the request, which is dropped. */
  lemma ItemRoundTrip(item: Item, owner: User)
    ensures ToItem(ToInputDto(item), owner) == item.(owner := owner, request := None)
  {
  }

  /** Turning a complete payload into an item and back keeps every field but
      `requestId`, which the new item does not carry. */
  lemma InputDtoRoundTrip(d: ItemDto, owner: User)
    requires d.name.Some? && d.description.Some? && d.available.Some?
    ensures ToInputDto(ToItem(d, owner)) == d.(requestId := None)
  {
  }
}
