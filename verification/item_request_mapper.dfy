/** Conversions between an item request and its transfer object. */
module ItemRequestMapper {
  import opened Common
  import opened Model

  /** The request as shown, together with exactly the items given. */
  function ToDto(r: ItemRequest, items: seq<ItemOutputDto>): (d: ItemRequestDto)
    ensures d.id == r.id && d.description == r.description && d.created == Some(r.created)
    ensures d.items == items
  {
    ItemRequestDto(r.id, r.description, Some(r.created), items)
  }

  /** A new request (the source's `toItem`): the payload's description and
      timestamp, the given requester, and no id even when the payload has
      one. */
  function ToRequest(d: ItemRequestDto, requester: User): (r: ItemRequest)
    requires d.created.Some?
    ensures r.id.None?
    ensures r.description == d.description && Some(r.created) == d.created
    ensures r.requester == requester
  {
    ItemRequest(None, d.description, requester, d.created.value)
  }

  /** A payload survives the trip through a request except for its id,
      which is dropped, and its items, which are the ones attached. */
  lemma RequestRoundTrip(d: ItemRequestDto, requester: User, items: seq<ItemOutputDto>)
    requires d.created.Some?
    ensures ToDto(ToRequest(d, requester), items) == d.(id := None, items := items)
  {
  }
}
