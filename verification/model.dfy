/** The entities of the item-sharing service and the transfer objects the
    services hand back. A field that Java may leave `null` and that the
    services read as such is an `Option`. */
module Model {
  import opened Common

  /** A registered user. The services build users from patch DTOs whose
      name or e-mail may be missing, so both are optional here. */
  datatype User = User(id: Option<Id>, name: Option<string>, email: Option<string>)

  /** A posted need for an item. */
  datatype ItemRequest = ItemRequest(
    id: Option<Id>,
    description: string,
    requester: User,
    created: Time)

  /** An item offered for rent by its owner, possibly answering a request. */
  datatype Item = Item(
    id: Option<Id>,
    name: string,
    description: string,
    available: bool,
    owner: User,
    request: Option<ItemRequest>)

  /** The lifecycle of a booking. */
  datatype BookingStatus = WAITING | APPROVED | REJECTED

  /** A request by `booker` to rent `item` from `start` to `end`. Nothing
      orders `start` before `end`. */
  datatype Booking = Booking(
    id: Option<Id>,
    start: Time,
    end: Time,
    item: Item,
    booker: User,
    status: BookingStatus)

  /** A review left by `author` on `item`. */
  datatype Comment = Comment(
    id: Option<Id>,
    text: string,
    created: Option<Time>,
    item: Item,
    author: User)

  /** The filter a booking listing is asked for. */
  datatype BookingState = ALL | CURRENT | PAST | FUTURE | WAITING | REJECTED

  datatype UserDto = UserDto(id: Option<Id>, name: Option<string>, email: Option<string>)

  /** The item payload of create and update requests, and the item part of
      a booking response. Every field of an update may be missing. */
  datatype ItemDto = ItemDto(
    id: Option<Id>,
    name: Option<string>,
    description: Option<string>,
    available: Option<bool>,
    requestId: Option<Id>)

  /** The short form of a booking shown on an item: its id and its booker. */
  datatype BookingShortDto = BookingShortDto(id: Option<Id>, bookerId: Option<Id>)

  datatype CommentDto = CommentDto(
    id: Option<Id>,
    text: string,
    authorName: Option<string>,
    created: Option<Time>)

  /** An item as shown to a viewer, with the owner-only booking summary and
      the comments; `None` stands for a field left unset. */
  datatype ItemOutputDto = ItemOutputDto(
    id: Option<Id>,
    name: string,
    description: string,
    available: bool,
    lastBooking: Option<BookingShortDto>,
    nextBooking: Option<BookingShortDto>,
    requestId: Option<Id>,
    comments: Option<seq<CommentDto>>)

  /** The body of a booking request. */
  datatype BookingDto = BookingDto(id: Option<Id>, itemId: Id, start: Time, end: Time)

  /** A booking as returned to its participants. */
  datatype BookingWithStatusDto = BookingWithStatusDto(
    id: Option<Id>,
    start: Time,
    end: Time,
    status: BookingStatus,
    booker: UserDto,
    item: ItemDto)

  datatype ItemRequestDto = ItemRequestDto(
    id: Option<Id>,
    description: string,
    created: Option<Time>,
    items: seq<ItemOutputDto>)
}
