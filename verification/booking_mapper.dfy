/** Conversions between a booking and its transfer objects. */
module BookingMapper {
  import opened Model
  import UserMapper
  import ItemMapper

  /** A booking of `item` by `booker` in `status`, with the payload's id and
      time window. */
  function ToBooking(d: BookingDto, booker: User, item: Item, status: BookingStatus): (b: Booking)
    ensures b.id == d.id && b.start == d.start && b.end == d.end
    ensures b.item == item && b.booker == booker && b.status == status
  {
    Booking(d.id, d.start, d.end, item, booker, status)
  }

  /** The booking as returned: the booker as a user DTO and the item as an
      item payload. */
  function ToBookingDto(b: Booking): (d: BookingWithStatusDto)
    ensures d.id == b.id && d.start == b.start && d.end == b.end && d.status == b.status
    ensures d.booker.id == b.booker.id && d.booker.name == b.booker.name
    ensures d.booker.email == b.booker.email
    ensures d.item == ItemMapper.ToInputDto(b.item)
  {
    BookingWithStatusDto(b.id, b.start, b.end, b.status,
                         UserDto(b.booker.id, b.booker.name, b.booker.email),
                         ItemMapper.ToInputDto(b.item))
  }

  /** The booker part of the response is exactly the user mapper's DTO. */
  lemma BookerIsUserDto(b: Booking)
    ensures ToBookingDto(b).booker == UserMapper.ToDto(b.booker)
  {
  }

  /** A booking payload survives the trip through a booking: id and window
      come back unchanged and the status is the one supplied. */
  lemma BookingRoundTrip(d: BookingDto, booker: User, item: Item, status: BookingStatus)
    ensures var r := ToBookingDto(ToBooking(d, booker, item, status));
            r.id == d.id && r.start == d.start && r.end == d.end && r.status == status
            && r.booker == UserMapper.ToDto(booker) && r.item == ItemMapper.ToInputDto(item)
  {
  }
}
