/**
 * Projections between bookings and their transfer objects
 * (`booking.mapper.BookingMapper`).
 */
module BookingMapper {
  import opened Wrappers
  import opened Domain

  /** `item` and `booker` are the rows the booking refers to. */
  ghost predicate Resolves(b: Booking, item: Item, booker: User) {
    item.id == Some(b.itemId) && booker.id == b.bookerId
  }

  /**
   * The reply for a booking. Both booker ids are the booking's booker, both
   * item ids the booking's item; the item's name travels along.
   */
  function ToBookingDto(b: Booking, item: Item, booker: User): (d: BookingDto)
    requires Resolves(b, item, booker)
    ensures d.id == b.id && d.start == b.start && d.end == b.end && d.status == b.status
    ensures d.bookerId == b.bookerId && d.booker == Some(BookingDtoUser(b.bookerId))
    ensures d.itemId == Some(b.itemId) && d.item == Some(BookingDtoItem(Some(b.itemId), item.name))
  {
    BookingDto(
      id := b.id,
      start := b.start,
      end := b.end,
      bookerId := booker.id,
      itemId := item.id,
      item := Some(BookingDtoItem(item.id, item.name)),
      booker := Some(BookingDtoUser(booker.id)),
      status := b.status)
  }

  /** The short form shown on an item: which booking, and whose. */
  function ToBookingDtoShort(b: Booking): (d: BookingDtoShort)
    ensures d.id == b.id && d.bookerId == b.bookerId
  {
    BookingDtoShort(b.id, b.bookerId)
  }

  /**
   * A new booking of `item` by `user`. Only the period is taken from the
   * request; its id keeps the primitive default 0 and its status stays unset,
   * whatever the request carries.
   */
  function ToBooking(user: User, item: Item, dto: BookingDto): (b: Booking)
    requires item.id.Some?
    ensures b.start == dto.start && b.end == dto.end
    ensures Resolves(b, item, user)
    ensures b.id == 0 && b.status == None
  {
    Booking(0, dto.start, dto.end, item.id.value, user.id, None)
  }

  /**
   * Rebuilding a booking from its own reply keeps its period, item and
   * booker, and loses exactly its id and its status.
   */
  lemma ReplyRebuildsBooking(b: Booking, item: Item, booker: User)
    requires Resolves(b, item, booker)
    ensures ToBooking(booker, item, ToBookingDto(b, item, booker)) == b.(id := 0, status := None)
  {
  }
}
