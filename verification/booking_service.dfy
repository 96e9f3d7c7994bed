/**
 * The booking lifecycle (`booking.service.BookingServiceImpl`): creating a
 * booking, the owner's decision on it, the participants' view of it, and the
 * renter's and owner's lists filtered by a state token.
 *
 * Every operation takes the database and returns the error the Java method
 * would throw, or its reply (with the database after the write, for the two
 * writing operations). The clock reading `LocalDateTime.now()` is the
 * parameter `now`; the id the database generates for a new row is the
 * parameter `freshId`.
 */
module BookingService {
  import opened Wrappers
  import opened Domain
  import opened BookingMapper
  import Store
  import opened BookingRepository

  /** `booking.enums.State`: the filter token of the list operations. */
  datatype State = All | Current | Past | Future | Waiting | Rejected

  /**
   * What a state token selects, as a condition on one booking at the instant
   * `now`. This is the reference meaning the list operations are proved
   * against.
   */
  predicate InState(s: State, b: Booking, now: int) {
    && (s.Past? ==> b.end < now)
    && (s.Future? ==> b.start > now)
    && (s.Current? ==> b.start < now && b.end > now)
    && (s.Waiting? ==> b.status == Some(Status.Waiting))
    && (s.Rejected? ==> b.status == Some(Status.Rejected))
  }

  /** The states whose lists are ordered by start, latest first. */
  predicate ByStart(s: State) {
    s != State.Waiting && s != State.Rejected
  }

  // ------------------------------------------------------------- replies

  lemma StoredResolves(db: Db, b: Booking)
    requires Consistent(db) && b in db.bookings.Values
    ensures b.id in db.bookings && db.bookings[b.id] == b
    ensures b.itemId in db.items && b.bookerId in db.users
    ensures Resolves(b, db.items[b.itemId], db.users[b.bookerId])
    ensures b.status.Some?
  {
    Store.ValueHasKey(db.bookings, b);
    var k :| k in db.bookings && db.bookings[k] == b;
    assert BookingRowOk(db, k);
  }

  /** The reply for a stored booking, with its item and booker resolved. */
  function Reply(db: Db, b: Booking): (d: BookingDto)
    requires Consistent(db) && b in db.bookings.Values
    ensures d.id == b.id && d.start == b.start && d.end == b.end && d.status == b.status
    ensures d.bookerId == b.bookerId && d.itemId == Some(b.itemId)
  {
    StoredResolves(db, b);
    ToBookingDto(b, db.items[b.itemId], db.users[b.bookerId])
  }

  function Replies(db: Db, bs: seq<Booking>): (ds: seq<BookingDto>)
    requires Consistent(db) && forall b :: b in bs ==> b in db.bookings.Values
    ensures |ds| == |bs|
    ensures forall i :: 0 <= i < |bs| ==> ds[i] == Reply(db, bs[i])
  {
    seq(|bs|, i requires 0 <= i < |bs| => Reply(db, bs[i]))
  }

  function Ids(ds: seq<BookingDto>): (r: seq<int>)
    ensures |r| == |ds|
    ensures forall i :: 0 <= i < |ds| ==> r[i] == ds[i].id
  {
    seq(|ds|, i requires 0 <= i < |ds| => ds[i].id)
  }

  /** Each reply is the reply for the stored booking whose id it carries. */
  ghost predicate RepliesAreStored(db: Db, ds: seq<BookingDto>)
    requires Consistent(db)
  {
    forall i :: 0 <= i < |ds| ==> ds[i].id in db.bookings && ds[i] == Reply(db, db.bookings[ds[i].id])
  }

  ghost predicate RepliesByStartDesc(ds: seq<BookingDto>) {
    forall i, j :: 0 <= i < j < |ds| ==> ds[i].start >= ds[j].start
  }

  /**
   * The replies for a selection of stored bookings name exactly the selected
   * rows, each once, in the selection's order.
   */
  lemma RepliesNameSelection(db: Db, bs: seq<Booking>, sel: Booking -> bool)
    requires Consistent(db)
    requires forall b :: b in bs <==> b in db.bookings.Values && sel(b)
    requires Store.Distinct(bs)
    ensures forall k :: k in db.bookings && sel(db.bookings[k]) <==> k in Ids(Replies(db, bs))
    ensures Store.Distinct(Ids(Replies(db, bs)))
    ensures RepliesAreStored(db, Replies(db, bs))
    ensures SortedByStartDesc(bs) ==> RepliesByStartDesc(Replies(db, bs))
  {
    var ds := Replies(db, bs);
    var ids := Ids(ds);
    forall i | 0 <= i < |ds|
      ensures ds[i].id in db.bookings && ds[i] == Reply(db, db.bookings[ds[i].id])
    {
      StoredResolves(db, bs[i]);
    }
    forall k
      ensures k in db.bookings && sel(db.bookings[k]) <==> k in ids
    {
      if k in db.bookings && sel(db.bookings[k]) {
        var b := db.bookings[k];
        assert BookingRowOk(db, k);
        var i :| 0 <= i < |bs| && bs[i] == b;
        assert ids[i] == k;
      }
      if k in ids {
        var i :| 0 <= i < |ids| && ids[i] == k;
        StoredResolves(db, bs[i]);
      }
    }
    forall i, j | 0 <= i < j < |ids|
      ensures ids[i] != ids[j]
    {
      StoredResolves(db, bs[i]);
      StoredResolves(db, bs[j]);
    }
  }

  // ------------------------------------------------------------- create

  /** The item a booking request names, when it names a stored one. */
  predicate ItemFound(db: Db, dto: BookingDto) {
    dto.itemId.Some? && dto.itemId.value in db.items
  }

  /**
   * `saveBooking`: the checks run in order, and the first failing one decides
   * the error: the renter must exist, the item must exist, the end must be
   * strictly after the start, the renter must not own the item (reported as
   * a missing item), and the item must be available. A null item id is
   * refused by the repository before any lookup.
   */
  function SaveBooking(db: Db, userId: int, dto: BookingDto, freshId: int): (r: Result<Commit<BookingDto>>)
    requires Consistent(db) && freshId !in db.bookings
    ensures userId !in db.users ==> r == Err(UserNotFound)
    ensures userId in db.users && dto.itemId.None? ==> r == Err(IllegalArgument)
    ensures userId in db.users && dto.itemId.Some? && dto.itemId.value !in db.items ==> r == Err(ItemNotFound)
    ensures userId in db.users && ItemFound(db, dto) && dto.end <= dto.start ==> r == Err(InCorrectDate)
    ensures (userId in db.users && ItemFound(db, dto) && dto.end > dto.start
             && db.items[dto.itemId.value].ownerId == userId) ==> r == Err(ItemNotFound)
    ensures (userId in db.users && ItemFound(db, dto) && dto.end > dto.start
             && db.items[dto.itemId.value].ownerId != userId
             && !db.items[dto.itemId.value].available) ==> r == Err(ItemUnavailable)
    ensures r.Ok? <==> userId in db.users && ItemFound(db, dto) && dto.end > dto.start
                       && db.items[dto.itemId.value].ownerId != userId && db.items[dto.itemId.value].available
    ensures r.Ok? ==> r.value.db == db.(bookings := db.bookings[freshId :=
                        Booking(freshId, dto.start, dto.end, dto.itemId.value, userId, Some(Status.Waiting))])
    ensures r.Ok? ==> r.value.reply.id == freshId && r.value.reply.status == Some(Status.Waiting)
                      && r.value.reply.bookerId == userId && r.value.reply.itemId == dto.itemId
    ensures r.Ok? ==> r.value.reply == ToBookingDto(r.value.db.bookings[freshId],
                                                    db.items[dto.itemId.value], db.users[userId])
  {
    if userId !in db.users then Err(UserNotFound)
    else if dto.itemId.None? then Err(IllegalArgument)
    else if dto.itemId.value !in db.items then Err(ItemNotFound)
    else
      var user := db.users[userId];
      var item := db.items[dto.itemId.value];
      StoredItemId(db, dto.itemId.value);
      var booking := ToBooking(user, item, dto);
      if !(booking.end > booking.start) then Err(InCorrectDate)
      else if item.ownerId == user.id then Err(ItemNotFound)
      else if !item.available then Err(ItemUnavailable)
      else
        var defaulted := if booking.status.None? then booking.(status := Some(Status.Waiting)) else booking;
        var saved := defaulted.(id := freshId);
        Ok(Commit(db.(bookings := db.bookings[freshId := saved]), ToBookingDto(saved, item, user)))
  }

  // ------------------------------------------------------------- decide

  /** The status a decision sets. */
  function Decision(approved: bool): Status {
    if approved then Status.Approved else Status.Rejected
  }

  /**
   * `confirmOrCancelBooking`: the caller must exist, the booking must exist,
   * the booking must not already be APPROVED (else UnsupportedState, even
   * for a caller who is not the owner), and the caller must own the booked
   * item (else a missing booking). Only APPROVED is guarded: a WAITING or a
   * REJECTED booking can be decided again.
   */
  function ConfirmOrCancelBooking(db: Db, userId: int, bookingId: int, approved: bool): (r: Result<Commit<BookingDto>>)
    requires Consistent(db)
    ensures userId !in db.users ==> r == Err(UserNotFound)
    ensures userId in db.users && bookingId !in db.bookings ==> r == Err(BookingNotFound)
    ensures (userId in db.users && bookingId in db.bookings
             && db.bookings[bookingId].status == Some(Status.Approved)) ==> r == Err(UnsupportedState)
    ensures (userId in db.users && bookingId in db.bookings
             && db.bookings[bookingId].status != Some(Status.Approved)
             && db.items[db.bookings[bookingId].itemId].ownerId != userId) ==> r == Err(BookingNotFound)
    ensures r.Ok? <==> userId in db.users && bookingId in db.bookings
                       && db.bookings[bookingId].status != Some(Status.Approved)
                       && db.items[db.bookings[bookingId].itemId].ownerId == userId
    ensures r.Ok? ==> r.value.db == db.(bookings := db.bookings[bookingId :=
                        db.bookings[bookingId].(status := Some(Decision(approved)))])
    ensures r.Ok? ==> r.value.reply.id == bookingId && r.value.reply.status == Some(Decision(approved))
    ensures r.Ok? ==> BookingRowOk(db, bookingId)
                      && r.value.reply == ToBookingDto(r.value.db.bookings[bookingId],
                                                       db.items[db.bookings[bookingId].itemId],
                                                       db.users[db.bookings[bookingId].bookerId])
  {
    if userId !in db.users then Err(UserNotFound)
    else if bookingId !in db.bookings then Err(BookingNotFound)
    else
      var booking := db.bookings[bookingId];
      assert BookingRowOk(db, bookingId);
      if booking.status == Some(Status.Approved) then Err(UnsupportedState)
      else if db.items[booking.itemId].ownerId != userId then Err(BookingNotFound)
      else
        var decided := booking.(status := Some(if approved then Status.Approved else Status.Rejected));
        Ok(Commit(db.(bookings := db.bookings[bookingId := decided]),
                  ToBookingDto(decided, db.items[booking.itemId], db.users[booking.bookerId])))
  }

  // -------------------------------------------------------- single view

  /** The caller takes part in the booking: owns the item or booked it. */
  ghost predicate Participant(db: Db, userId: int, b: Booking)
    requires b.itemId in db.items
  {
    db.items[b.itemId].ownerId == userId || b.bookerId == userId
  }

  /**
   * `getBookingForOwnerOrBooker`: the caller must exist, the booking must
   * exist, the caller must be the item's owner or the booker (else a missing
   * booking), and the item must be available now (else ItemUnavailable).
   */
  function GetBookingForOwnerOrBooker(db: Db, userId: int, bookingId: int): (r: Result<BookingDto>)
    requires Consistent(db)
    ensures userId !in db.users ==> r == Err(UserNotFound)
    ensures userId in db.users && bookingId !in db.bookings ==> r == Err(BookingNotFound)
    ensures (userId in db.users && bookingId in db.bookings
             && !Participant(db, userId, db.bookings[bookingId])) ==> r == Err(BookingNotFound)
    ensures (userId in db.users && bookingId in db.bookings && Participant(db, userId, db.bookings[bookingId])
             && !db.items[db.bookings[bookingId].itemId].available) ==> r == Err(ItemUnavailable)
    ensures r.Ok? <==> userId in db.users && bookingId in db.bookings
                       && Participant(db, userId, db.bookings[bookingId])
                       && db.items[db.bookings[bookingId].itemId].available
    ensures r.Ok? ==> r.value == Reply(db, db.bookings[bookingId])
  {
    if userId !in db.users then Err(UserNotFound)
    else if bookingId !in db.bookings then Err(BookingNotFound)
    else
      var booking := db.bookings[bookingId];
      assert BookingRowOk(db, bookingId);
      var item := db.items[booking.itemId];
      if item.ownerId != userId && booking.bookerId != userId then Err(BookingNotFound)
      else if !item.available then Err(ItemUnavailable)
      else Ok(ToBookingDto(booking, item, db.users[booking.bookerId]))
  }

  // --------------------------------------------------------------- lists

  /**
   * The repository condition each case of the `switch (state)` in
   * `getBooking` and `getOwnerBooking` queries with; `CURRENT` passes the
   * same instant as both bounds.
   */
  function CondOf(s: State, now: int): (c: Cond)
    ensures forall b :: Holds(c, b) <==> InState(s, b, now)
  {
    match s
    case All => Any
    case Past => EndIsBefore(now)
    case Future => StartIsAfter(now)
    case Current => StartIsBeforeAndEndIsAfter(now, now)
    case Waiting => StatusIs(Status.Waiting)
    case Rejected => StatusIs(Status.Rejected)
  }

  /** The temporal cases pass `Sort.by(DESC, "start")`; the status cases no sort. */
  function SortOf(s: State): Sort {
    if ByStart(s) then StartDesc else Unsorted
  }

  /**
   * The renter's `switch (state)`: each case is the named repository query,
   * and the list holds exactly the renter's bookings in that state.
   */
  function RenterQuery(db: Db, userId: int, s: State, now: int): (r: seq<Booking>)
    ensures forall b :: b in r <==> b in db.bookings.Values && b.bookerId == userId && InState(s, b, now)
    ensures ByStart(s) ==> SortedByStartDesc(r)
    ensures Consistent(db) ==> Store.Distinct(r)
    ensures s.All? ==> r == FindAllByBookerIdOrderByStartDesc(db, userId)
    ensures s.Past? ==> r == FindAllByBookerIdAndEndIsBefore(db, userId, now, StartDesc)
    ensures s.Future? ==> r == FindAllByBookerIdAndStartIsAfter(db, userId, now, StartDesc)
    ensures s.Current? ==> r == FindAllByBookerIdAndStartIsBeforeAndEndIsAfter(db, userId, now, now, StartDesc)
    ensures s.Waiting? ==> r == FindAllByBookerIdAndStatus(db, userId, Status.Waiting)
    ensures s.Rejected? ==> r == FindAllByBookerIdAndStatus(db, userId, Status.Rejected)
  {
    FindAll(db, Booker(userId), CondOf(s, now), SortOf(s))
  }

  /** The owner's `switch (state)`, over the bookings of the caller's items. */
  function OwnerQuery(db: Db, userId: int, s: State, now: int): (r: seq<Booking>)
    ensures forall b :: b in r <==> b in db.bookings.Values && ItemOwnedBy(db, b, userId) && InState(s, b, now)
    ensures ByStart(s) ==> SortedByStartDesc(r)
    ensures Consistent(db) ==> Store.Distinct(r)
    ensures s.All? ==> r == FindAllByItemOwnerIdOrderByStartDesc(db, userId)
    ensures s.Past? ==> r == FindAllByItemOwnerIdAndEndIsBefore(db, userId, now, StartDesc)
    ensures s.Future? ==> r == FindAllByItemOwnerIdAndStartIsAfter(db, userId, now, StartDesc)
    ensures s.Current? ==> r == FindAllByItemOwnerIdAndStartIsBeforeAndEndIsAfter(db, userId, now, now, StartDesc)
    ensures s.Waiting? ==> r == FindAllByItemOwnerIdAndStatus(db, userId, Status.Waiting)
    ensures s.Rejected? ==> r == FindAllByItemOwnerIdAndStatus(db, userId, Status.Rejected)
  {
    FindAll(db, ItemOwner(userId), CondOf(s, now), SortOf(s))
  }

  /**
   * `getBooking`: the renter's bookings in the given state. The token is
   * parsed before the renter is looked up, so an unknown token fails even for
   * a missing renter. The reply names every matching booking exactly once,
   * latest start first except for the two status filters, and is empty when
   * nothing matches.
   */
  function GetBooking(db: Db, userId: int, state: Option<State>, now: int): (r: Result<seq<BookingDto>>)
    requires Consistent(db)
    ensures state.None? ==> r == Err(IllegalArgument)
    ensures state.Some? && userId !in db.users ==> r == Err(UserNotFound)
    ensures r.Ok? <==> state.Some? && userId in db.users
    ensures r.Ok? ==> forall k :: (k in db.bookings && db.bookings[k].bookerId == userId
                                   && InState(state.value, db.bookings[k], now)) <==> k in Ids(r.value)
    ensures r.Ok? ==> Store.Distinct(Ids(r.value))
    ensures r.Ok? ==> RepliesAreStored(db, r.value)
    ensures r.Ok? && ByStart(state.value) ==> RepliesByStartDesc(r.value)
  {
    if state.None? then Err(IllegalArgument)
    else if userId !in db.users then Err(UserNotFound)
    else
      var bs := RenterQuery(db, userId, state.value, now);
      RepliesNameSelection(db, bs, (b: Booking) => b.bookerId == userId && InState(state.value, b, now));
      Ok(Replies(db, bs))
  }

  /** `getOwnerBooking`: the same, over the bookings of the caller's items. */
  function GetOwnerBooking(db: Db, userId: int, state: Option<State>, now: int): (r: Result<seq<BookingDto>>)
    requires Consistent(db)
    ensures state.None? ==> r == Err(IllegalArgument)
    ensures state.Some? && userId !in db.users ==> r == Err(UserNotFound)
    ensures r.Ok? <==> state.Some? && userId in db.users
    ensures r.Ok? ==> forall k :: (k in db.bookings && ItemOwnedBy(db, db.bookings[k], userId)
                                   && InState(state.value, db.bookings[k], now)) <==> k in Ids(r.value)
    ensures r.Ok? ==> Store.Distinct(Ids(r.value))
    ensures r.Ok? ==> RepliesAreStored(db, r.value)
    ensures r.Ok? && ByStart(state.value) ==> RepliesByStartDesc(r.value)
  {
    if state.None? then Err(IllegalArgument)
    else if userId !in db.users then Err(UserNotFound)
    else
      var bs := OwnerQuery(db, userId, state.value, now);
      RepliesNameSelection(db, bs, (b: Booking) => ItemOwnedBy(db, b, userId) && InState(state.value, b, now));
      Ok(Replies(db, bs))
  }
}
