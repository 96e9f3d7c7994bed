/**
 * Properties of the booking lifecycle that span several calls: the writes
 * keep the database consistent, a new booking waits for its owner and shows
 * up in both parties' lists, an approval is final while a rejection is not,
 * and only the two parties of a booking can look at it.
 */
module BookingLifecycle {
  import opened Wrappers
  import opened Domain
  import opened BookingService
  import BookingRepository

  // ------------------------------------------------------- consistency

  /** Creating a booking keeps every row well-formed. */
  lemma SaveBookingKeepsConsistent(db: Db, userId: int, dto: BookingDto, freshId: int)
    requires Consistent(db) && freshId !in db.bookings
    requires SaveBooking(db, userId, dto, freshId).Ok?
    ensures Consistent(SaveBooking(db, userId, dto, freshId).value.db)
  {
    var db' := SaveBooking(db, userId, dto, freshId).value.db;
    forall k | k in db'.bookings
      ensures BookingRowOk(db', k)
    {
      if k != freshId {
        assert BookingRowOk(db, k);
      }
    }
    forall k | k in db'.comments
      ensures CommentRowOk(db', k)
    {
      assert CommentRowOk(db, k);
    }
  }

  /** Deciding on a booking keeps every row well-formed. */
  lemma DecideKeepsConsistent(db: Db, userId: int, bookingId: int, approved: bool)
    requires Consistent(db)
    requires ConfirmOrCancelBooking(db, userId, bookingId, approved).Ok?
    ensures Consistent(ConfirmOrCancelBooking(db, userId, bookingId, approved).value.db)
  {
    var db' := ConfirmOrCancelBooking(db, userId, bookingId, approved).value.db;
    forall k | k in db'.bookings
      ensures BookingRowOk(db', k)
    {
      assert BookingRowOk(db, k);
    }
    forall k | k in db'.comments
      ensures CommentRowOk(db', k)
    {
      assert CommentRowOk(db, k);
    }
  }

  // -------------------------------------------------------------- lists

  /** A stored booking is in an owner's list exactly when it is theirs and in the state. */
  lemma OwnerListNames(db: Db, ownerId: int, state: State, now: int, k: int)
    requires Consistent(db) && ownerId in db.users && k in db.bookings
    ensures GetOwnerBooking(db, ownerId, Some(state), now).Ok?
    ensures k in Ids(GetOwnerBooking(db, ownerId, Some(state), now).value)
            <==> BookingRepository.ItemOwnedBy(db, db.bookings[k], ownerId) && InState(state, db.bookings[k], now)
  {
  }

  /** A stored booking is in a renter's list exactly when they booked it and it is in the state. */
  lemma RenterListNames(db: Db, userId: int, state: State, now: int, k: int)
    requires Consistent(db) && userId in db.users && k in db.bookings
    ensures GetBooking(db, userId, Some(state), now).Ok?
    ensures k in Ids(GetBooking(db, userId, Some(state), now).value)
            <==> db.bookings[k].bookerId == userId && InState(state, db.bookings[k], now)
  {
  }

  // --------------------------------------------------------- new booking

  /**
   * A booking just created is WAITING, and it is in the owner's WAITING and
   * ALL lists and in the renter's ALL list, whatever the time. (The owner
   * column of an item is not a foreign key, so the owner's account is
   * assumed to still exist.)
   */
  lemma NewBookingIsListed(db: Db, userId: int, dto: BookingDto, freshId: int, now: int)
    requires Consistent(db) && freshId !in db.bookings
    requires SaveBooking(db, userId, dto, freshId).Ok?
    requires db.items[dto.itemId.value].ownerId in db.users
    ensures var db' := SaveBooking(db, userId, dto, freshId).value.db;
            var owner := db.items[dto.itemId.value].ownerId;
            && Consistent(db')
            && db'.bookings[freshId].status == Some(Status.Waiting)
            && freshId in Ids(GetOwnerBooking(db', owner, Some(State.Waiting), now).value)
            && freshId in Ids(GetOwnerBooking(db', owner, Some(State.All), now).value)
            && freshId in Ids(GetBooking(db', userId, Some(State.All), now).value)
  {
    SaveBookingKeepsConsistent(db, userId, dto, freshId);
    var db' := SaveBooking(db, userId, dto, freshId).value.db;
    WaitingRowIsListed(db', db.items[dto.itemId.value].ownerId, freshId, now);
  }

  /** A stored WAITING booking is in its owner's WAITING and ALL lists and its renter's ALL list. */
  lemma WaitingRowIsListed(db: Db, ownerId: int, k: int, now: int)
    requires Consistent(db) && k in db.bookings && ownerId in db.users
    requires db.bookings[k].status == Some(Status.Waiting)
    requires db.items[db.bookings[k].itemId].ownerId == ownerId
    ensures GetOwnerBooking(db, ownerId, Some(State.Waiting), now).Ok?
            && k in Ids(GetOwnerBooking(db, ownerId, Some(State.Waiting), now).value)
    ensures GetOwnerBooking(db, ownerId, Some(State.All), now).Ok?
            && k in Ids(GetOwnerBooking(db, ownerId, Some(State.All), now).value)
    ensures GetBooking(db, db.bookings[k].bookerId, Some(State.All), now).Ok?
            && k in Ids(GetBooking(db, db.bookings[k].bookerId, Some(State.All), now).value)
  {
    assert BookingRowOk(db, k);
    OwnerListNames(db, ownerId, State.Waiting, now, k);
    OwnerListNames(db, ownerId, State.All, now, k);
    RenterListNames(db, db.bookings[k].bookerId, State.All, now, k);
  }

  /**
   * The reply to a new booking is the stored row's reply: exactly what the
   * renter then sees when looking the booking up.
   */
  lemma NewBookingReplyIsStored(db: Db, userId: int, dto: BookingDto, freshId: int)
    requires Consistent(db) && freshId !in db.bookings
    requires SaveBooking(db, userId, dto, freshId).Ok?
    ensures var c := SaveBooking(db, userId, dto, freshId).value;
            && Consistent(c.db) && freshId in c.db.bookings
            && c.reply == Reply(c.db, c.db.bookings[freshId])
            && GetBookingForOwnerOrBooker(c.db, userId, freshId) == Ok(c.reply)
  {
    SaveBookingKeepsConsistent(db, userId, dto, freshId);
  }

  // ----------------------------------------------------------- decisions

  /**
   * The reply to a decision is the decided row's reply: what the owner then
   * sees when looking the booking up, while the item is available.
   */
  lemma DecisionReplyIsStored(db: Db, ownerId: int, bookingId: int, approved: bool)
    requires Consistent(db)
    requires ConfirmOrCancelBooking(db, ownerId, bookingId, approved).Ok?
    ensures var c := ConfirmOrCancelBooking(db, ownerId, bookingId, approved).value;
            && Consistent(c.db) && bookingId in c.db.bookings
            && c.reply == Reply(c.db, c.db.bookings[bookingId])
            && (c.db.items[c.db.bookings[bookingId].itemId].available
                ==> GetBookingForOwnerOrBooker(c.db, ownerId, bookingId) == Ok(c.reply))
  {
    DecideKeepsConsistent(db, ownerId, bookingId, approved);
  }

  /**
   * An approval is final: after the owner approves, every later decision on
   * the booking by any existing user fails with UnsupportedState, and the
   * booking stays APPROVED.
   */
  lemma ApprovalIsFinal(db: Db, ownerId: int, bookingId: int, userId: int, approved: bool)
    requires Consistent(db)
    requires ConfirmOrCancelBooking(db, ownerId, bookingId, true).Ok?
    ensures var db' := ConfirmOrCancelBooking(db, ownerId, bookingId, true).value.db;
            && Consistent(db')
            && db'.bookings[bookingId].status == Some(Status.Approved)
            && (userId in db'.users ==> ConfirmOrCancelBooking(db', userId, bookingId, approved) == Err(UnsupportedState))
  {
    DecideKeepsConsistent(db, ownerId, bookingId, true);
  }

  /**
   * A rejection is not final: the owner can approve a booking they have
   * rejected, and it then counts as APPROVED.
   */
  lemma RejectionCanBeRevised(db: Db, ownerId: int, bookingId: int)
    requires Consistent(db)
    requires ConfirmOrCancelBooking(db, ownerId, bookingId, false).Ok?
    ensures var db' := ConfirmOrCancelBooking(db, ownerId, bookingId, false).value.db;
            && Consistent(db')
            && db'.bookings[bookingId].status == Some(Status.Rejected)
            && ConfirmOrCancelBooking(db', ownerId, bookingId, true).Ok?
            && ConfirmOrCancelBooking(db', ownerId, bookingId, true).value.db.bookings[bookingId].status
               == Some(Status.Approved)
  {
    DecideKeepsConsistent(db, ownerId, bookingId, false);
  }

  /**
   * Rejecting moves a booking from the owner's WAITING list to the owner's
   * REJECTED list.
   */
  lemma RejectionMovesBetweenLists(db: Db, ownerId: int, bookingId: int, now: int)
    requires Consistent(db)
    requires ConfirmOrCancelBooking(db, ownerId, bookingId, false).Ok?
    ensures var db' := ConfirmOrCancelBooking(db, ownerId, bookingId, false).value.db;
            && Consistent(db')
            && bookingId !in Ids(GetOwnerBooking(db', ownerId, Some(State.Waiting), now).value)
            && bookingId in Ids(GetOwnerBooking(db', ownerId, Some(State.Rejected), now).value)
  {
    DecideKeepsConsistent(db, ownerId, bookingId, false);
    var db' := ConfirmOrCancelBooking(db, ownerId, bookingId, false).value.db;
    RejectedRowIsListed(db', ownerId, bookingId, now);
  }

  /** A stored REJECTED booking is in its owner's REJECTED list and not in the WAITING one. */
  lemma RejectedRowIsListed(db: Db, ownerId: int, k: int, now: int)
    requires Consistent(db) && k in db.bookings && ownerId in db.users
    requires db.bookings[k].status == Some(Status.Rejected)
    requires db.items[db.bookings[k].itemId].ownerId == ownerId
    ensures GetOwnerBooking(db, ownerId, Some(State.Waiting), now).Ok?
            && k !in Ids(GetOwnerBooking(db, ownerId, Some(State.Waiting), now).value)
    ensures GetOwnerBooking(db, ownerId, Some(State.Rejected), now).Ok?
            && k in Ids(GetOwnerBooking(db, ownerId, Some(State.Rejected), now).value)
  {
    assert BookingRowOk(db, k);
    OwnerListNames(db, ownerId, State.Waiting, now, k);
    OwnerListNames(db, ownerId, State.Rejected, now, k);
  }

  // -------------------------------------------------------------- views

  /**
   * A stored booking on an available item is visible to its renter and to
   * its item's owner, and to nobody else.
   */
  lemma OnlyPartiesSeeBooking(db: Db, bookingId: int, userId: int)
    requires Consistent(db) && bookingId in db.bookings
    requires userId in db.users
    requires db.items[db.bookings[bookingId].itemId].available
    ensures GetBookingForOwnerOrBooker(db, userId, bookingId).Ok?
            <==> userId == db.bookings[bookingId].bookerId
                 || userId == db.items[db.bookings[bookingId].itemId].ownerId
  {
    assert BookingRowOk(db, bookingId);
  }
}
