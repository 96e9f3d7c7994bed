/**
 * Entities, transfer objects, errors and the database of the item-sharing
 * service. Entities refer to each other by primary key; the object graph of
 * the persistence layer (a booking holding its item and its booker) is
 * resolved through the stores when an operation needs it.
 *
 * Timestamps are integers on one clock; ids are unbounded integers (the
 * service's `long` ids never overflow in the operations modelled).
 */
module Domain {
  import opened Wrappers

  /** The exceptions the services raise, one variant per exception class. */
  datatype Error =
    | UserNotFound          // UserNotFoundException
    | ItemNotFound          // ItemNotFoundException
    | BookingNotFound       // BookingNotFoundException
    | RequestNotFound       // RequestNotFoundException
    | InCorrectDate         // InCorrectDateException
    | InCorrectBooking      // InCorrectBookingException
    | ItemUnavailable       // ItemUnavailableException
    | UnsupportedState      // UnsupportedStateException
    | BadRequest            // BadRequestException
    | MethodArgumentNotValid // MethodArgumentNotValidException
    | IllegalArgument       // IllegalArgumentException (unknown state token, bad page); also a null id, which Spring reports wrapped in InvalidDataAccessApiUsageException
    | Arithmetic            // ArithmeticException (integer division by zero)

  datatype Result<+T> = Ok(value: T) | Err(error: Error)

  /** A successful write: the database after it, and the reply. */
  datatype Commit<+T> = Commit(db: Db, reply: T)

  /** Booking status, `booking.enums.Status`. */
  datatype Status = Waiting | Approved | Rejected | Canceled

  // ---------------------------------------------------------------- entities

  datatype User = User(id: int, name: string, email: string)

  /**
   * `request` is the id of the item request the item answers, if any.
   * `id` is nullable: an item built from a transfer object carries the
   * transfer object's id until it is saved.
   */
  datatype Item = Item(
    id: Option<int>,
    name: string,
    description: string,
    ownerId: int,
    available: bool,
    request: Option<int>)

  /**
   * `status` is nullable until the booking is persisted; the id is a
   * primitive `long`, so an unsaved booking carries 0.
   */
  datatype Booking = Booking(
    id: int,
    start: int,
    end: int,
    itemId: int,
    bookerId: int,
    status: Option<Status>)

  datatype Comment = Comment(
    id: Option<int>,
    text: string,
    created: int,
    authorId: int,
    itemId: int)

  /** An item request; its items are the items whose `request` names it. */
  datatype Request = Request(
    id: Option<int>,
    description: string,
    requesterId: int,
    created: Option<int>)

  // ------------------------------------------------------- transfer objects

  datatype UserDto = UserDto(id: int, name: Option<string>, email: Option<string>)

  datatype BookingDtoUser = BookingDtoUser(id: int)

  datatype BookingDtoItem = BookingDtoItem(id: Option<int>, name: string)

  /** The booking transfer object, used both for requests and for replies. */
  datatype BookingDto = BookingDto(
    id: int,
    start: int,
    end: int,
    bookerId: int,
    itemId: Option<int>,
    item: Option<BookingDtoItem>,
    booker: Option<BookingDtoUser>,
    status: Option<Status>)

  datatype BookingDtoShort = BookingDtoShort(id: int, bookerId: int)

  datatype CommentDto = CommentDto(
    id: Option<int>,
    text: string,
    created: Option<int>,
    authorName: string)

  /** Every field is nullable: an update request carries only what changes. */
  datatype ItemDto = ItemDto(
    id: Option<int>,
    name: Option<string>,
    description: Option<string>,
    ownerId: Option<int>,
    available: Option<bool>,
    requestId: Option<int>,
    comments: Option<seq<CommentDto>>,
    lastBooking: Option<BookingDtoShort>,
    nextBooking: Option<BookingDtoShort>)

  datatype ItemDtoReq = ItemDtoReq(
    id: Option<int>,
    name: string,
    description: string,
    ownerId: int,
    requestId: Option<int>,
    available: bool)

  datatype RequestDto = RequestDto(id: Option<int>, description: string, created: Option<int>)

  datatype RequestDtoWithRequest = RequestDtoWithRequest(
    id: Option<int>,
    description: string,
    created: Option<int>,
    items: seq<ItemDtoReq>)

  // ------------------------------------------------------------------ saving

  /**
   * The key a repository `save` stores a row under. A row without an id is
   * persisted under the key the database generates (`freshId`); a row whose
   * id names a stored row is merged into that row; a row whose id names no
   * stored row is persisted as new.
   */
  function SavedKey(id: Option<int>, keys: set<int>, freshId: int): int {
    if id.Some? && id.value in keys then id.value else freshId
  }

  /**
   * The id the saved object carries afterwards: persisting a new row writes
   * the generated key into it, a merge leaves the caller's object as it was.
   */
  function IdAfterSave(id: Option<int>, freshId: int): Option<int> {
    if id.None? then Some(freshId) else id
  }

  // ---------------------------------------------------------------- database

  datatype Db = Db(
    users: map<int, User>,
    items: map<int, Item>,
    bookings: map<int, Booking>,
    comments: map<int, Comment>,
    requests: map<int, Request>)

  /**
   * What the schema guarantees of every reachable database: each row is
   * stored under its own primary key, foreign keys resolve, and the
   * non-nullable booking status is set.
   */
  ghost predicate Consistent(db: Db) {
    && (forall k :: k in db.users ==> db.users[k].id == k)
    && (forall k :: k in db.items ==> db.items[k].id == Some(k))
    && (forall k :: k in db.bookings ==> BookingRowOk(db, k))
    && (forall k :: k in db.comments ==> CommentRowOk(db, k))
    && (forall k :: k in db.requests ==> db.requests[k].id == Some(k) && db.requests[k].requesterId in db.users)
  }

  /** A stored item carries the key it is stored under. */
  lemma StoredItemId(db: Db, k: int)
    requires Consistent(db) && k in db.items
    ensures db.items[k].id == Some(k)
  {
  }

  ghost predicate BookingRowOk(db: Db, k: int)
    requires k in db.bookings
  {
    var b := db.bookings[k];
    b.id == k && b.status.Some? && b.itemId in db.items && b.bookerId in db.users
  }

  ghost predicate CommentRowOk(db: Db, k: int)
    requires k in db.comments
  {
    var c := db.comments[k];
    c.id == Some(k) && c.authorId in db.users && c.itemId in db.items
  }
}
