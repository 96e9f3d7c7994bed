# ShareIt core, modelled in Dafny

ShareIt is the REST backend of an item-sharing marketplace. Users list
items. Other users book time ranges on those items. An owner approves or
rejects each booking. A renter whose booking has started may comment on the
item. Users can also post item requests, and items can answer them.

This project models the service layer of that backend as pure functions over
one immutable database value. It covers these parts:

- the booking lifecycle (`BookingServiceImpl`);
- the derived booking queries in both copies of `BookingRepository`;
- the booking, item, comment and request mappers;
- the item service (`ItemServiceImpl`);
- the user service (`UserServiceImpl`);
- both copies of the item-request service (`ItemRequestServiceIml`).

The properties are proved about that model.

How the model is built:

- **Database.** `Domain.Db` holds one `map<int, Entity>` per table, keyed by
  primary key. `Domain.Consistent` states what the schema guarantees:
  - every row is stored under its own key;
  - the foreign keys of bookings, comments and requests resolve;
  - a persisted booking has a status.

  An item's `ownerId` is a plain column, not a foreign key. Every write
  operation comes with a lemma that it preserves `Consistent`.
- **Results.** An operation returns `Err(e)`, naming the exception the Java
  method throws, or `Ok(v)`. A write returns `Ok(Commit(db', reply))`, where
  `db'` is the database after the write. A failed write stores nothing.
- **Inputs from outside.** Three things become parameters:
  - `now` stands for `LocalDateTime.now()`;
  - `saveTime` is the comment timestamp;
  - `freshId` is the key the database generates, with `freshId !in` the
    table.
- **Saving.** `Domain.SavedKey` and `Domain.IdAfterSave` model Spring Data's
  `save`:
  - an object without an id, or with an id no row has, is persisted under
    the generated key, and the object receives that key;
  - an object whose id names a stored row is merged into that row.
- **Store order.** The order in which the database enumerates rows is fixed
  as ascending primary key (`Store.AscendingKeys`, `Store.Rows`). Most
  queries whose order the code does not fix are stated by membership only.
  Four listings are stated in store order, and "## Left out" names each:
  - `UserService.GetAllUsers`: the users;
  - `ItemService.ItemsOf`: an owner's items, which `GetItemsByUser` pages;
  - `ItemRequestService.OthersRequests`: other users' requests, which
    `GetAllItemRequest` pages;
  - `RequestMapper.RequestItems`: a request's items. Every reply built by
    `ItemRequestService.Reply` lists them in this order, so
    `GetItemRequest`, `GetAllItemRequest`, `GetRequestById` and
    `LookupMatchesOwnList` fix it too.
- **Derived queries.** Repository methods are read by their Spring Data
  names. For example, `findAllByItem_OwnerIdAndStartIsBeforeAndEndIsAfter(u, t1, t2, sort)`
  selects the bookings of `u`'s items with `start < t1` and `end > t2`.
  `StatusNotLike s` means `status <> s`.
- **Java arithmetic.** Java's truncating `int` division is
  `Store.JavaDiv`. `Store.PageOf` is the page number that
  `PageRequest.of(from / size, size)` receives.

Modules:

| module | file | models |
|---|---|---|
| `Wrappers`, `Store` | `wrappers.dfy`, `store.dfy` | `Option`; store order, filtering, one page of a list, Java division |
| `Domain` | `domain.dfy` | entities, transfer objects, errors, the database and its consistency |
| `BookingMapper`, `ItemMapper`, `CommentMapper`, `RequestMapper` | `*_mapper.dfy` | the four mappers |
| `BookingRepository`, `ServerBookingRepository` | `booking_repository.dfy`, `server_booking_repository.dfy` | the derived booking queries |
| `BookingService`, `BookingLifecycle` | `booking_service.dfy`, `booking_lifecycle.dfy` | the booking operations, and properties spanning several calls |
| `ItemService` | `item_service.dfy` | items, comments, last and next bookings |
| `UserService` | `user_service.dfy` | user listing, lookup and patch |
| `ItemRequestService` | `item_request_service.dfy` | both copies of the request service |

Where the code and the natural-language description of the system disagree,
the model follows the code:

- A `CURRENT` booking is one with `start < now < end`, both strict.
- A REJECTED booking can be decided again, and then approved. Only APPROVED
  is guarded.
- An empty date range fails with `InCorrectDateException` (`InCorrectDate`).
- The root copy's booking lists are not paged.
- For `postComment`, a WAITING booking that has started entitles its renter
  to comment, and the booking's end is never checked.
- The unit tests expect `BadRequestException` from `getItemsByUser` with
  `from = -1, size = -1` and with `from = 0, size = 0`
  (`ItemServiceTest.java` lines 330-331). The code raises no such exception:
  `PageRequest.of` refuses the negative values with an
  `IllegalArgumentException` (`IllegalArgument`), and `0 / 0` raises an
  `ArithmeticException` (`Arithmetic`).

## Model

| member | source | states |
|---|---|---|
| BookingMapper.ToBookingDto | src/main/java/ru/practicum/shareit/booking/mapper/BookingMapper.java:15-31 | the reply copies id, start, end and status; the booker's id appears as `bookerId` and `booker`, and the item's id and name as `itemId` and `item` |
| BookingMapper.ToBookingDtoShort | src/main/java/ru/practicum/shareit/booking/mapper/BookingMapper.java:33-38 | the short form keeps exactly the booking id and the booker id |
| BookingMapper.ToBooking | src/main/java/ru/practicum/shareit/booking/mapper/BookingMapper.java:40-47 | a booking built from a request takes start and end from it; booker and item are the given rows; id is 0 and status unset |
| BookingMapper.ReplyRebuildsBooking | src/main/java/ru/practicum/shareit/booking/mapper/BookingMapper.java:15-47 | rebuilding a booking from its reply gives the booking back, except id (0) and status (unset) |
| BookingRepository.AllBookings | src/main/java/ru/practicum/shareit/booking/repository/BookingRepository.java:12 | the store's bookings, each once |
| BookingRepository.SortByStartDesc | src/main/java/ru/practicum/shareit/booking/service/BookingServiceImpl.java:143 | `Sort.by(DESC, "start")` orders its input by start, latest first, keeping exactly the same bookings |
| BookingRepository.SortIsPermutation | src/main/java/ru/practicum/shareit/booking/service/BookingServiceImpl.java:143 | sorting is a permutation: every booking occurs as often in the sorted list as in its input |
| BookingRepository.InsertKeepsDistinct | src/main/java/ru/practicum/shareit/booking/service/BookingServiceImpl.java:143 | inserting a new booking into a duplicate-free list keeps it duplicate-free |
| BookingRepository.SortKeepsDistinct | src/main/java/ru/practicum/shareit/booking/service/BookingServiceImpl.java:143 | sorting a duplicate-free list keeps it duplicate-free |
| BookingRepository.FindAll | src/main/java/ru/practicum/shareit/booking/repository/BookingRepository.java:25-43 | a list query returns exactly the stored bookings of the party that meet its condition, without duplicates, ordered by start descending when sorted |
| BookingRepository.FindAllByBookerIdOrderByStartDesc | src/main/java/ru/practicum/shareit/booking/repository/BookingRepository.java:25 | exactly the booker's bookings, latest start first, each once |
| BookingRepository.FindAllByBookerIdAndEndIsBefore | src/main/java/ru/practicum/shareit/booking/repository/BookingRepository.java:27 | exactly the booker's bookings with `end < t` |
| BookingRepository.FindAllByBookerIdAndStartIsAfter | src/main/java/ru/practicum/shareit/booking/repository/BookingRepository.java:29 | exactly the booker's bookings with `start > t` |
| BookingRepository.FindAllByBookerIdAndStartIsBeforeAndEndIsAfter | src/main/java/ru/practicum/shareit/booking/repository/BookingRepository.java:31 | exactly the booker's bookings with `start < t1` and `end > t2` |
| BookingRepository.FindAllByBookerIdAndStatus | src/main/java/ru/practicum/shareit/booking/repository/BookingRepository.java:33 | exactly the booker's bookings with the given status |
| BookingRepository.FindAllByItemOwnerIdOrderByStartDesc | src/main/java/ru/practicum/shareit/booking/repository/BookingRepository.java:35 | exactly the bookings of the owner's items, latest start first, each once |
| BookingRepository.FindAllByItemOwnerIdAndStatus | src/main/java/ru/practicum/shareit/booking/repository/BookingRepository.java:37 | exactly the bookings of the owner's items with the given status |
| BookingRepository.FindAllByItemOwnerIdAndStartIsBeforeAndEndIsAfter | src/main/java/ru/practicum/shareit/booking/repository/BookingRepository.java:39 | exactly the bookings of the owner's items with `start < t1` and `end > t2` |
| BookingRepository.FindAllByItemOwnerIdAndStartIsAfter | src/main/java/ru/practicum/shareit/booking/repository/BookingRepository.java:41 | exactly the bookings of the owner's items with `start > t` |
| BookingRepository.FindAllByItemOwnerIdAndEndIsBefore | src/main/java/ru/practicum/shareit/booking/repository/BookingRepository.java:43 | exactly the bookings of the owner's items with `end < t` |
| BookingRepository.MinBy | src/main/java/ru/practicum/shareit/booking/repository/BookingRepository.java:17-19 | the first row of an ascending order: absent exactly for an empty list, otherwise a member with the least key |
| BookingRepository.MaxBy | src/main/java/ru/practicum/shareit/booking/repository/BookingRepository.java:13-15 | the first row of a descending order: absent exactly for an empty list, otherwise a member with the greatest key |
| BookingRepository.LastEndedBefore | src/main/java/ru/practicum/shareit/booking/repository/BookingRepository.java:13-15 | null exactly when no booking of the item with another status ended before `t`; otherwise such a booking with the latest end |
| BookingRepository.NextStartingAfter | src/main/java/ru/practicum/shareit/booking/repository/BookingRepository.java:17-19 | null exactly when no booking of the item with another status starts after `t`; otherwise such a booking with the earliest start |
| BookingRepository.LastStartedBefore | src/main/java/ru/practicum/shareit/booking/repository/BookingRepository.java:21-23 | null exactly when no booking of the item with another status started before `t`; otherwise such a booking with the latest start |
| ServerBookingRepository.Paged | server/src/main/java/ru/practicum/shareit/booking/repository/BookingRepository.java:27 | a page holds the rows at positions `page * size` onward, in order: exactly `size` of them, or all the rest when fewer remain, and none when the page starts past the end; unpaged is the whole list |
| ServerBookingRepository.PageKeepsOrder | server/src/main/java/ru/practicum/shareit/booking/repository/BookingRepository.java:27 | a page of a start-descending list is start-descending |
| ServerBookingRepository.FindAllByBookerIdOrderByStartDescPaged | server/src/main/java/ru/practicum/shareit/booking/repository/BookingRepository.java:27 | for a `PageRequest`, exactly that page of the booker's start-descending list (its positions and length as `Paged` states); unpaged it is the whole list |
| ServerBookingRepository.FindAllByItemOwnerIdOrderByStartDescPaged | server/src/main/java/ru/practicum/shareit/booking/repository/BookingRepository.java:37 | for a `PageRequest`, exactly that page of the start-descending list of the owner's items' bookings; unpaged it is the whole list |
| BookingService.SaveBooking | src/main/java/ru/practicum/shareit/booking/service/BookingServiceImpl.java:45-75 | fails on the first failing check, in order: unknown user, null item id, unknown item, `end <= start`, booking one's own item, unavailable item; succeeds exactly when none fails and then stores a WAITING booking under the generated key; the reply is `toBookingDto` of that stored row with its item and booker |
| BookingService.ConfirmOrCancelBooking | src/main/java/ru/practicum/shareit/booking/service/BookingServiceImpl.java:79-109 | checks in order: user exists, booking exists, not already APPROVED (else UnsupportedState, even for a non-owner), caller owns the item (else BookingNotFound); on success only that booking's status changes, to APPROVED or REJECTED, and the reply is `toBookingDto` of the decided row with its item and booker |
| BookingService.GetBookingForOwnerOrBooker | src/main/java/ru/practicum/shareit/booking/service/BookingServiceImpl.java:113-136 | succeeds exactly when the user and booking exist, the user is the booker or the item's owner, and the item is available, with the errors in that order |
| BookingService.RepliesNameSelection | src/main/java/ru/practicum/shareit/booking/service/BookingServiceImpl.java:171-173 | mapping a selection to replies keeps its ids exactly, without duplicates and in start order |
| BookingService.CondOf | src/main/java/ru/practicum/shareit/booking/service/BookingServiceImpl.java:151-170 | the query each state token picks selects exactly the bookings in that state at `now` |
| BookingService.RenterQuery | src/main/java/ru/practicum/shareit/booking/service/BookingServiceImpl.java:151-170 | the renter's query for a state is the named repository query and returns exactly the renter's bookings in that state, each once, ordered by start for the time states and ALL |
| BookingService.OwnerQuery | src/main/java/ru/practicum/shareit/booking/service/BookingServiceImpl.java:188-207 | the owner's query for a state is the named repository query and returns exactly the bookings of the owner's items in that state, each once, ordered by start for the time states and ALL |
| BookingService.GetBooking | src/main/java/ru/practicum/shareit/booking/service/BookingServiceImpl.java:140-174 | an unknown token fails with IllegalArgument before the user check; then an unknown user fails; otherwise the reply ids are exactly the renter's bookings in that state, each once, latest start first for the time states and ALL; each reply is `toBookingDto` of the stored row it names |
| BookingService.GetOwnerBooking | src/main/java/ru/practicum/shareit/booking/service/BookingServiceImpl.java:177-211 | the same for the bookings of the owner's items, each reply being `toBookingDto` of its stored row |
| BookingLifecycle.NewBookingReplyIsStored | src/main/java/ru/practicum/shareit/booking/service/BookingServiceImpl.java:74 | the reply to a new booking is the stored row's reply, and looking the booking up at once returns the same reply |
| BookingLifecycle.DecisionReplyIsStored | src/main/java/ru/practicum/shareit/booking/service/BookingServiceImpl.java:108 | the reply to a decision is the decided row's reply; while the item is available, looking the booking up returns the same reply |
| BookingLifecycle.SaveBookingKeepsConsistent | src/main/java/ru/practicum/shareit/booking/service/BookingServiceImpl.java:68-74 | creating a booking keeps the database consistent |
| BookingLifecycle.DecideKeepsConsistent | src/main/java/ru/practicum/shareit/booking/service/BookingServiceImpl.java:101-107 | deciding on a booking keeps the database consistent |
| BookingLifecycle.NewBookingIsListed | src/main/java/ru/practicum/shareit/booking/service/BookingServiceImpl.java:68-74 | a new booking is WAITING and is listed in the owner's WAITING and ALL lists and in the renter's ALL list |
| BookingLifecycle.ApprovalIsFinal | src/main/java/ru/practicum/shareit/booking/service/BookingServiceImpl.java:90-93 | after an approval, any later decision by any existing user fails with UnsupportedState and the booking stays APPROVED |
| BookingLifecycle.RejectionCanBeRevised | src/main/java/ru/practicum/shareit/booking/service/BookingServiceImpl.java:90-105 | the owner can approve a booking they rejected |
| BookingLifecycle.RejectionMovesBetweenLists | src/main/java/ru/practicum/shareit/booking/service/BookingServiceImpl.java:101-105 | rejecting moves a booking from the owner's WAITING list to the owner's REJECTED list |
| BookingLifecycle.OnlyPartiesSeeBooking | src/main/java/ru/practicum/shareit/booking/service/BookingServiceImpl.java:124-133 | when the item is available, a user may see a booking exactly when they are its booker or its item's owner |
| ItemMapper.ToItemDto | src/main/java/ru/practicum/shareit/item/mapper/ItemMapper.java:14-22 | the reply copies id, name, description and availability, and the request as `requestId`; owner, comments and bookings stay unset |
| ItemMapper.ToItem | src/main/java/ru/practicum/shareit/item/mapper/ItemMapper.java:24-32 | the owner is the given user whatever the request says; the request id is not copied |
| ItemMapper.ToItemDtoReq | src/main/java/ru/practicum/shareit/item/mapper/ItemMapper.java:34-43 | the short form copies all six fields |
| ItemMapper.ToItemDtoList | src/main/java/ru/practicum/shareit/item/mapper/ItemMapper.java:45-49 | one short form per item, same length and order |
| ItemMapper.RequestSurvivesToItem | src/main/java/ru/practicum/shareit/item/mapper/ItemMapper.java:14-32 | a request mapped to an item and back keeps id, name, description and availability and loses the request id |
| ItemMapper.ItemSurvivesToItemDto | src/main/java/ru/practicum/shareit/item/mapper/ItemMapper.java:14-32 | an item mapped to its reply and back for its owner is the item without its request |
| CommentMapper.ToCommentDto | server/src/main/java/ru/practicum/shareit/comment/mapper/CommentMapper.java:13-20 | the reply copies id, text and creation time and shows the author by name |
| CommentMapper.ToComment | server/src/main/java/ru/practicum/shareit/comment/mapper/CommentMapper.java:22-31 | the comment takes id and text from the request, the author and item from the arguments and the creation time from the argument |
| CommentMapper.CommentRoundTrip | server/src/main/java/ru/practicum/shareit/comment/mapper/CommentMapper.java:13-31 | a comment built from a request and mapped back keeps id and text, carries the given time, and drops the request's own timestamp |
| ItemService.NewItem | src/main/java/ru/practicum/shareit/item/service/ItemServiceImpl.java:52-55 | the new row's owner is the caller and its request is the request's `requestId`, whatever `ownerId` it names |
| ItemService.SaveItem | src/main/java/ru/practicum/shareit/item/service/ItemServiceImpl.java:49-58 | fails exactly for an unknown caller; otherwise the caller's item is stored under the saved key, and the reply carries that key, the given description and the request id |
| ItemService.SaveItemKeepsConsistent | src/main/java/ru/practicum/shareit/item/service/ItemServiceImpl.java:56 | saving an item keeps the database consistent |
| ItemService.ItemUpdate | src/main/java/ru/practicum/shareit/item/service/ItemServiceImpl.java:74-89 | non-null fields replace, null fields keep; a non-null owner id that names no user fails with UserNotFound |
| ItemService.UpdateItem | src/main/java/ru/practicum/shareit/item/service/ItemServiceImpl.java:61-72 | a missing item and another user's item both fail as ItemNotFound, then the patch's owner check; on success only that item changes |
| ItemService.UpdateItemKeepsConsistent | src/main/java/ru/practicum/shareit/item/service/ItemServiceImpl.java:70 | patching an item keeps the database consistent |
| ItemService.UpdateItemTwice | src/main/java/ru/practicum/shareit/item/service/ItemServiceImpl.java:61-89 | repeating a patch is idempotent unless it handed the item to another user, after which the caller's repeat fails with ItemNotFound |
| ItemService.EmptyPatchKeepsItem | src/main/java/ru/practicum/shareit/item/service/ItemServiceImpl.java:74-89 | a patch carrying nothing leaves the database unchanged |
| ItemService.NextBooking | src/main/java/ru/practicum/shareit/item/service/ItemServiceImpl.java:185-196 | `nextBooking` is null exactly when no non-rejected booking of the item starts after `now`, otherwise the earliest such one |
| ItemService.LastBooking | src/main/java/ru/practicum/shareit/item/service/ItemServiceImpl.java:188-202 | `lastBooking` is null exactly when no non-rejected booking of the item started before `now`, otherwise the latest such one |
| ItemService.CommentsOf | src/main/java/ru/practicum/shareit/item/service/ItemServiceImpl.java:96 | exactly the stored comments of the item |
| ItemService.CommentReplies | src/main/java/ru/practicum/shareit/item/service/ItemServiceImpl.java:101-103 | one reply per comment, same order: `toCommentDto` of the comment with its author's row, so each reply carries the comment's id, text and time and the author's name |
| ItemService.RepliesNameComments | src/main/java/ru/practicum/shareit/item/service/ItemServiceImpl.java:96-103 | the comment replies name exactly the item's stored comments |
| ItemService.ItemCommentRepliesAreStored | src/main/java/ru/practicum/shareit/item/service/ItemServiceImpl.java:96-103 | every comment reply of an item is `toCommentDto` of a stored comment of that item, by its author |
| ItemService.WithLastAndNext | src/main/java/ru/practicum/shareit/item/service/ItemServiceImpl.java:182-203 | the item reply gains exactly the next and the last booking at `now`, each null when there is none, and nothing else in it changes |
| ItemService.GetItemById | src/main/java/ru/practicum/shareit/item/service/ItemServiceImpl.java:93-106 | fails exactly for a missing item; the reply carries the item's id, name, description, availability and request id, lists exactly its comments, each reply being `toCommentDto` of a stored comment of that item with its author, and carries last and next bookings for the owner only |
| ItemService.ItemsOf | src/main/java/ru/practicum/shareit/item/service/ItemServiceImpl.java:120 | exactly the owner's stored items |
| ItemService.GetItemsByUser | src/main/java/ru/practicum/shareit/item/service/ItemServiceImpl.java:109-127 | unknown user first; then `from / size` fails for size 0, and a size below one or a negative page is refused; otherwise the reply is that page of the owner's items, each with last and next bookings |
| ItemService.ItemsByUserAreOwned | src/main/java/ru/practicum/shareit/item/service/ItemServiceImpl.java:120-124 | every listed item is one of the caller's stored items, with its stored fields |
| ItemService.NegativeOffsetReadsFirstPage | src/main/java/ru/practicum/shareit/item/service/ItemServiceImpl.java:114 | an offset between `-size` and 0 reads the same page as offset 0, because Java's division truncates |
| ItemService.PostComment | src/main/java/ru/practicum/shareit/item/service/ItemServiceImpl.java:142-171 | empty text fails first, then unknown user, then unknown item; succeeds exactly when the caller has a started, non-rejected booking of the item, and stores the comment with the save time |
| ItemService.PostCommentKeepsConsistent | src/main/java/ru/practicum/shareit/item/service/ItemServiceImpl.java:163-168 | posting a comment keeps the database consistent |
| Store.JavaDivByPositive | src/main/java/ru/practicum/shareit/item/service/ItemServiceImpl.java:114 | Java's quotient by a positive size is negative exactly when `from <= -size`, and truncates a negative `from` above that to 0 |
| Store.PageOf | src/main/java/ru/practicum/shareit/item/service/ItemServiceImpl.java:114 | the page number `from / size` equals Java's quotient and is 0 for a negative offset above `-size` |
| UserService.GetAllUsers | src/main/java/ru/practicum/shareit/user/service/UserServiceImpl.java:25-28 | one reply per stored user, in store order, each user once |
| UserService.GetUserById | src/main/java/ru/practicum/shareit/user/service/UserServiceImpl.java:59-64 | fails exactly for an unknown id; otherwise the stored user's reply |
| UserService.ListedUserIsLookedUp | src/main/java/ru/practicum/shareit/user/service/UserServiceImpl.java:25-64 | each listed user is what the lookup by its id returns |
| UserService.UpdateUser | src/main/java/ru/practicum/shareit/user/service/UserServiceImpl.java:44-56 | an unknown user fails and nothing is saved; otherwise non-null name or email replace, null ones keep, the id stays, and no other row changes |
| UserService.UpdateUserKeepsConsistent | src/main/java/ru/practicum/shareit/user/service/UserServiceImpl.java:55 | a patch keeps the database consistent |
| UserService.UpdateUserIsIdempotent | src/main/java/ru/practicum/shareit/user/service/UserServiceImpl.java:44-56 | sending the same patch twice gives the same database and reply |
| UserService.EmptyPatchKeepsUser | src/main/java/ru/practicum/shareit/user/service/UserServiceImpl.java:48-53 | a patch with neither name nor email changes nothing |
| UserService.LookupAfterUpdate | src/main/java/ru/practicum/shareit/user/service/UserServiceImpl.java:44-64 | after a patch, the lookup returns what the patch replied |
| RequestMapper.ToItemRequest | src/main/java/ru/practicum/shareit/request/mappers/RequestMapper.java:12-17 | copies the description, sets the requester, and leaves id and creation time unset |
| RequestMapper.ToItemRequestDto | src/main/java/ru/practicum/shareit/request/mappers/RequestMapper.java:19-25 | copies id, description and creation time |
| RequestMapper.DescriptionSurvivesRoundTrip | src/main/java/ru/practicum/shareit/request/mappers/RequestMapper.java:12-25 | a request built from a transfer object and mapped back keeps the description, with id and time unset |
| RequestMapper.RequestItems | src/main/java/ru/practicum/shareit/request/mappers/RequestMapper.java:32 | a request's items are exactly the stored items whose request column names it, listed in store order |
| RequestMapper.ToRequestDtoWithRequest | src/main/java/ru/practicum/shareit/request/mappers/RequestMapper.java:27-34 | copies id, description and time; the items list matches the request's items in length and order |
| ItemRequestService.AddItemRequest | server/src/main/java/ru/practicum/shareit/request/service/ItemRequestServiceIml.java:34-42 | fails exactly for an unknown user; otherwise stores a new request with that requester and `created = now`, and only that; the root copy (`ItemRequestServiceIml.java` lines 35-48 under `src/`) behaves the same |
| ItemRequestService.AddItemRequestKeepsConsistent | server/src/main/java/ru/practicum/shareit/request/service/ItemRequestServiceIml.java:38-41 | adding a request keeps the database consistent |
| ItemRequestService.NewRequestIsListed | server/src/main/java/ru/practicum/shareit/request/service/ItemRequestServiceIml.java:34-58 | a request just added appears in its requester's own list |
| ItemRequestService.OwnRequests | server/src/main/java/ru/practicum/shareit/request/service/ItemRequestServiceIml.java:49 | exactly the user's requests, by ascending id |
| ItemRequestService.OthersRequests | server/src/main/java/ru/practicum/shareit/request/service/ItemRequestServiceIml.java:67 | exactly the other users' requests, by ascending id |
| ItemRequestService.FilterKeepsById | server/src/main/java/ru/practicum/shareit/request/service/ItemRequestServiceIml.java:49 | selecting from an id-ordered list keeps it id-ordered |
| ItemRequestService.ReplyListsAnswers | src/main/java/ru/practicum/shareit/request/mappers/RequestMapper.java:27-34 | the reply for a stored request lists exactly the items that answer it |
| ItemRequestService.Stamp | server/src/main/java/ru/practicum/shareit/request/service/ItemRequestServiceIml.java:87-89 | every item of the reply gets the given request id, the items keep their number and order, and the rest of the reply is unchanged |
| ItemRequestService.ReplyIsStamped | server/src/main/java/ru/practicum/shareit/request/service/ItemRequestServiceIml.java:52-56 | after stamping, every item of a reply names the reply's request |
| ItemRequestService.StampingChangesNothing | server/src/main/java/ru/practicum/shareit/request/service/ItemRequestServiceIml.java:52-56 | the stamping loop changes nothing: the items already carry the request's id |
| ItemRequestService.GetItemRequest | server/src/main/java/ru/practicum/shareit/request/service/ItemRequestServiceIml.java:44-58 | fails exactly for an unknown user; otherwise one stamped reply for each of the user's requests and no other, by ascending id; the root copy (`ItemRequestServiceIml.java` lines 51-64 under `src/`) behaves the same |
| ItemRequestService.GetAllItemRequestAsWritten | server/src/main/java/ru/practicum/shareit/request/service/ItemRequestServiceIml.java:60-78 | the paging check refuses `from < 0`, `size < 0` and `from == size == 0` before the user check; then an unknown user fails; division by zero happens exactly for `from > 0`, `size == 0` and a known user, and the call succeeds exactly for `from >= 0`, `size > 0` and a known user; the root copy (lines 67-85 under `src/`) does the same, raising BadRequestException |
| ItemRequestService.ZeroSizeDividesByZero | server/src/main/java/ru/practicum/shareit/request/service/ItemRequestServiceIml.java:62-67 | offset 1 with size 0 passes the check and divides by zero |
| ItemRequestService.GetAllItemRequest | server/src/main/java/ru/practicum/shareit/request/service/ItemRequestServiceIml.java:60-78 | with the intended paging check: a bad offset or size is refused first, then an unknown user; otherwise one page of other users' requests, at most `size`, by ascending id |
| ItemRequestService.CorrectionOnlyRefusesZeroSize | server/src/main/java/ru/practicum/shareit/request/service/ItemRequestServiceIml.java:62-67 | the corrected check agrees with the written one for every nonzero size and refuses size 0 |
| ItemRequestService.GetRequestById | server/src/main/java/ru/practicum/shareit/request/service/ItemRequestServiceIml.java:80-91 | unknown user first, then unknown request; any user may view any request; the reply is the stored request's reply, its items stamped with the id asked for; the root copy (`ItemRequestServiceIml.java` lines 88-98 under `src/`) behaves the same |
| ItemRequestService.LookupMatchesOwnList | server/src/main/java/ru/practicum/shareit/request/service/ItemRequestServiceIml.java:44-91 | a request looked up by id reads the same as in its requester's own list |

## Left out

- Controllers, the error handler and the HTTP status each exception maps to.
  They are routing only.
- The older JDBC layer: `DbItemStorage`, `ItemStorage`, `UserStorage`, and
  the class-style `ItemService` and `UserService`. They are superseded
  persistence wrappers.
- `saveUser`, `deleteUser`, `searchItem`, `deleteItemById`: these lie outside
  the modelled operations. They are single repository calls, and for
  `searchItem` a SQL text search.
- `State.from`. The list operations take the parsed state as an
  `Option<State>`, and `None` stands for an unknown token.
- Bean validation (`@NotBlank`, `@Future` and so on):
  - the controller-level constraints, checked before the services run, are
    why `SaveItem` requires `ItemMapper.Complete`;
  - the entity-level constraints (`@FutureOrPresent` and `@Future` on
    `Booking`'s dates), which JPA checks when the changes are flushed,
    after the service's own logic, are not modelled: booking dates are
    taken as given.
- The clock. `postComment` reads the clock once per booking it inspects; the
  model uses one reading, `now`.
- `getItemsByUser`'s null check on `findAllByOwnerId`. A repository list is
  never null, so that `ItemNotFound` branch cannot be reached.
- `UserMapper` is not part of this model. `UserService.ToUserDto` assumes a
  field-for-field copy, and `toUserWithId` is taken to set the id to the
  path's user id.
- The server copy's `BookingServiceImpl` is not part of this model. Of the
  server repository, only the two paged queries that differ are modelled.
- Transactions, concurrency and lazy loading. Each call runs to completion
  on one database value.
- Java's 64-bit `long` ids and timestamps and 32-bit `int` paging
  parameters. All are unbounded integers; overflow is not modelled.
- ItemService.GetItemsByUser: the code reads the clock afresh for each item
  of the page. The model uses one reading, `now`, for all of them.
- UserService.UpdateUser: `User` declares `@NotBlank` on the name and
  `@NotBlank @Email` on the email, and the patch endpoint has no `@Valid`.
  A blank or malformed patch therefore fails when JPA flushes the change.
  The model stores it and replies Ok, because entity validation at flush is
  not modelled.
- ItemService.PostComment: the comment endpoint has no `@Valid`, so a null
  text reaches `getText().isEmpty()` and throws a `NullPointerException`
  before any lookup. The model types the text as a string, never null, so
  that failure is not modelled.
- BookingRepository.FindAllByBookerIdAndStatus: the order of the
  status-filtered lists is left unstated, because the query fixes none. The
  same holds for the other unsorted queries.
- ItemService.GetItemById: states which comments are listed, not their
  order, which `findAllByItemId` does not fix.
- RequestMapper.RequestItems: `request.getItems()` is the request's item
  association, and no ordering of it appears in the code (the `Request`
  entity is not part of this model). The model lists a request's items in
  store order, by ascending item id, and every request reply inherits that
  order.
- ItemService.ItemsOf: `findAllByOwnerId` fixes no order. The model pages
  the owner's items in store order.
- UserService.GetAllUsers: `findAll()` fixes no order. The model lists the
  users in store order, by ascending id.
- ItemRequestService.OthersRequests: `findAllByRequesterIdIsNot` is given a
  `PageRequest` without a `Sort`, so it fixes no order. The model lists the
  requests in store order, by ascending id.
- ItemRequestService.GetAllItemRequest: its pages are cut from
  `OthersRequests`, so their ascending id order is the model's store order,
  not a promise of the query.
- BookingService.SaveBooking, ItemService.UpdateItem: for a null id,
  `findById(null)` fails inside the Spring Data repository proxy, which
  reports an `InvalidDataAccessApiUsageException` wrapping the
  `IllegalArgumentException`. The model names this error `IllegalArgument`.
  For `UpdateItem`, `ItemController.updateItem` sets the id from the path
  first, so only a direct call of the service reaches this case.
- ItemRequestService.GetItemRequest: the root copy's `findAllByRequestorId`
  fixes no order. The model reads it as the server's id-ascending query.
  The root copy also calls `findAllByRequestorId` and
  `findAllByRequestorIdIsNot`, which the root repository interface does not
  declare (it declares the `Requester` names). They are modelled as the
  declared queries.

## Findings

| source | as written | input that shows it | evidently intended | confidence | as-written member | corrected member |
|---|---|---|---|---|---|---|
| server/src/main/java/ru/practicum/shareit/request/service/ItemRequestServiceIml.java:62-67 | the paging check refuses a zero size only when the offset is also zero, then computes `from / size` | a known user with `from = 1`, `size = 0` gets an `ArithmeticException` (division by zero) | a zero size is refused with the paging error, as `from == 0 && size == 0` already is | medium (not executed) | ItemRequestService.GetAllItemRequestAsWritten, ItemRequestService.ZeroSizeDividesByZero | ItemRequestService.GetAllItemRequest |
| src/main/java/ru/practicum/shareit/request/service/ItemRequestServiceIml.java:68-74 | the same check in the root copy, with `BadRequestException` | a known user with `from = 1`, `size = 0` gets an `ArithmeticException`; over HTTP, `RequestController`'s `@Positive size` refuses size 0 first, so only a direct call of the service reaches it | a zero size is refused with `BadRequestException` | medium (not executed) | ItemRequestService.GetAllItemRequestAsWritten, ItemRequestService.ZeroSizeDividesByZero | ItemRequestService.GetAllItemRequest |
