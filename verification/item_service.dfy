/**
 * The item operations (`item.service.ItemServiceImpl`): creating and
 * patching items, the item page with its comments and its owner's last and
 * next bookings, the owner's item list, and posting a comment.
 *
 * `now` stands for the clock readings, `saveTime` for the comment's
 * timestamp, `freshId` for the key the database generates.
 */
module ItemService {
  import opened Wrappers
  import opened Domain
  import Store
  import opened BookingRepository
  import opened BookingMapper
  import opened ItemMapper
  import opened CommentMapper

  // ------------------------------------------------------------- create

  /** The row `saveItem` stores: the caller owns it and it answers `d.requestId`. */
  function NewItem(user: User, d: ItemDto): (item: Item)
    requires Complete(d)
    ensures item.ownerId == user.id && item.request == d.requestId && item.id == d.id
    ensures item.name == d.name.value && item.description == d.description.value
    ensures item.available == d.available.value
  {
    ToItem(user, d).(ownerId := user.id, request := d.requestId)
  }

  /**
   * `saveItem`: an unknown caller fails; otherwise the item is stored with
   * the caller as owner and the request's `requestId`, whatever `ownerId`
   * the request names. A request without an id creates a row under the
   * generated key.
   */
  function SaveItem(db: Db, d: ItemDto, userId: int, freshId: int): (r: Result<Commit<ItemDto>>)
    requires Consistent(db) && freshId !in db.items && Complete(d)
    ensures r.Err? <==> userId !in db.users
    ensures r.Err? ==> r.error == UserNotFound
    ensures r.Ok? ==> var k := SavedKey(d.id, db.items.Keys, freshId);
                      r.value.db == db.(items := db.items[k := Item(Some(k), d.name.value, d.description.value,
                                                                    userId, d.available.value, d.requestId)])
    ensures r.Ok? && d.id.None? ==> freshId in r.value.db.items && r.value.reply.id == Some(freshId)
    ensures r.Ok? ==> r.value.reply.requestId == d.requestId && r.value.reply.ownerId == None
                      && r.value.reply.name == d.name && r.value.reply.available == d.available
    ensures r.Ok? ==> r.value.reply.id == IdAfterSave(d.id, freshId) && r.value.reply.description == d.description
  {
    if userId !in db.users then Err(UserNotFound)
    else
      var item := NewItem(db.users[userId], d);
      var k := SavedKey(item.id, db.items.Keys, freshId);
      var after := item.(id := IdAfterSave(item.id, freshId));
      Ok(Commit(db.(items := db.items[k := item.(id := Some(k))]), ToItemDto(after)))
  }

  /** Saving an item keeps every row well-formed. */
  lemma SaveItemKeepsConsistent(db: Db, d: ItemDto, userId: int, freshId: int)
    requires Consistent(db) && freshId !in db.items && Complete(d)
    requires SaveItem(db, d, userId, freshId).Ok?
    ensures Consistent(SaveItem(db, d, userId, freshId).value.db)
  {
    var db' := SaveItem(db, d, userId, freshId).value.db;
    assert db'.items.Keys >= db.items.Keys;
    forall k | k in db'.bookings
      ensures BookingRowOk(db', k)
    {
      assert BookingRowOk(db, k);
    }
    forall k | k in db'.comments
      ensures CommentRowOk(db', k)
    {
      assert CommentRowOk(db, k);
    }
  }

  // -------------------------------------------------------------- patch

  /**
   * `itemUpdate`: name, description and availability are replaced where the
   * request carries them and kept where it does not; a carried owner id
   * must name a stored user, and then replaces the owner. Id and request
   * never change.
   */
  function ItemUpdate(db: Db, item: Item, d: ItemDto): (r: Result<Item>)
    requires Consistent(db)
    ensures r.Err? <==> d.ownerId.Some? && d.ownerId.value !in db.users
    ensures r.Err? ==> r.error == UserNotFound
    ensures r.Ok? ==> r.value == Item(item.id, d.name.GetOr(item.name), d.description.GetOr(item.description),
                                      d.ownerId.GetOr(item.ownerId), d.available.GetOr(item.available), item.request)
  {
    var named := if d.name.Some? then item.(name := d.name.value) else item;
    var described := if d.description.Some? then named.(description := d.description.value) else named;
    var flagged := if d.available.Some? then described.(available := d.available.value) else described;
    if d.ownerId.None? then Ok(flagged)
    else if d.ownerId.value !in db.users then Err(UserNotFound)
    else Ok(flagged.(ownerId := db.users[d.ownerId.value].id))
  }

  /**
   * `updateItem`: the item must exist and belong to the caller (both
   * failures read as a missing item), then the patch applies; on every
   * failure nothing is stored. A request without an item id cannot be
   * looked up.
   */
  function UpdateItem(db: Db, d: ItemDto, userId: int): (r: Result<Commit<ItemDto>>)
    requires Consistent(db)
    ensures d.id.None? ==> r == Err(IllegalArgument)
    ensures d.id.Some? && d.id.value !in db.items ==> r == Err(ItemNotFound)
    ensures d.id.Some? && d.id.value in db.items && db.items[d.id.value].ownerId != userId ==> r == Err(ItemNotFound)
    ensures (d.id.Some? && d.id.value in db.items && db.items[d.id.value].ownerId == userId
             && d.ownerId.Some? && d.ownerId.value !in db.users) ==> r == Err(UserNotFound)
    ensures r.Ok? <==> d.id.Some? && d.id.value in db.items && db.items[d.id.value].ownerId == userId
                       && (d.ownerId.Some? ==> d.ownerId.value in db.users)
    ensures r.Ok? ==> var prev := db.items[d.id.value];
                      var patched := Item(prev.id, d.name.GetOr(prev.name), d.description.GetOr(prev.description),
                                          d.ownerId.GetOr(prev.ownerId), d.available.GetOr(prev.available), prev.request);
                      r.value.db == db.(items := db.items[d.id.value := patched])
                      && r.value.reply == ToItemDto(patched)
  {
    if d.id.None? then Err(IllegalArgument)
    else if d.id.value !in db.items then Err(ItemNotFound)
    else
      var item := db.items[d.id.value];
      if item.ownerId != userId then Err(ItemNotFound)
      else
        match ItemUpdate(db, item, d)
        case Err(e) => Err(e)
        case Ok(saved) =>
          StoredItemId(db, d.id.value);
          Ok(Commit(db.(items := db.items[d.id.value := saved]), ToItemDto(saved)))
  }

  /** Patching an item keeps every row well-formed. */
  lemma UpdateItemKeepsConsistent(db: Db, d: ItemDto, userId: int)
    requires Consistent(db)
    requires UpdateItem(db, d, userId).Ok?
    ensures Consistent(UpdateItem(db, d, userId).value.db)
  {
    var db' := UpdateItem(db, d, userId).value.db;
    StoredItemId(db, d.id.value);
    forall k | k in db'.bookings
      ensures BookingRowOk(db', k)
    {
      assert BookingRowOk(db, k);
    }
    forall k | k in db'.comments
      ensures CommentRowOk(db', k)
    {
      assert CommentRowOk(db, k);
    }
  }

  /**
   * Sending the same patch twice changes nothing more, unless the first
   * one handed the item to another user: then the caller no longer owns it
   * and the second attempt fails as a missing item.
   */
  lemma UpdateItemTwice(db: Db, d: ItemDto, userId: int)
    requires Consistent(db)
    requires UpdateItem(db, d, userId).Ok?
    ensures var db' := UpdateItem(db, d, userId).value.db;
            Consistent(db')
            && (d.ownerId.None? || d.ownerId == Some(userId) ==> UpdateItem(db', d, userId) == UpdateItem(db, d, userId))
            && (d.ownerId.Some? && d.ownerId != Some(userId) ==> UpdateItem(db', d, userId) == Err(ItemNotFound))
  {
    UpdateItemKeepsConsistent(db, d, userId);
    var db' := UpdateItem(db, d, userId).value.db;
    if d.ownerId.None? || d.ownerId == Some(userId) {
      var prev := db.items[d.id.value];
      var patched := db'.items[d.id.value];
      assert patched == Item(prev.id, d.name.GetOr(prev.name), d.description.GetOr(prev.description),
                             d.ownerId.GetOr(prev.ownerId), d.available.GetOr(prev.available), prev.request);
      assert db'.items[d.id.value := patched] == db'.items;
    }
  }

  /** A patch that carries nothing stores the item unchanged. */
  lemma EmptyPatchKeepsItem(db: Db, id: int, userId: int)
    requires Consistent(db)
    requires id in db.items && db.items[id].ownerId == userId
    ensures var d := ItemDto(Some(id), None, None, None, None, None, None, None, None);
            UpdateItem(db, d, userId).Ok? && UpdateItem(db, d, userId).value.db == db
  {
    var d := ItemDto(Some(id), None, None, None, None, None, None, None, None);
    assert db.items[id := db.items[id]] == db.items;
  }

  // --------------------------------------------------- last and next

  /** A booking that can be shown as an item's last or next one. */
  ghost predicate Shown(db: Db, b: Booking, itemId: int) {
    b in db.bookings.Values && OfItemNotLike(b, itemId, Status.Rejected)
  }

  /**
   * The `next` half of `addLastAndNextDateTimeForBookingToItem`: a
   * non-rejected booking of the item that starts after `now` and starts
   * first, absent when none does.
   */
  function NextBooking(db: Db, itemId: int, now: int): (r: Option<BookingDtoShort>)
    ensures r.None? <==> forall b :: Shown(db, b, itemId) ==> b.start <= now
    ensures r.Some? ==> exists b :: && Shown(db, b, itemId) && b.start > now
                                    && r.value == ToBookingDtoShort(b)
                                    && forall c :: Shown(db, c, itemId) && c.start > now ==> b.start <= c.start
  {
    var next := NextStartingAfter(db, itemId, now, Status.Rejected);
    if next.Some? then Some(ToBookingDtoShort(next.value)) else None
  }

  /**
   * The `last` half: a non-rejected booking of the item that started before
   * `now` and started last, absent when none did. A booking starting exactly
   * at `now` is neither last nor next.
   */
  function LastBooking(db: Db, itemId: int, now: int): (r: Option<BookingDtoShort>)
    ensures r.None? <==> forall b :: Shown(db, b, itemId) ==> b.start >= now
    ensures r.Some? ==> exists b :: && Shown(db, b, itemId) && b.start < now
                                    && r.value == ToBookingDtoShort(b)
                                    && forall c :: Shown(db, c, itemId) && c.start < now ==> c.start <= b.start
  {
    var last := LastStartedBefore(db, itemId, now, Status.Rejected);
    if last.Some? then Some(ToBookingDtoShort(last.value)) else None
  }

  /** `addLastAndNextDateTimeForBookingToItem`: fills in both, nothing else. */
  function WithLastAndNext(db: Db, d: ItemDto, now: int): (r: ItemDto)
    requires d.id.Some?
    ensures r.nextBooking == NextBooking(db, d.id.value, now) && r.lastBooking == LastBooking(db, d.id.value, now)
    ensures r.id == d.id && r.name == d.name && r.description == d.description && r.ownerId == d.ownerId
    ensures r.available == d.available && r.requestId == d.requestId && r.comments == d.comments
  {
    d.(nextBooking := NextBooking(db, d.id.value, now), lastBooking := LastBooking(db, d.id.value, now))
  }

  // ------------------------------------------------------------ comments

  /** `commentRepository.findAllByItemId`: the item's comments in store order. */
  function CommentsOf(db: Db, itemId: int): (r: seq<Comment>)
    ensures forall c :: c in r <==> c in db.comments.Values && c.itemId == itemId
  {
    Store.Filter(Store.Rows(db.comments), (c: Comment) => c.itemId == itemId)
  }

  lemma StoredCommentResolves(db: Db, c: Comment)
    requires Consistent(db) && c in db.comments.Values
    ensures c.id.Some? && c.id.value in db.comments && db.comments[c.id.value] == c
    ensures c.authorId in db.users && WrittenBy(c, db.users[c.authorId])
  {
    Store.ValueHasKey(db.comments, c);
    var k :| k in db.comments && db.comments[k] == c;
    assert CommentRowOk(db, k);
  }

  /** The replies for stored comments, each with its author's name. */
  function CommentReplies(db: Db, cs: seq<Comment>): (ds: seq<CommentDto>)
    requires Consistent(db) && forall c :: c in cs ==> c in db.comments.Values
    ensures |ds| == |cs|
    ensures forall i :: 0 <= i < |cs| ==> (ds[i].id == cs[i].id && ds[i].text == cs[i].text
                                         && ds[i].created == Some(cs[i].created))
    ensures forall i :: 0 <= i < |cs| ==>
              cs[i].authorId in db.users && ds[i] == ToCommentDto(cs[i], db.users[cs[i].authorId])
  {
    if cs == [] then []
    else
      StoredCommentResolves(db, cs[0]);
      [ToCommentDto(cs[0], db.users[cs[0].authorId])] + CommentReplies(db, cs[1..])
  }

  /**
   * Each reply is the reply for a stored comment on `itemId`, with its
   * author's name.
   */
  ghost predicate CommentRepliesAreStored(db: Db, itemId: int, ds: seq<CommentDto>)
    requires Consistent(db)
  {
    forall j :: 0 <= j < |ds| ==>
      && ds[j].id.Some? && ds[j].id.value in db.comments
      && db.comments[ds[j].id.value].itemId == itemId
      && CommentRowOk(db, ds[j].id.value)
      && ds[j] == ToCommentDto(db.comments[ds[j].id.value], db.users[db.comments[ds[j].id.value].authorId])
  }

  lemma ItemCommentRepliesAreStored(db: Db, itemId: int)
    requires Consistent(db)
    ensures CommentRepliesAreStored(db, itemId, CommentReplies(db, CommentsOf(db, itemId)))
  {
    var cs := CommentsOf(db, itemId);
    var ds := CommentReplies(db, cs);
    forall j | 0 <= j < |ds|
      ensures ds[j].id.Some? && ds[j].id.value in db.comments
      ensures db.comments[ds[j].id.value].itemId == itemId
      ensures CommentRowOk(db, ds[j].id.value)
      ensures ds[j] == ToCommentDto(db.comments[ds[j].id.value], db.users[db.comments[ds[j].id.value].authorId])
    {
      assert cs[j] in cs;
      StoredCommentResolves(db, cs[j]);
    }
  }

  function CommentIds(ds: seq<CommentDto>): (r: set<Option<int>>)
    ensures forall x :: x in r <==> exists i :: 0 <= i < |ds| && ds[i].id == x
  {
    set i | 0 <= i < |ds| :: ds[i].id
  }

  // ---------------------------------------------------------- item page

  /**
   * `getItemById`: a missing item fails. The reply is the item with all of
   * its comments; the last and next bookings are filled in for the owner
   * only.
   */
  function GetItemById(db: Db, userId: int, itemId: int, now: int): (r: Result<ItemDto>)
    requires Consistent(db)
    ensures r.Err? <==> itemId !in db.items
    ensures r.Err? ==> r.error == ItemNotFound
    ensures r.Ok? ==> r.value.id == Some(itemId) && r.value.name == Some(db.items[itemId].name)
                      && r.value.description == Some(db.items[itemId].description)
                      && r.value.available == Some(db.items[itemId].available)
                      && r.value.requestId == db.items[itemId].request
    ensures r.Ok? && db.items[itemId].ownerId != userId ==> r.value.lastBooking == None && r.value.nextBooking == None
    ensures r.Ok? && db.items[itemId].ownerId == userId ==>
              r.value.nextBooking == NextBooking(db, itemId, now) && r.value.lastBooking == LastBooking(db, itemId, now)
    ensures r.Ok? ==> r.value.comments.Some?
                      && forall k :: (k in db.comments && db.comments[k].itemId == itemId)
                                     <==> Some(k) in CommentIds(r.value.comments.value)
    ensures r.Ok? ==> CommentRepliesAreStored(db, itemId, r.value.comments.value)
  {
    if itemId !in db.items then Err(ItemNotFound)
    else
      var item := db.items[itemId];
      StoredItemId(db, itemId);
      var comments := CommentsOf(db, itemId);
      var dto := ToItemDto(item);
      var shown := if item.ownerId == userId then WithLastAndNext(db, dto, now) else dto;
      var replies := CommentReplies(db, comments);
      RepliesNameComments(db, itemId);
      ItemCommentRepliesAreStored(db, itemId);
      Ok(shown.(comments := Some(replies)))
  }

  /** The replies for an item's comments name exactly its stored comments. */
  lemma RepliesNameComments(db: Db, itemId: int)
    requires Consistent(db)
    ensures forall k :: (k in db.comments && db.comments[k].itemId == itemId)
                        <==> Some(k) in CommentIds(CommentReplies(db, CommentsOf(db, itemId)))
  {
    var comments := CommentsOf(db, itemId);
    var replies := CommentReplies(db, comments);
    forall k | k in db.comments && db.comments[k].itemId == itemId
      ensures Some(k) in CommentIds(replies)
    {
      CommentIsListed(db, itemId, k);
    }
    forall k | Some(k) in CommentIds(replies)
      ensures k in db.comments && db.comments[k].itemId == itemId
    {
      ListedIsComment(db, itemId, k);
    }
  }

  lemma ListedIsComment(db: Db, itemId: int, k: int)
    requires Consistent(db) && Some(k) in CommentIds(CommentReplies(db, CommentsOf(db, itemId)))
    ensures k in db.comments && db.comments[k].itemId == itemId
  {
    var comments := CommentsOf(db, itemId);
    var replies := CommentReplies(db, comments);
    var i :| 0 <= i < |replies| && replies[i].id == Some(k);
    assert comments[i] in comments;
    StoredCommentResolves(db, comments[i]);
  }

  lemma CommentIsListed(db: Db, itemId: int, k: int)
    requires Consistent(db) && k in db.comments && db.comments[k].itemId == itemId
    ensures Some(k) in CommentIds(CommentReplies(db, CommentsOf(db, itemId)))
  {
    var comments := CommentsOf(db, itemId);
    var replies := CommentReplies(db, comments);
    assert CommentRowOk(db, k);
    assert db.comments[k] in db.comments.Values;
    var i :| 0 <= i < |comments| && comments[i] == db.comments[k];
    assert replies[i].id == Some(k);
  }

  // ------------------------------------------------------ owner's items

  /** `itemRepository.findAllByOwnerId`: the owner's items in store order. */
  function ItemsOf(db: Db, ownerId: int): (r: seq<Item>)
    ensures forall x :: x in r <==> x in db.items.Values && x.ownerId == ownerId
  {
    Store.Filter(Store.Rows(db.items), (x: Item) => x.ownerId == ownerId)
  }

  /**
   * `getItemsByUser`: an unknown caller fails; then `PageRequest.of(from /
   * size, size)` is built with Java's truncating division, which fails when
   * `size` is 0 and refuses a negative page or a size below one. So a
   * negative `from` above `-size` still reads the first page. The reply is
   * that page of the caller's items, in order, each with its last and next
   * bookings.
   */
  function GetItemsByUser(db: Db, userId: int, from: int, size: int, now: int): (r: Result<seq<ItemDto>>)
    requires Consistent(db)
    ensures userId !in db.users ==> r == Err(UserNotFound)
    ensures userId in db.users && size == 0 ==> r == Err(Arithmetic)
    ensures userId in db.users && (size < 0 || (size > 0 && from <= -size)) ==> r == Err(IllegalArgument)
    ensures r.Ok? <==> userId in db.users && size > 0 && from > -size
    ensures r.Ok? ==> var page := Store.Page(ItemsOf(db, userId), Store.PageOf(from, size), size);
                      |r.value| == |page|
                      && forall i :: 0 <= i < |page| ==> (page[i].id.Some?
                                                          && r.value[i] == WithLastAndNext(db, ToItemDto(page[i]), now))
  {
    if userId !in db.users then Err(UserNotFound)
    else if size == 0 then Err(Arithmetic)
    else if size < 1 then
      Err(IllegalArgument)
    else
      var page := Store.JavaDiv(from, size);
      Store.JavaDivByPositive(from, size);
      if page < 0 then Err(IllegalArgument)
      else
        var items := Store.Page(ItemsOf(db, userId), Store.PageOf(from, size), size);
        OwnedItemsHaveIds(db, userId, items);
        Ok(seq(|items|, i requires 0 <= i < |items| => WithLastAndNext(db, ToItemDto(items[i]), now)))
  }

  lemma OwnedItemsHaveIds(db: Db, userId: int, items: seq<Item>)
    requires Consistent(db)
    requires forall x :: x in items ==> x in db.items.Values
    ensures forall i :: 0 <= i < |items| ==> items[i].id.Some?
  {
    forall i | 0 <= i < |items|
      ensures items[i].id.Some?
    {
      assert items[i] in items;
      Store.ValueHasKey(db.items, items[i]);
    }
  }

  /**
   * Every entry of the caller's item list is one of the caller's stored
   * items, shown with its stored name, description and availability.
   */
  lemma ItemsByUserAreOwned(db: Db, userId: int, from: int, size: int, now: int)
    requires Consistent(db) && GetItemsByUser(db, userId, from, size, now).Ok?
    ensures var ds := GetItemsByUser(db, userId, from, size, now).value;
            forall i :: 0 <= i < |ds| ==> (
              && ds[i].id.Some? && ds[i].id.value in db.items
              && db.items[ds[i].id.value].ownerId == userId
              && ds[i].name == Some(db.items[ds[i].id.value].name)
              && ds[i].description == Some(db.items[ds[i].id.value].description)
              && ds[i].available == Some(db.items[ds[i].id.value].available))
  {
    var ds := GetItemsByUser(db, userId, from, size, now).value;
    var page := Store.Page(ItemsOf(db, userId), Store.PageOf(from, size), size);
    forall i | 0 <= i < |ds|
      ensures ds[i].id.Some? && ds[i].id.value in db.items && db.items[ds[i].id.value] == page[i]
    {
      assert page[i] in ItemsOf(db, userId);
      Store.ValueHasKey(db.items, page[i]);
      var k :| k in db.items && db.items[k] == page[i];
      StoredItemId(db, k);
    }
  }

  /**
   * A negative offset above `-size` truncates to page 0, so it reads the
   * same list as offset 0.
   */
  lemma NegativeOffsetReadsFirstPage(db: Db, userId: int, from: int, size: int, now: int)
    requires Consistent(db) && -size < from < 0
    ensures GetItemsByUser(db, userId, from, size, now) == GetItemsByUser(db, userId, 0, size, now)
  {
  }

  // -------------------------------------------------------- post comment

  /**
   * The booking that entitles `userId` to comment: their own booking that
   * has started by `now` (it may still be running, or even waiting) and was
   * not rejected.
   */
  predicate EntitlesToComment(b: Booking, userId: int, now: int) {
    b.bookerId == userId && !(b.start > now) && b.status != Some(Status.Rejected)
  }

  /**
   * `postComment`: empty text is refused before anything is looked up, then
   * the author and the item must exist, then the author must hold a booking
   * of the item that entitles them to comment. The comment is stored with
   * `saveTime` as its creation time.
   */
  function PostComment(db: Db, userId: int, itemId: int, d: CommentDto, now: int, saveTime: int, freshId: int)
    : (r: Result<Commit<CommentDto>>)
    requires Consistent(db) && freshId !in db.comments
    ensures d.text == [] ==> r == Err(InCorrectBooking)
    ensures d.text != [] && userId !in db.users ==> r == Err(UserNotFound)
    ensures d.text != [] && userId in db.users && itemId !in db.items ==> r == Err(ItemNotFound)
    ensures (d.text != [] && userId in db.users && itemId in db.items
             && forall b :: b in db.bookings.Values && b.itemId == itemId ==> !EntitlesToComment(b, userId, now))
            ==> r == Err(ItemUnavailable)
    ensures r.Ok? <==> d.text != [] && userId in db.users && itemId in db.items
                       && exists b :: b in db.bookings.Values && b.itemId == itemId && EntitlesToComment(b, userId, now)
    ensures r.Ok? ==> var k := SavedKey(d.id, db.comments.Keys, freshId);
                      r.value.db == db.(comments := db.comments[k := Comment(Some(k), d.text, saveTime, userId, itemId)])
    ensures r.Ok? ==> r.value.reply == CommentDto(IdAfterSave(d.id, freshId), d.text, Some(saveTime), db.users[userId].name)
  {
    if d.text == [] then Err(InCorrectBooking)
    else if userId !in db.users then Err(UserNotFound)
    else if itemId !in db.items then Err(ItemNotFound)
    else
      var user := db.users[userId];
      var item := db.items[itemId];
      StoredItemId(db, itemId);
      var entitling := Store.Filter(AllBookings(db), (b: Booking) => b.itemId == itemId && EntitlesToComment(b, userId, now));
      if entitling == [] then
        assert forall b :: b in db.bookings.Values && b.itemId == itemId ==> !EntitlesToComment(b, userId, now) by {
          forall b | b in db.bookings.Values && b.itemId == itemId
            ensures !EntitlesToComment(b, userId, now)
          {
            assert b in AllBookings(db);
          }
        }
        Err(ItemUnavailable)
      else
        assert entitling[0] in entitling;
        var comment := ToComment(user, item, d, saveTime).(itemId := itemId, created := saveTime);
        var k := SavedKey(comment.id, db.comments.Keys, freshId);
        Ok(Commit(db.(comments := db.comments[k := comment.(id := Some(k))]),
                  ToCommentDto(comment.(id := IdAfterSave(comment.id, freshId)), user)))
  }

  /** Posting a comment keeps every row well-formed. */
  lemma PostCommentKeepsConsistent(db: Db, userId: int, itemId: int, d: CommentDto, now: int, saveTime: int, freshId: int)
    requires Consistent(db) && freshId !in db.comments
    requires PostComment(db, userId, itemId, d, now, saveTime, freshId).Ok?
    ensures Consistent(PostComment(db, userId, itemId, d, now, saveTime, freshId).value.db)
  {
    var k := SavedKey(d.id, db.comments.Keys, freshId);
    StoreCommentKeepsConsistent(db, k, Comment(Some(k), d.text, saveTime, userId, itemId));
  }

  /** Storing a comment whose author and item exist, under its own id. */
  lemma StoreCommentKeepsConsistent(db: Db, k: int, c: Comment)
    requires Consistent(db) && c.id == Some(k) && c.authorId in db.users && c.itemId in db.items
    ensures Consistent(db.(comments := db.comments[k := c]))
  {
    var db' := db.(comments := db.comments[k := c]);
    forall b | b in db'.bookings
      ensures BookingRowOk(db', b)
    {
      assert BookingRowOk(db, b);
    }
    forall j | j in db'.comments
      ensures CommentRowOk(db', j)
    {
      if j != k {
        assert CommentRowOk(db, j);
      }
    }
  }
}
