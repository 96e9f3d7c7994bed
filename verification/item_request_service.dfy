/**
 * The item-request service (`request.service.ItemRequestServiceIml`).
 *
 * The repository holds two copies of this service: one in the `server`
 * module and an older one at the root. They do the same thing, except that
 * bad paging parameters raise `MethodArgumentNotValidException` in the
 * server copy and `BadRequestException` in the root copy; `Copy` selects
 * which.
 */
module ItemRequestService {
  import opened Wrappers
  import opened Domain
  import opened ItemMapper
  import opened RequestMapper
  import Store

  datatype Copy = Server | Root

  /** The exception each copy raises for bad paging parameters. */
  function PagingError(c: Copy): Error {
    match c
    case Server => MethodArgumentNotValid
    case Root => BadRequest
  }

  // ------------------------------------------------------------- replies

  /**
   * The loop over a reply's items that sets each item's `requestId`; the
   * rest of the reply is untouched.
   */
  function Stamp(d: RequestDtoWithRequest, id: Option<int>): (r: RequestDtoWithRequest)
    ensures r.id == d.id && r.description == d.description && r.created == d.created
    ensures |r.items| == |d.items|
    ensures forall j :: 0 <= j < |d.items| ==> r.items[j] == d.items[j].(requestId := id)
  {
    d.(items := seq(|d.items|, j requires 0 <= j < |d.items| => d.items[j].(requestId := id)))
  }

  /** The reply for a stored request, its items stamped with its id. */
  function Reply(db: Db, req: Request): RequestDtoWithRequest {
    Stamp(ToRequestDtoWithRequest(req, RequestItems(db, req)), req.id)
  }

  /** Every item of a reply names the reply's request. */
  ghost predicate Stamped(d: RequestDtoWithRequest) {
    forall j :: 0 <= j < |d.items| ==> d.items[j].requestId == d.id
  }

  /** The ids of the items a reply lists. */
  ghost function ListedIds(d: RequestDtoWithRequest): set<Option<int>> {
    set j | 0 <= j < |d.items| :: d.items[j].id
  }

  /** The keys of the stored items that answer request `id`. */
  ghost function AnswerKeys(db: Db, id: int): set<int> {
    set k | k in db.items && db.items[k].request == Some(id)
  }

  /**
   * The reply for a stored request lists exactly the items that answer it.
   */
  lemma ReplyListsAnswers(db: Db, k: int)
    requires Consistent(db) && k in db.requests
    ensures forall a :: a in AnswerKeys(db, k) ==> Some(a) in ListedIds(Reply(db, db.requests[k]))
    ensures forall o :: o in ListedIds(Reply(db, db.requests[k])) ==> o.Some? && o.value in AnswerKeys(db, k)
  {
    var d := Reply(db, db.requests[k]);
    forall a | a in AnswerKeys(db, k)
      ensures Some(a) in ListedIds(d)
    {
      AnswerIsListed(db, k, a);
    }
    forall o | o in ListedIds(d)
      ensures o.Some? && o.value in AnswerKeys(db, k)
    {
      ListedIdIsAnswer(db, k, o);
    }
  }

  /** The items of a reply all name the reply's request. */
  lemma ReplyIsStamped(db: Db, req: Request)
    ensures Stamped(Reply(db, req))
  {
  }

  lemma ListedIdIsAnswer(db: Db, k: int, o: Option<int>)
    requires Consistent(db) && k in db.requests && o in ListedIds(Reply(db, db.requests[k]))
    ensures o.Some? && o.value in AnswerKeys(db, k)
  {
    var d := Reply(db, db.requests[k]);
    var j :| 0 <= j < |d.items| && d.items[j].id == o;
    ListedIsAnswer(db, k, j);
  }

  lemma AnswerIsListed(db: Db, k: int, a: int)
    requires Consistent(db) && k in db.requests && a in AnswerKeys(db, k)
    ensures Some(a) in ListedIds(Reply(db, db.requests[k]))
  {
    var items := RequestItems(db, db.requests[k]);
    assert db.items[a] in db.items.Values;
    var j := Store.IndexOf(items, db.items[a]);
    StoredItemId(db, a);
    assert Reply(db, db.requests[k]).items[j].id == Some(a);
  }

  lemma ListedIsAnswer(db: Db, k: int, j: int)
    requires Consistent(db) && k in db.requests
    requires 0 <= j < |Reply(db, db.requests[k]).items|
    ensures var o := Reply(db, db.requests[k]).items[j].id;
            o.Some? && o.value in AnswerKeys(db, k)
  {
    var items := RequestItems(db, db.requests[k]);
    assert items[j] in items;
    Store.ValueHasKey(db.items, items[j]);
    var a :| a in db.items && db.items[a] == items[j];
    StoredItemId(db, a);
  }

  /**
   * Stamping changes nothing: the items of a request already carry its id,
   * because that is how they were found.
   */
  lemma {:induction false} StampingChangesNothing(db: Db, req: Request)
    ensures Reply(db, req) == ToRequestDtoWithRequest(req, RequestItems(db, req))
  {
    var items := RequestItems(db, req);
    RequestItemsAnswer(db, req);
    var d := ToRequestDtoWithRequest(req, items);
    var s := Stamp(d, req.id);
    assert s.items == d.items;
  }

  /** One reply per request, in the same order. */
  function Replies(db: Db, reqs: seq<Request>): (r: seq<RequestDtoWithRequest>)
    ensures |r| == |reqs|
    ensures forall i :: 0 <= i < |reqs| ==> r[i] == Reply(db, reqs[i])
  {
    seq(|reqs|, i requires 0 <= i < |reqs| => Reply(db, reqs[i]))
  }

  // ----------------------------------------------------------- ordering

  /** Every request has an id, and the ids strictly increase. */
  ghost predicate ById(s: seq<Request>) {
    && (forall i :: 0 <= i < |s| ==> s[i].id.Some?)
    && (forall i, j :: 0 <= i < j < |s| ==> s[i].id.value < s[j].id.value)
  }

  /** The store enumerates requests by ascending id. */
  lemma RowsAreById(db: Db)
    requires Consistent(db)
    ensures ById(Store.Rows(db.requests))
  {
    var keys := Store.AscendingKeys(db.requests.Keys);
    var rows := Store.Rows(db.requests);
    Store.RowsFollowKeys(db.requests);
    forall i | 0 <= i < |rows|
      ensures rows[i].id == Some(keys[i])
    {
      assert keys[i] in db.requests;
    }
    forall i, j | 0 <= i < j < |rows|
      ensures rows[i].id.value < rows[j].id.value
    {
      assert keys[i] < keys[j];
    }
  }

  lemma {:induction false} FilterKeepsById(s: seq<Request>, p: Request -> bool)
    requires ById(s)
    ensures ById(Store.Filter(s, p))
  {
    if s != [] {
      var rest := Store.Filter(s[1..], p);
      assert ById(s[1..]) by {
        forall i, j | 0 <= i < j < |s[1..]|
          ensures s[1..][i].id.value < s[1..][j].id.value
        {
          assert s[1..][i] == s[i + 1] && s[1..][j] == s[j + 1];
        }
      }
      FilterKeepsById(s[1..], p);
      if p(s[0]) {
        forall x | x in rest
          ensures s[0].id.value < x.id.value
        {
          var j :| 0 <= j < |s[1..]| && s[1..][j] == x;
          assert s[j + 1] == x;
        }
        assert Store.Filter(s, p) == [s[0]] + rest;
      }
    }
  }

  /** A page of requests ordered by id is ordered by id. */
  lemma PageKeepsById(s: seq<Request>, page: nat, size: nat)
    requires size > 0 && ById(s)
    ensures ById(Store.Page(s, page, size))
  {
    var r := Store.Page(s, page, size);
    forall i, j | 0 <= i < j < |r|
      ensures r[i].id.value < r[j].id.value
    {
      assert r[i] == s[page * size + i] && r[j] == s[page * size + j];
    }
  }

  // ----------------------------------------------------------- requests

  /**
   * `findAllByRequesterIdOrderByIdAsc` (server) and `findAllByRequestorId`
   * (root): the requests `userId` made.
   */
  function OwnRequests(db: Db, userId: int): (r: seq<Request>)
    requires Consistent(db)
    ensures forall x :: x in r <==> x in db.requests.Values && x.requesterId == userId
    ensures ById(r)
  {
    RowsAreById(db);
    var p := (x: Request) => x.requesterId == userId;
    FilterKeepsById(Store.Rows(db.requests), p);
    Store.Filter(Store.Rows(db.requests), p)
  }

  /** `findAllByRequesterIdIsNot`: the requests other users made. */
  function OthersRequests(db: Db, userId: int): (r: seq<Request>)
    requires Consistent(db)
    ensures forall x :: x in r <==> x in db.requests.Values && x.requesterId != userId
    ensures ById(r)
  {
    RowsAreById(db);
    var p := (x: Request) => x.requesterId != userId;
    FilterKeepsById(Store.Rows(db.requests), p);
    Store.Filter(Store.Rows(db.requests), p)
  }

  /** A stored request is stored under its id. */
  lemma StoredRequestKey(db: Db, x: Request)
    requires Consistent(db) && x in db.requests.Values
    ensures x.id.Some? && x.id.value in db.requests && db.requests[x.id.value] == x
  {
    Store.ValueHasKey(db.requests, x);
  }

  // ---------------------------------------------------------- operations

  /**
   * `addItemRequest`: an unknown user fails with UserNotFound; otherwise the
   * request is stored under a new key with the user as requester and `now`
   * as its creation time, and the reply carries that key.
   */
  function AddItemRequest(db: Db, d: RequestDto, userId: int, now: int, freshId: int)
    : (r: Result<Commit<RequestDto>>)
    requires Consistent(db) && freshId !in db.requests
    ensures r.Err? <==> userId !in db.users
    ensures r.Err? ==> r.error == UserNotFound
    ensures r.Ok? ==> var db' := r.value.db;
                      && db' == db.(requests := db'.requests)
                      && db'.requests.Keys == db.requests.Keys + {freshId}
                      && (forall k :: k in db.requests ==> db'.requests[k] == db.requests[k])
                      && db'.requests[freshId].requesterId == userId
                      && db'.requests[freshId].created == Some(now)
                      && db'.requests[freshId].description == d.description
                      && r.value.reply == RequestDto(Some(freshId), d.description, Some(now))
  {
    if userId !in db.users then Err(UserNotFound)
    else
      var user := db.users[userId];
      var req := ToItemRequest(user, d).(requesterId := user.id, created := Some(now));
      var saved := req.(id := Some(freshId));
      Ok(Commit(db.(requests := db.requests[freshId := saved]), ToItemRequestDto(saved)))
  }

  /** Adding a request keeps every row well-formed. */
  lemma AddItemRequestKeepsConsistent(db: Db, d: RequestDto, userId: int, now: int, freshId: int)
    requires Consistent(db) && freshId !in db.requests
    requires AddItemRequest(db, d, userId, now, freshId).Ok?
    ensures Consistent(AddItemRequest(db, d, userId, now, freshId).value.db)
  {
    var db' := AddItemRequest(db, d, userId, now, freshId).value.db;
    forall k | k in db'.bookings
      ensures BookingRowOk(db', k)
    {
      assert BookingRowOk(db, k);
    }
    forall k | k in db'.comments
      ensures CommentRowOk(db', k)
    {
      assert CommentRowOk(db, k);
    }
  }

  /** Every reply names a request, and the request ids strictly increase. */
  ghost predicate IdsIncrease(rs: seq<RequestDtoWithRequest>) {
    && (forall i :: 0 <= i < |rs| ==> rs[i].id.Some?)
    && (forall i, j :: 0 <= i < j < |rs| ==> rs[i].id.value < rs[j].id.value)
  }

  /** Replies to requests ordered by id are ordered by id. */
  lemma RepliesKeepOrder(db: Db, reqs: seq<Request>)
    requires ById(reqs)
    ensures IdsIncrease(Replies(db, reqs))
  {
  }

  /** The reply at each position names the stored request at that position. */
  lemma RepliesNameStored(db: Db, reqs: seq<Request>)
    requires Consistent(db)
    requires forall x :: x in reqs ==> x in db.requests.Values
    ensures forall i :: 0 <= i < |reqs| ==> (
              && Replies(db, reqs)[i].id.Some?
              && Replies(db, reqs)[i].id.value in db.requests
              && db.requests[Replies(db, reqs)[i].id.value] == reqs[i])
  {
    forall i | 0 <= i < |reqs|
      ensures reqs[i].id.Some? && reqs[i].id.value in db.requests && db.requests[reqs[i].id.value] == reqs[i]
    {
      assert reqs[i] in reqs;
      StoredRequestKey(db, reqs[i]);
    }
  }

  /** A stored request of `userId` is answered in the replies to their requests. */
  lemma OwnRequestIsReplied(db: Db, userId: int, k: int)
    requires Consistent(db) && k in db.requests && db.requests[k].requesterId == userId
    ensures Reply(db, db.requests[k]) in Replies(db, OwnRequests(db, userId))
  {
    var own := OwnRequests(db, userId);
    assert db.requests[k] in db.requests.Values;
    var i := Store.IndexOf(own, db.requests[k]);
    assert Replies(db, own)[i] == Reply(db, db.requests[k]);
  }

  /**
   * `getItemRequest`: an unknown user fails with UserNotFound; otherwise
   * the replies for exactly the user's own requests, by ascending id.
   */
  function GetItemRequest(db: Db, userId: int): (r: Result<seq<RequestDtoWithRequest>>)
    requires Consistent(db)
    ensures r.Err? <==> userId !in db.users
    ensures r.Err? ==> r.error == UserNotFound
    ensures r.Ok? ==> forall i :: 0 <= i < |r.value| ==> (
                        && r.value[i].id.Some?
                        && r.value[i].id.value in db.requests
                        && db.requests[r.value[i].id.value].requesterId == userId
                        && r.value[i] == Reply(db, db.requests[r.value[i].id.value]))
    ensures r.Ok? ==> forall k :: k in db.requests && db.requests[k].requesterId == userId ==>
                        Reply(db, db.requests[k]) in r.value
    ensures r.Ok? ==> IdsIncrease(r.value)
  {
    if userId !in db.users then Err(UserNotFound)
    else
      var own := OwnRequests(db, userId);
      RepliesNameStored(db, own);
      RepliesKeepOrder(db, own);
      assert forall i :: 0 <= i < |own| ==> own[i] in own;
      forall k | k in db.requests && db.requests[k].requesterId == userId
        ensures Reply(db, db.requests[k]) in Replies(db, own)
      {
        OwnRequestIsReplied(db, userId, k);
      }
      Ok(Replies(db, own))
  }

  /**
   * `getAllItemRequest` as written: `from < 0`, `size < 0` and
   * `from == 0 && size == 0` are refused before the user is looked up, but
   * `from > 0 && size == 0` passes and the page number `from / size` then
   * divides by zero.
   */
  function GetAllItemRequestAsWritten(db: Db, c: Copy, userId: int, from: int, size: int)
    : (r: Result<seq<RequestDtoWithRequest>>)
    requires Consistent(db)
    ensures from < 0 || size < 0 || (from == 0 && size == 0) ==> r == Err(PagingError(c))
    ensures r == Err(Arithmetic) <==> from > 0 && size == 0 && userId in db.users
    ensures !(from < 0 || size < 0 || (from == 0 && size == 0)) && userId !in db.users ==> r == Err(UserNotFound)
    ensures r.Ok? <==> from >= 0 && size > 0 && userId in db.users
  {
    if from < 0 || size < 0 || (from == 0 && size == 0) then Err(PagingError(c))
    else if userId !in db.users then Err(UserNotFound)
    else if size == 0 then Err(Arithmetic)
    else Ok(Replies(db, Store.Page(OthersRequests(db, userId), Store.PageOf(from, size), size)))
  }

  /** Any known user asking for the second offset with page size 0 hits the division. */
  lemma ZeroSizeDividesByZero(db: Db, c: Copy, userId: int)
    requires Consistent(db) && userId in db.users
    ensures GetAllItemRequestAsWritten(db, c, userId, 1, 0) == Err(Arithmetic)
  {
  }

  /**
   * `getAllItemRequest` with the paging check it evidently intends: any
   * negative offset and any size below one are refused, before the user is
   * looked up. Then an unknown user fails with UserNotFound; otherwise the
   * reply is the requested page of other users' requests, by ascending id.
   */
  function GetAllItemRequest(db: Db, c: Copy, userId: int, from: int, size: int)
    : (r: Result<seq<RequestDtoWithRequest>>)
    requires Consistent(db)
    ensures from < 0 || size <= 0 ==> r == Err(PagingError(c))
    ensures from >= 0 && size > 0 && userId !in db.users ==> r == Err(UserNotFound)
    ensures r.Ok? <==> from >= 0 && size > 0 && userId in db.users
    ensures r.Ok? ==> var page := Store.Page(OthersRequests(db, userId), Store.PageOf(from, size), size);
                      |r.value| == |page| <= size
                      && forall i :: 0 <= i < |page| ==> r.value[i] == Reply(db, page[i])
    ensures r.Ok? ==> forall i :: 0 <= i < |r.value| ==> (
                        && r.value[i].id.Some?
                        && r.value[i].id.value in db.requests
                        && db.requests[r.value[i].id.value].requesterId != userId)
    ensures r.Ok? ==> IdsIncrease(r.value)
  {
    if from < 0 || size <= 0 then Err(PagingError(c))
    else if userId !in db.users then Err(UserNotFound)
    else
      var others := OthersRequests(db, userId);
      var page := Store.Page(others, Store.PageOf(from, size), size);
      PageKeepsById(others, Store.PageOf(from, size), size);
      RepliesNameStored(db, page);
      RepliesKeepOrder(db, page);
      assert forall i :: 0 <= i < |page| ==> page[i] in page;
      Ok(Replies(db, page))
  }

  /**
   * The corrected paging check changes the outcome only for a page size of
   * 0, which it refuses instead of dividing by it.
   */
  lemma CorrectionOnlyRefusesZeroSize(db: Db, c: Copy, userId: int, from: int, size: int)
    requires Consistent(db)
    ensures size != 0 ==> GetAllItemRequest(db, c, userId, from, size)
                          == GetAllItemRequestAsWritten(db, c, userId, from, size)
    ensures size == 0 ==> GetAllItemRequest(db, c, userId, from, size) == Err(PagingError(c))
  {
  }

  /**
   * `getRequestById`: an unknown user fails with UserNotFound, then an
   * unknown request with RequestNotFound. Any user may look at any request.
   * The items of the reply are stamped with the id asked for.
   */
  function GetRequestById(db: Db, userId: int, requestId: int): (r: Result<RequestDtoWithRequest>)
    requires Consistent(db)
    ensures userId !in db.users ==> r == Err(UserNotFound)
    ensures userId in db.users && requestId !in db.requests ==> r == Err(RequestNotFound)
    ensures r.Ok? <==> userId in db.users && requestId in db.requests
    ensures r.Ok? ==> && r.value.id == Some(requestId)
                      && r.value.description == db.requests[requestId].description
                      && r.value.created == db.requests[requestId].created
                      && |r.value.items| == |RequestItems(db, db.requests[requestId])|
                      && forall j :: 0 <= j < |r.value.items| ==> r.value.items[j].requestId == Some(requestId)
    ensures r.Ok? ==> r.value == Reply(db, db.requests[requestId])
  {
    if userId !in db.users then Err(UserNotFound)
    else if requestId !in db.requests then Err(RequestNotFound)
    else
      var req := db.requests[requestId];
      Ok(Stamp(ToRequestDtoWithRequest(req, RequestItems(db, req)), Some(requestId)))
  }

  /**
   * A request looked up by id reads the same as in its requester's own list.
   */
  lemma LookupMatchesOwnList(db: Db, userId: int, requestId: int)
    requires Consistent(db) && userId in db.users && requestId in db.requests
    ensures var requester := db.requests[requestId].requesterId;
            && GetItemRequest(db, requester).Ok?
            && GetRequestById(db, userId, requestId).value in GetItemRequest(db, requester).value
  {
    assert db.requests[requestId].id == Some(requestId);
  }

  /** A request just added shows up in its requester's own list. */
  lemma NewRequestIsListed(db: Db, d: RequestDto, userId: int, now: int, freshId: int)
    requires Consistent(db) && freshId !in db.requests
    requires AddItemRequest(db, d, userId, now, freshId).Ok?
    ensures var db' := AddItemRequest(db, d, userId, now, freshId).value.db;
            && Consistent(db')
            && GetItemRequest(db', userId).Ok?
            && Reply(db', db'.requests[freshId]) in GetItemRequest(db', userId).value
  {
    AddItemRequestKeepsConsistent(db, d, userId, now, freshId);
  }
}
