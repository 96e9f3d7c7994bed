/**
 * Projections between item requests and their transfer objects
 * (`request.mappers.RequestMapper`).
 */
module RequestMapper {
  import opened Wrappers
  import opened Domain
  import opened ItemMapper
  import Store

  /**
   * A new request of `user`: only the description comes from the transfer
   * object; the id and the creation time are left unset for the service and
   * the database to fill in.
   */
  function ToItemRequest(user: User, d: RequestDto): (req: Request)
    ensures req.description == d.description && req.requesterId == user.id
    ensures req.id == None && req.created == None
  {
    Request(None, d.description, user.id, None)
  }

  /** The short reply for a request: id, description and creation time. */
  function ToItemRequestDto(req: Request): (d: RequestDto)
    ensures d.id == req.id && d.description == req.description && d.created == req.created
  {
    RequestDto(req.id, req.description, req.created)
  }

  /**
   * A request built from a transfer object and mapped back keeps the
   * description and nothing else: id and creation time come back unset.
   */
  lemma DescriptionSurvivesRoundTrip(user: User, d: RequestDto)
    ensures ToItemRequestDto(ToItemRequest(user, d)) == RequestDto(None, d.description, None)
  {
  }

  /**
   * `request.getItems()`: the items that answer a stored request, in store
   * order. The association is the item's `request` column, so an unsaved
   * request has none.
   */
  function RequestItems(db: Db, req: Request): (r: seq<Item>)
    ensures forall x :: x in r <==> x in db.items.Values && req.id.Some? && x.request == req.id
  {
    Store.Filter(Store.Rows(db.items), (x: Item) => req.id.Some? && x.request == req.id)
  }

  /** Each listed item, by position, names the request. */
  lemma RequestItemsAnswer(db: Db, req: Request)
    ensures forall j :: 0 <= j < |RequestItems(db, req)| ==> RequestItems(db, req)[j].request == req.id
  {
    var r := RequestItems(db, req);
    forall j | 0 <= j < |r|
      ensures r[j].request == req.id
    {
      assert r[j] in r;
    }
  }

  /**
   * The long reply for a request: id, description and creation time, and
   * the short form of each of `items`, in their order.
   */
  function ToRequestDtoWithRequest(req: Request, items: seq<Item>): (d: RequestDtoWithRequest)
    ensures d.id == req.id && d.description == req.description && d.created == req.created
    ensures |d.items| == |items|
    ensures forall j :: 0 <= j < |items| ==> d.items[j] == ToItemDtoReq(items[j])
  {
    RequestDtoWithRequest(req.id, req.description, req.created, ToItemDtoList(items))
  }
}
