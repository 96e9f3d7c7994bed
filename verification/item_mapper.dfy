/**
 * Projections between items and their transfer objects
 * (`item.mapper.ItemMapper`).
 */
module ItemMapper {
  import opened Wrappers
  import opened Domain

  /**
   * The reply for an item: id, name, description and availability are
   * copied and the request the item answers becomes `requestId`; the owner,
   * the comments and the last and next bookings are left unset.
   */
  function ToItemDto(item: Item): (d: ItemDto)
    ensures d.id == item.id && d.name == Some(item.name) && d.description == Some(item.description)
    ensures d.available == Some(item.available) && d.requestId == item.request
    ensures d.ownerId == None && d.comments == None && d.lastBooking == None && d.nextBooking == None
  {
    ItemDto(
      id := item.id,
      name := Some(item.name),
      description := Some(item.description),
      ownerId := None,
      available := Some(item.available),
      requestId := item.request,
      comments := None,
      lastBooking := None,
      nextBooking := None)
  }

  /**
   * The fields an item can only be created with; the request body is
   * validated for them before the mapper sees it.
   */
  predicate Complete(d: ItemDto) {
    d.name.Some? && d.description.Some? && d.available.Some?
  }

  /**
   * A new item of `user`: id, name, description and availability come from
   * the request, the owner is `user` whatever the request says, and the
   * request the item answers is not copied.
   */
  function ToItem(user: User, d: ItemDto): (item: Item)
    requires Complete(d)
    ensures item.id == d.id && item.name == d.name.value && item.description == d.description.value
    ensures item.available == d.available.value
    ensures item.ownerId == user.id && item.request == None
  {
    Item(d.id, d.name.value, d.description.value, user.id, d.available.value, None)
  }

  /** The short form listed under a request: all six fields are copied. */
  function ToItemDtoReq(item: Item): (d: ItemDtoReq)
    ensures d.id == item.id && d.name == item.name && d.description == item.description
    ensures d.ownerId == item.ownerId && d.requestId == item.request && d.available == item.available
  {
    ItemDtoReq(item.id, item.name, item.description, item.ownerId, item.request, item.available)
  }

  /** `toItemDtoList`: one short form per item, in the same order. */
  function ToItemDtoList(items: seq<Item>): (ds: seq<ItemDtoReq>)
    ensures |ds| == |items|
    ensures forall i :: 0 <= i < |items| ==> ds[i] == ToItemDtoReq(items[i])
  {
    if items == [] then [] else [ToItemDtoReq(items[0])] + ToItemDtoList(items[1..])
  }

  /**
   * Mapping a complete request to an item and back keeps what the request
   * said about id, name, description and availability; the owner and the
   * request id do not survive.
   */
  lemma RequestSurvivesToItem(user: User, d: ItemDto)
    requires Complete(d)
    ensures var back := ToItemDto(ToItem(user, d));
            back.id == d.id && back.name == d.name && back.description == d.description
            && back.available == d.available && back.requestId == None
  {
  }

  /**
   * Mapping an item to its reply and back as the owner's item restores it,
   * except the request it answers, which `toItem` drops.
   */
  lemma ItemSurvivesToItemDto(owner: User, item: Item)
    requires owner.id == item.ownerId
    ensures ToItem(owner, ToItemDto(item)) == item.(request := None)
  {
  }
}
