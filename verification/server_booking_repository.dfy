/**
 * The server twin of the booking repository. Its temporal, status and
 * `findFirst` queries are the same derived queries as in `BookingRepository`
 * (and are modelled by the same functions); only the two `ALL` queries
 * differ: they take a `Pageable` and return one page of the start-descending
 * list.
 */
module ServerBookingRepository {
  import opened Domain
  import Store
  import opened BookingRepository

  /**
   * A `Pageable`: unpaged (the repository tests pass null), or the page
   * `PageRequest.of(page, size)` describes. `PageRequest.of` itself refuses
   * a negative page and a size below one, so no other page reaches a query.
   */
  datatype Pageable = Unpaged | PageOf(page: nat, size: nat)

  predicate ValidPageable(p: Pageable) {
    p.PageOf? ==> p.size > 0
  }

  function Paged(s: seq<Booking>, p: Pageable): (r: seq<Booking>)
    requires ValidPageable(p)
    ensures p.Unpaged? ==> r == s
    ensures p.PageOf? ==> |r| <= p.size
    ensures p.PageOf? && p.page * p.size >= |s| ==> r == []
    ensures p.PageOf? && p.page * p.size < |s| ==>
              |r| == (if |s| - p.page * p.size < p.size then |s| - p.page * p.size else p.size)
    ensures forall x :: x in r ==> x in s
    ensures p.PageOf? ==> forall i :: 0 <= i < |r| ==> p.page * p.size + i < |s| && r[i] == s[p.page * p.size + i]
  {
    if p.Unpaged? then s else Store.Page(s, p.page, p.size)
  }

  /** A page cut from a start-descending list is start-descending. */
  lemma PageKeepsOrder(s: seq<Booking>, p: Pageable)
    requires ValidPageable(p) && SortedByStartDesc(s)
    ensures SortedByStartDesc(Paged(s, p))
  {
    var r := Paged(s, p);
    if p.PageOf? {
      forall i, j | 0 <= i < j < |r|
        ensures r[i].start >= r[j].start
      {
        assert r[i] == s[p.page * p.size + i] && r[j] == s[p.page * p.size + j];
      }
    }
  }

  /**
   * `findAllByBookerIdOrderByStartDesc(userId, pageable)`: one page of the
   * renter's bookings, latest start first; unpaged it is the src twin's query.
   */
  function FindAllByBookerIdOrderByStartDescPaged(db: Db, userId: int, p: Pageable): (r: seq<Booking>)
    requires ValidPageable(p)
    ensures forall b :: b in r ==> b in db.bookings.Values && b.bookerId == userId
    ensures SortedByStartDesc(r)
    ensures p.PageOf? ==> |r| <= p.size
    ensures p.Unpaged? ==> r == FindAllByBookerIdOrderByStartDesc(db, userId)
    ensures p.PageOf? ==> r == Paged(FindAllByBookerIdOrderByStartDesc(db, userId), p)
  {
    var all := FindAllByBookerIdOrderByStartDesc(db, userId);
    PageKeepsOrder(all, p);
    var r := Paged(all, p);
    assert forall b :: b in r ==> b in all;
    r
  }

  /** `findAllByItem_OwnerIdOrderByStartDesc(userId, pageable)`. */
  function FindAllByItemOwnerIdOrderByStartDescPaged(db: Db, userId: int, p: Pageable): (r: seq<Booking>)
    requires ValidPageable(p)
    ensures forall b :: b in r ==> b in db.bookings.Values && ItemOwnedBy(db, b, userId)
    ensures SortedByStartDesc(r)
    ensures p.PageOf? ==> |r| <= p.size
    ensures p.Unpaged? ==> r == FindAllByItemOwnerIdOrderByStartDesc(db, userId)
    ensures p.PageOf? ==> r == Paged(FindAllByItemOwnerIdOrderByStartDesc(db, userId), p)
  {
    var all := FindAllByItemOwnerIdOrderByStartDesc(db, userId);
    PageKeepsOrder(all, p);
    var r := Paged(all, p);
    assert forall b :: b in r ==> b in all;
    r
  }
}
