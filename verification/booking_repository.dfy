/**
 * The derived queries of `booking.repository.BookingRepository`, as pure
 * selections over the booking store. A derived query's meaning is fixed by
 * its method name: `BookerId` keys on the booker, `Item_OwnerId` on the
 * owner of the booked item, `EndIsBefore t` is `end < t`, `StartIsAfter t`
 * is `start > t`, `Status s` is `status = s`, `StatusNotLike s` is
 * `status <> s` (a null status matches neither), and `OrderByStartDesc` or
 * a `Sort` argument orders by start, latest first. `findFirst` returns the
 * first row of the ordered selection, or null when there is none.
 */
module BookingRepository {
  import opened Wrappers
  import opened Domain
  import Store

  /** The `Sort` argument: absent, or `Sort.by(DESC, "start")`. */
  datatype Sort = Unsorted | StartDesc

  /** Whose bookings a query selects. */
  datatype Party = Booker(id: int) | ItemOwner(id: int)

  /** The condition a query adds after the party. */
  datatype Cond =
    | Any
    | EndIsBefore(t: int)
    | StartIsAfter(t: int)
    | StartIsBeforeAndEndIsAfter(startBefore: int, endAfter: int)
    | StatusIs(s: Status)

  predicate OfParty(db: Db, p: Party, b: Booking) {
    if p.Booker? then b.bookerId == p.id
    else ItemOwnedBy(db, b, p.id)
  }

  predicate Holds(c: Cond, b: Booking) {
    && (c.EndIsBefore? ==> b.end < c.t)
    && (c.StartIsAfter? ==> b.start > c.t)
    && (c.StartIsBeforeAndEndIsAfter? ==> b.start < c.startBefore && b.end > c.endAfter)
    && (c.StatusIs? ==> b.status == Some(c.s))
  }

  /** SQL `status NOT LIKE s`: false on a null status. */
  predicate StatusNotLike(b: Booking, s: Status) {
    b.status.Some? && b.status.value != s
  }

  /** The owner of the booked item, when the item exists. */
  predicate ItemOwnedBy(db: Db, b: Booking, ownerId: int) {
    b.itemId in db.items && db.items[b.itemId].ownerId == ownerId
  }

  ghost predicate SortedByStartDesc(s: seq<Booking>) {
    forall i, j :: 0 <= i < j < |s| ==> s[i].start >= s[j].start
  }

  /** The bookings in store order. */
  function AllBookings(db: Db): (r: seq<Booking>)
    ensures forall b :: b in r <==> b in db.bookings.Values
    ensures Consistent(db) ==> Store.Distinct(r)
  {
    var r := Store.Rows(db.bookings);
    assert Consistent(db) ==> Store.Distinct(r) by {
      if Consistent(db) {
        RowsDistinct(db);
      }
    }
    r
  }

  /** Rows stored under distinct keys carry distinct ids, so they differ. */
  lemma RowsDistinct(db: Db)
    requires Consistent(db)
    ensures Store.Distinct(Store.Rows(db.bookings))
  {
    var r := Store.Rows(db.bookings);
    var keys := Store.AscendingKeys(db.bookings.Keys);
    Store.RowsFollowKeys(db.bookings);
    forall i, j | 0 <= i < j < |r|
      ensures r[i] != r[j]
    {
      assert BookingRowOk(db, keys[i]) && BookingRowOk(db, keys[j]);
      assert keys[i] < keys[j];
    }
  }

  // ------------------------------------------------------------- ordering

  function InsertByStartDesc(b: Booking, s: seq<Booking>): (r: seq<Booking>)
    requires SortedByStartDesc(s)
    ensures SortedByStartDesc(r)
    ensures forall x :: x in r <==> x == b || x in s
    ensures |r| == |s| + 1
  {
    if s == [] then [b]
    else if b.start >= s[0].start then
      ConsSorted(b, s);
      [b] + s
    else
      var rest := InsertByStartDesc(b, s[1..]);
      assert s == [s[0]] + s[1..];
      InsertedBelowHead(b, s, rest);
      ConsSorted(s[0], rest);
      [s[0]] + rest
  }

  /** A booking starting no later than the head of a sorted list may go in front. */
  lemma ConsSorted(x: Booking, s: seq<Booking>)
    requires SortedByStartDesc(s) && (s != [] ==> x.start >= s[0].start)
    ensures SortedByStartDesc([x] + s)
  {
    var r := [x] + s;
    forall i, j | 0 <= i < j < |r|
      ensures r[i].start >= r[j].start
    {
      if i == 0 {
        assert r[j] == s[j - 1];
      } else {
        assert r[i] == s[i - 1] && r[j] == s[j - 1];
      }
    }
  }

  /** Inserting a later-starting booking into the tail keeps the head first. */
  lemma InsertedBelowHead(b: Booking, s: seq<Booking>, rest: seq<Booking>)
    requires SortedByStartDesc(s) && s != [] && b.start < s[0].start
    requires forall x :: x in rest <==> x == b || x in s[1..]
    ensures rest != [] ==> s[0].start >= rest[0].start
  {
    if rest != [] {
      assert rest[0] in rest;
      if rest[0] != b {
        var k := Store.IndexOf(s[1..], rest[0]);
        assert s[k + 1] == rest[0];
      }
    }
  }

  /** Insertion adds exactly one occurrence of the inserted booking. */
  lemma {:induction false} InsertIsPermutation(b: Booking, s: seq<Booking>)
    requires SortedByStartDesc(s)
    ensures multiset(InsertByStartDesc(b, s)) == multiset(s) + multiset{b}
  {
    if s != [] && b.start < s[0].start {
      assert s == [s[0]] + s[1..];
      InsertIsPermutation(b, s[1..]);
    }
  }

  lemma {:induction false} InsertKeepsDistinct(b: Booking, s: seq<Booking>)
    requires SortedByStartDesc(s) && Store.Distinct(s) && b !in s
    ensures Store.Distinct(InsertByStartDesc(b, s))
  {
    var r := InsertByStartDesc(b, s);
    if s != [] && b.start < s[0].start {
      assert s == [s[0]] + s[1..];
      InsertKeepsDistinct(b, s[1..]);
      var rest := InsertByStartDesc(b, s[1..]);
      assert r == [s[0]] + rest;
      assert s[0] !in s[1..];
      Store.ConsDistinct(s[0], rest);
    }
  }

  /** `s` ordered by start, latest first. */
  function SortByStartDesc(s: seq<Booking>): (r: seq<Booking>)
    ensures SortedByStartDesc(r)
    ensures forall x :: x in r <==> x in s
    ensures |r| == |s|
  {
    if s == [] then []
    else
      assert s == [s[0]] + s[1..];
      InsertByStartDesc(s[0], SortByStartDesc(s[1..]))
  }

  /** Sorting rearranges its input: every booking keeps its number of occurrences. */
  lemma {:induction false} SortIsPermutation(s: seq<Booking>)
    ensures multiset(SortByStartDesc(s)) == multiset(s)
  {
    if s != [] {
      assert s == [s[0]] + s[1..];
      SortIsPermutation(s[1..]);
      InsertIsPermutation(s[0], SortByStartDesc(s[1..]));
    }
  }

  lemma {:induction false} SortKeepsDistinct(s: seq<Booking>)
    requires Store.Distinct(s)
    ensures Store.Distinct(SortByStartDesc(s))
  {
    if s != [] {
      assert s == [s[0]] + s[1..];
      SortKeepsDistinct(s[1..]);
      var sorted := SortByStartDesc(s[1..]);
      assert s[0] !in s[1..];
      InsertKeepsDistinct(s[0], sorted);
    }
  }

  function Ordered(s: seq<Booking>, sort: Sort): (r: seq<Booking>)
    ensures sort == StartDesc ==> SortedByStartDesc(r)
    ensures sort == Unsorted ==> r == s
    ensures forall x :: x in r <==> x in s
    ensures Store.Distinct(s) ==> Store.Distinct(r)
  {
    assert Store.Distinct(s) && sort == StartDesc ==> Store.Distinct(SortByStartDesc(s)) by {
      if Store.Distinct(s) && sort == StartDesc {
        SortKeepsDistinct(s);
      }
    }
    if sort == StartDesc then SortByStartDesc(s) else s
  }

  // ------------------------------------------------------- generic query

  /** `findAllBy<Party>And<Cond>(…, sort)`. */
  function FindAll(db: Db, p: Party, c: Cond, sort: Sort): (r: seq<Booking>)
    ensures forall b :: b in r <==> b in db.bookings.Values && OfParty(db, p, b) && Holds(c, b)
    ensures sort == StartDesc ==> SortedByStartDesc(r)
    ensures Consistent(db) ==> Store.Distinct(r)
  {
    Ordered(Store.Filter(AllBookings(db), (b: Booking) => OfParty(db, p, b) && Holds(c, b)), sort)
  }

  /** What the party part of a derived query's name asks of a booking. */
  lemma PartyMeans(db: Db, p: Party, b: Booking)
    ensures p.Booker? ==> (OfParty(db, p, b) <==> b.bookerId == p.id)
    ensures p.ItemOwner? ==> (OfParty(db, p, b) <==> ItemOwnedBy(db, b, p.id))
  {
  }

  /** What the condition part of a derived query's name asks of a booking. */
  lemma CondMeans(c: Cond, b: Booking)
    ensures c.Any? ==> Holds(c, b)
    ensures c.EndIsBefore? ==> (Holds(c, b) <==> b.end < c.t)
    ensures c.StartIsAfter? ==> (Holds(c, b) <==> b.start > c.t)
    ensures c.StartIsBeforeAndEndIsAfter? ==> (Holds(c, b) <==> b.start < c.startBefore && b.end > c.endAfter)
    ensures c.StatusIs? ==> (Holds(c, b) <==> b.status == Some(c.s))
  {
  }

  // ------------------------------------------------ the renter's queries

  function FindAllByBookerIdOrderByStartDesc(db: Db, userId: int): (r: seq<Booking>)
    ensures forall b :: b in r <==> b in db.bookings.Values && b.bookerId == userId
    ensures SortedByStartDesc(r)
    ensures Consistent(db) ==> Store.Distinct(r)
  {
    var r := FindAll(db, Booker(userId), Any, StartDesc);
    assert forall b :: b in r <==> b in db.bookings.Values && b.bookerId == userId by {
      forall b
        ensures b in r <==> b in db.bookings.Values && b.bookerId == userId
      {
        PartyMeans(db, Booker(userId), b);
        CondMeans(Any, b);
      }
    }
    r
  }

  function FindAllByBookerIdAndEndIsBefore(db: Db, userId: int, t: int, sort: Sort): (r: seq<Booking>)
    ensures forall b :: b in r <==> b in db.bookings.Values && b.bookerId == userId && b.end < t
    ensures sort == StartDesc ==> SortedByStartDesc(r)
    ensures Consistent(db) ==> Store.Distinct(r)
  {
    var r := FindAll(db, Booker(userId), EndIsBefore(t), sort);
    assert forall b :: b in r <==> b in db.bookings.Values && b.bookerId == userId && b.end < t by {
      forall b
        ensures b in r <==> b in db.bookings.Values && b.bookerId == userId && b.end < t
      {
        PartyMeans(db, Booker(userId), b);
        CondMeans(EndIsBefore(t), b);
      }
    }
    r
  }

  function FindAllByBookerIdAndStartIsAfter(db: Db, userId: int, t: int, sort: Sort): (r: seq<Booking>)
    ensures forall b :: b in r <==> b in db.bookings.Values && b.bookerId == userId && b.start > t
    ensures sort == StartDesc ==> SortedByStartDesc(r)
    ensures Consistent(db) ==> Store.Distinct(r)
  {
    var r := FindAll(db, Booker(userId), StartIsAfter(t), sort);
    assert forall b :: b in r <==> b in db.bookings.Values && b.bookerId == userId && b.start > t by {
      forall b
        ensures b in r <==> b in db.bookings.Values && b.bookerId == userId && b.start > t
      {
        PartyMeans(db, Booker(userId), b);
        CondMeans(StartIsAfter(t), b);
      }
    }
    r
  }

  function FindAllByBookerIdAndStartIsBeforeAndEndIsAfter(db: Db, userId: int, t1: int, t2: int, sort: Sort): (r: seq<Booking>)
    ensures forall b :: b in r <==> b in db.bookings.Values && b.bookerId == userId && b.start < t1 && b.end > t2
    ensures sort == StartDesc ==> SortedByStartDesc(r)
    ensures Consistent(db) ==> Store.Distinct(r)
  {
    var r := FindAll(db, Booker(userId), StartIsBeforeAndEndIsAfter(t1, t2), sort);
    assert forall b :: b in r <==> b in db.bookings.Values && b.bookerId == userId && b.start < t1 && b.end > t2 by {
      forall b
        ensures b in r <==> b in db.bookings.Values && b.bookerId == userId && b.start < t1 && b.end > t2
      {
        PartyMeans(db, Booker(userId), b);
        CondMeans(StartIsBeforeAndEndIsAfter(t1, t2), b);
      }
    }
    r
  }

  /** Unsorted: the query promises no order. */
  function FindAllByBookerIdAndStatus(db: Db, userId: int, s: Status): (r: seq<Booking>)
    ensures forall b :: b in r <==> b in db.bookings.Values && b.bookerId == userId && b.status == Some(s)
    ensures Consistent(db) ==> Store.Distinct(r)
  {
    var r := FindAll(db, Booker(userId), StatusIs(s), Unsorted);
    assert forall b :: b in r <==> b in db.bookings.Values && b.bookerId == userId && b.status == Some(s) by {
      forall b
        ensures b in r <==> b in db.bookings.Values && b.bookerId == userId && b.status == Some(s)
      {
        PartyMeans(db, Booker(userId), b);
        CondMeans(StatusIs(s), b);
      }
    }
    r
  }

  // ------------------------------------------------- the owner's queries

  function FindAllByItemOwnerIdOrderByStartDesc(db: Db, userId: int): (r: seq<Booking>)
    ensures forall b :: b in r <==> b in db.bookings.Values && ItemOwnedBy(db, b, userId)
    ensures SortedByStartDesc(r)
    ensures Consistent(db) ==> Store.Distinct(r)
  {
    var r := FindAll(db, ItemOwner(userId), Any, StartDesc);
    assert forall b :: b in r <==> b in db.bookings.Values && ItemOwnedBy(db, b, userId) by {
      forall b
        ensures b in r <==> b in db.bookings.Values && ItemOwnedBy(db, b, userId)
      {
        PartyMeans(db, ItemOwner(userId), b);
        CondMeans(Any, b);
      }
    }
    r
  }

  function FindAllByItemOwnerIdAndEndIsBefore(db: Db, userId: int, t: int, sort: Sort): (r: seq<Booking>)
    ensures forall b :: b in r <==> b in db.bookings.Values && ItemOwnedBy(db, b, userId) && b.end < t
    ensures sort == StartDesc ==> SortedByStartDesc(r)
    ensures Consistent(db) ==> Store.Distinct(r)
  {
    var r := FindAll(db, ItemOwner(userId), EndIsBefore(t), sort);
    assert forall b :: b in r <==> b in db.bookings.Values && ItemOwnedBy(db, b, userId) && b.end < t by {
      forall b
        ensures b in r <==> b in db.bookings.Values && ItemOwnedBy(db, b, userId) && b.end < t
      {
        PartyMeans(db, ItemOwner(userId), b);
        CondMeans(EndIsBefore(t), b);
      }
    }
    r
  }

  function FindAllByItemOwnerIdAndStartIsAfter(db: Db, userId: int, t: int, sort: Sort): (r: seq<Booking>)
    ensures forall b :: b in r <==> b in db.bookings.Values && ItemOwnedBy(db, b, userId) && b.start > t
    ensures sort == StartDesc ==> SortedByStartDesc(r)
    ensures Consistent(db) ==> Store.Distinct(r)
  {
    var r := FindAll(db, ItemOwner(userId), StartIsAfter(t), sort);
    assert forall b :: b in r <==> b in db.bookings.Values && ItemOwnedBy(db, b, userId) && b.start > t by {
      forall b
        ensures b in r <==> b in db.bookings.Values && ItemOwnedBy(db, b, userId) && b.start > t
      {
        PartyMeans(db, ItemOwner(userId), b);
        CondMeans(StartIsAfter(t), b);
      }
    }
    r
  }

  function FindAllByItemOwnerIdAndStartIsBeforeAndEndIsAfter(db: Db, userId: int, t1: int, t2: int, sort: Sort): (r: seq<Booking>)
    ensures forall b :: b in r <==> b in db.bookings.Values && ItemOwnedBy(db, b, userId) && b.start < t1 && b.end > t2
    ensures sort == StartDesc ==> SortedByStartDesc(r)
    ensures Consistent(db) ==> Store.Distinct(r)
  {
    var r := FindAll(db, ItemOwner(userId), StartIsBeforeAndEndIsAfter(t1, t2), sort);
    assert forall b :: b in r <==> b in db.bookings.Values && ItemOwnedBy(db, b, userId) && b.start < t1 && b.end > t2 by {
      forall b
        ensures b in r <==> b in db.bookings.Values && ItemOwnedBy(db, b, userId) && b.start < t1 && b.end > t2
      {
        PartyMeans(db, ItemOwner(userId), b);
        CondMeans(StartIsBeforeAndEndIsAfter(t1, t2), b);
      }
    }
    r
  }

  function FindAllByItemOwnerIdAndStatus(db: Db, userId: int, s: Status): (r: seq<Booking>)
    ensures forall b :: b in r <==> b in db.bookings.Values && ItemOwnedBy(db, b, userId) && b.status == Some(s)
    ensures Consistent(db) ==> Store.Distinct(r)
  {
    var r := FindAll(db, ItemOwner(userId), StatusIs(s), Unsorted);
    assert forall b :: b in r <==> b in db.bookings.Values && ItemOwnedBy(db, b, userId) && b.status == Some(s) by {
      forall b
        ensures b in r <==> b in db.bookings.Values && ItemOwnedBy(db, b, userId) && b.status == Some(s)
      {
        PartyMeans(db, ItemOwner(userId), b);
        CondMeans(StatusIs(s), b);
      }
    }
    r
  }

  // ------------------------------------------------------ findFirst queries

  /** The element of `s` with the least key; the first such on ties. */
  function MinBy(s: seq<Booking>, key: Booking -> int): (r: Option<Booking>)
    ensures r.None? <==> s == []
    ensures r.Some? ==> r.value in s && forall x :: x in s ==> key(r.value) <= key(x)
  {
    if s == [] then None
    else
      var rest := MinBy(s[1..], key);
      assert forall x :: x in s ==> x == s[0] || x in s[1..];
      if rest.None? || key(s[0]) <= key(rest.value) then Some(s[0]) else rest
  }

  /** The element of `s` with the greatest key; the first such on ties. */
  function MaxBy(s: seq<Booking>, key: Booking -> int): (r: Option<Booking>)
    ensures r.None? <==> s == []
    ensures r.Some? ==> r.value in s && forall x :: x in s ==> key(x) <= key(r.value)
  {
    if s == [] then None
    else
      var rest := MaxBy(s[1..], key);
      assert forall x :: x in s ==> x == s[0] || x in s[1..];
      if rest.None? || key(s[0]) >= key(rest.value) then Some(s[0]) else rest
  }

  ghost predicate OfItemNotLike(b: Booking, itemId: int, s: Status) {
    b.itemId == itemId && StatusNotLike(b, s)
  }

  /**
   * `findFirstBookingByItemIdAndEndIsBeforeAndStatusNotLikeOrderByEndDesc`:
   * among the item's bookings that ended before `t` with a status other
   * than `s`, one that ended last.
   */
  function LastEndedBefore(db: Db, itemId: int, t: int, s: Status): (r: Option<Booking>)
    ensures r.None? <==> forall b :: b in db.bookings.Values ==> !(OfItemNotLike(b, itemId, s) && b.end < t)
    ensures r.Some? ==> r.value in db.bookings.Values && OfItemNotLike(r.value, itemId, s) && r.value.end < t
    ensures r.Some? ==> forall b :: b in db.bookings.Values && OfItemNotLike(b, itemId, s) && b.end < t ==> b.end <= r.value.end
  {
    var cands := Store.Filter(AllBookings(db), (b: Booking) => b.itemId == itemId && b.end < t && StatusNotLike(b, s));
    if cands == [] then None
    else
      var r := MaxBy(cands, (b: Booking) => b.end);
      assert r.value in cands;
      r
  }

  /**
   * `findFirstBookingByItemIdAndStartIsAfterAndStatusNotLikeOrderByStartAsc`:
   * among the item's bookings starting after `t` with a status other than
   * `s`, one that starts first.
   */
  function NextStartingAfter(db: Db, itemId: int, t: int, s: Status): (r: Option<Booking>)
    ensures r.None? <==> forall b :: b in db.bookings.Values ==> !(OfItemNotLike(b, itemId, s) && b.start > t)
    ensures r.Some? ==> r.value in db.bookings.Values && OfItemNotLike(r.value, itemId, s) && r.value.start > t
    ensures r.Some? ==> forall b :: b in db.bookings.Values && OfItemNotLike(b, itemId, s) && b.start > t ==> r.value.start <= b.start
  {
    var cands := Store.Filter(AllBookings(db), (b: Booking) => b.itemId == itemId && b.start > t && StatusNotLike(b, s));
    if cands == [] then None
    else
      var r := MinBy(cands, (b: Booking) => b.start);
      assert r.value in cands;
      r
  }

  /**
   * `findFirstBookingByItemIdAndStartIsBeforeAndStatusNotLikeOrderByStartDesc`:
   * among the item's bookings that started before `t` with a status other
   * than `s`, one that started last.
   */
  function LastStartedBefore(db: Db, itemId: int, t: int, s: Status): (r: Option<Booking>)
    ensures r.None? <==> forall b :: b in db.bookings.Values ==> !(OfItemNotLike(b, itemId, s) && b.start < t)
    ensures r.Some? ==> r.value in db.bookings.Values && OfItemNotLike(r.value, itemId, s) && r.value.start < t
    ensures r.Some? ==> forall b :: b in db.bookings.Values && OfItemNotLike(b, itemId, s) && b.start < t ==> b.start <= r.value.start
  {
    var cands := Store.Filter(AllBookings(db), (b: Booking) => b.itemId == itemId && b.start < t && StatusNotLike(b, s));
    if cands == [] then None
    else
      var r := MaxBy(cands, (b: Booking) => b.start);
      assert r.value in cands;
      r
  }
}
