/** The booking queries, as filters and orderings over the table of
    bookings. `now` is the database's `current_timestamp`. */
module BookingRepository {
  import opened Common
  import opened Model
  import opened Seqs

  /** A booking whose end has passed. */
  predicate IsPast(b: Booking, now: Time) {
    b.end < now
  }

  /** A booking that has not started yet. */
  predicate IsFuture(b: Booking, now: Time) {
    b.start > now
  }

  /** A booking under way: started and not ended, both strictly. */
  predicate IsCurrent(b: Booking, now: Time) {
    b.start < now && b.end > now
  }

  predicate BookedBy(b: Booking, bookerId: Id) {
    b.booker.id == Some(bookerId)
  }

  predicate OwnedBy(b: Booking, ownerId: Id) {
    b.item.owner.id == Some(ownerId)
  }

  /** Whose bookings a listing is about: the booker's own, or those on the
      items a user owns. */
  datatype Scope = Booker | Owner

  predicate InScope(b: Booking, scope: Scope, userId: Id) {
    match scope
    case Booker => BookedBy(b, userId)
    case Owner => OwnedBy(b, userId)
  }

  /** The condition a listing state adds to the scope: a time window for
      CURRENT, PAST and FUTURE, an exact status for WAITING and REJECTED,
      nothing for ALL. */
  predicate Selects(state: BookingState, b: Booking, now: Time) {
    match state
    case ALL => true
    case CURRENT => IsCurrent(b, now)
    case PAST => IsPast(b, now)
    case FUTURE => IsFuture(b, now)
    case WAITING => b.status == BookingStatus.WAITING
    case REJECTED => b.status == BookingStatus.REJECTED
  }

  /** Every booking of the scope that the state selects, in table order. */
  function FindAll(rows: seq<Booking>, scope: Scope, userId: Id, state: BookingState, now: Time): (r: seq<Booking>)
    ensures forall b :: b in r <==> b in rows && InScope(b, scope, userId) && Selects(state, b, now)
    ensures forall b :: multiset(r)[b] == if InScope(b, scope, userId) && Selects(state, b, now) then multiset(rows)[b] else 0
  {
    var p := (b: Booking) => InScope(b, scope, userId) && Selects(state, b, now);
    FilterMultiset(rows, p);
    Filter(rows, p)
  }

  /** The sort key of `ORDER BY start DESC`: a later start sorts first. */
  function LatestFirst(b: Booking): int {
    -b.start
  }

  /** One page of a listing: the matching bookings ordered by start, latest
      first, then cut at `page * size` for at most `size` rows. The row at
      offset `i` stands at overall position `page * size + i`: at most that
      many matches start later than it, and more than that many start no
      earlier. */
  function FindPage(rows: seq<Booking>, scope: Scope, userId: Id, state: BookingState, now: Time,
                    page: nat, size: nat): (r: seq<Booking>)
    requires size > 0
    ensures |r| == PageLength(|FindAll(rows, scope, userId, state, now)|, page, size)
    ensures forall i :: 0 <= i < |r| ==> r[i] in rows && InScope(r[i], scope, userId) && Selects(state, r[i], now)
    ensures forall i :: 0 <= i < |r| ==>
              AtRank(FindAll(rows, scope, userId, state, now), LatestFirst, r[i], page * size + i)
    ensures forall i, j :: 0 <= i < j < |r| ==> r[i].start >= r[j].start
  {
    var all := FindAll(rows, scope, userId, state, now);
    PageOfSortBy(all, LatestFirst, page, size);
    Page(SortBy(all, LatestFirst), page, size)
  }

  /** When every match fits on the first page, the page holds exactly the
      matches. */
  lemma FirstPageHoldsAll(rows: seq<Booking>, scope: Scope, userId: Id, state: BookingState, now: Time, size: nat)
    requires size > 0
    requires |FindAll(rows, scope, userId, state, now)| <= size
    ensures multiset(FindPage(rows, scope, userId, state, now, 0, size))
            == multiset(FindAll(rows, scope, userId, state, now))
  {
    var all := FindAll(rows, scope, userId, state, now);
    var sorted := SortBy(all, LatestFirst);
    assert Page(sorted, 0, size) == sorted;
  }

  /** Paging misses no booking: every match is on some page, and a match
      whose start no other match shares is on the page whose rows span its
      rank, at the offset that rank names there. */
  lemma {:induction false} EveryMatchIsPaged(rows: seq<Booking>, scope: Scope, userId: Id, state: BookingState,
                                             now: Time, size: nat, b: Booking)
    requires size > 0
    requires b in rows && InScope(b, scope, userId) && Selects(state, b, now)
    ensures exists page: nat :: b in FindPage(rows, scope, userId, state, now, page, size)
    ensures var all := FindAll(rows, scope, userId, state, now);
            var n := CountBelow(all, LatestFirst, LatestFirst(b));
            CountBelow(all, LatestFirst, LatestFirst(b) + 1) == n + 1 ==>
              forall page: nat :: page * size <= n < page * size + size ==>
                && n - page * size < |FindPage(rows, scope, userId, state, now, page, size)|
                && FindPage(rows, scope, userId, state, now, page, size)[n - page * size] == b
  {
    var all := FindAll(rows, scope, userId, state, now);
    var sorted := SortBy(all, LatestFirst);
    assert exists page: nat :: b in FindPage(rows, scope, userId, state, now, page, size) by {
      PagesCover(all, LatestFirst, size, b);
      var p: nat :| b in Page(sorted, p, size);
      assert FindPage(rows, scope, userId, state, now, p, size) == Page(sorted, p, size);
    }
    var n := CountBelow(all, LatestFirst, LatestFirst(b));
    if CountBelow(all, LatestFirst, LatestFirst(b) + 1) == n + 1 {
      forall page: nat | page * size <= n < page * size + size
        ensures && n - page * size < |FindPage(rows, scope, userId, state, now, page, size)|
                && FindPage(rows, scope, userId, state, now, page, size)[n - page * size] == b
      {
        assert FindPage(rows, scope, userId, state, now, page, size) == Page(sorted, page, size);
        LatestFirstPaged(all, size, b, page);
      }
    }
  }

  lemma LatestFirstPaged(all: seq<Booking>, size: nat, b: Booking, page: nat)
    requires size > 0 && b in all
    requires CountBelow(all, LatestFirst, LatestFirst(b) + 1) == CountBelow(all, LatestFirst, LatestFirst(b)) + 1
    requires page * size <= CountBelow(all, LatestFirst, LatestFirst(b)) < page * size + size
    ensures var n := CountBelow(all, LatestFirst, LatestFirst(b));
            && n - page * size < |Page(SortBy(all, LatestFirst), page, size)|
            && Page(SortBy(all, LatestFirst), page, size)[n - page * size] == b
  {
    UniqueKeyPaged(all, LatestFirst, size, b, LatestFirst(b), page);
  }

  /** With `start <= end`, no booking is in two of the time classes. */
  lemma TimeClassesDisjoint(b: Booking, now: Time)
    requires b.start <= b.end
    ensures !(IsPast(b, now) && IsFuture(b, now))
    ensures !(IsPast(b, now) && IsCurrent(b, now))
    ensures !(IsFuture(b, now) && IsCurrent(b, now))
  {
  }

  /** All three comparisons are strict: with `start <= end`, a booking that
      starts or ends exactly at `now` is in none of the time classes. */
  lemma BoundaryInstantsUnclassified(b: Booking, now: Time)
    requires b.start <= b.end
    requires b.start == now || b.end == now
    ensures !IsPast(b, now) && !IsFuture(b, now) && !IsCurrent(b, now)
  {
  }

  /** Nothing orders `start` before `end`; a booking whose end precedes its
      start and brackets `now` is listed as PAST and as FUTURE. */
  lemma InvertedWindowIsPastAndFuture(b: Booking, now: Time)
    requires b.end < now < b.start
    ensures Selects(BookingState.PAST, b, now) && Selects(BookingState.FUTURE, b, now)
    ensures !Selects(BookingState.CURRENT, b, now)
  {
  }

  /** The time states ignore the status and the status states ignore time. */
  lemma StatusAndTimeIndependent(b: Booking, now: Time, now': Time, s: BookingStatus)
    ensures Selects(BookingState.PAST, b, now) == Selects(BookingState.PAST, b.(status := s), now)
    ensures Selects(BookingState.CURRENT, b, now) == Selects(BookingState.CURRENT, b.(status := s), now)
    ensures Selects(BookingState.FUTURE, b, now) == Selects(BookingState.FUTURE, b.(status := s), now)
    ensures Selects(BookingState.WAITING, b, now) == Selects(BookingState.WAITING, b, now')
    ensures Selects(BookingState.REJECTED, b, now) == Selects(BookingState.REJECTED, b, now')
  {
  }

  /** `findLastBooking`: the bookings of `itemId` whose item `ownerId` owns
      and whose end has passed, latest end first; the first of them. */
  function FindLastBooking(rows: seq<Booking>, itemId: Id, ownerId: Id, now: Time): (r: Option<Booking>)
    ensures r.None? <==> forall b :: b in rows ==> !(b.item.id == Some(itemId) && OwnedBy(b, ownerId) && IsPast(b, now))
    ensures r.Some? ==> var b := r.value;
              b in rows && b.item.id == Some(itemId) && OwnedBy(b, ownerId) && IsPast(b, now)
              && forall c :: c in rows && c.item.id == Some(itemId) && OwnedBy(c, ownerId) && IsPast(c, now)
                             ==> c.end <= b.end
  {
    var p := (b: Booking) => b.item.id == Some(itemId) && OwnedBy(b, ownerId) && IsPast(b, now);
    var candidates := Filter(rows, p);
    var sorted := SortBy(candidates, (b: Booking) => -b.end);
    FirstIsExtreme(rows, p, (b: Booking) => -b.end);
    if |sorted| == 0 then None else Some(sorted[0])
  }

  /** `findNextBooking`: the bookings of `itemId` whose item `ownerId` owns
      and that have not started, earliest start first; the first of them. */
  function FindNextBooking(rows: seq<Booking>, itemId: Id, ownerId: Id, now: Time): (r: Option<Booking>)
    ensures r.None? <==> forall b :: b in rows ==> !(b.item.id == Some(itemId) && OwnedBy(b, ownerId) && IsFuture(b, now))
    ensures r.Some? ==> var b := r.value;
              b in rows && b.item.id == Some(itemId) && OwnedBy(b, ownerId) && IsFuture(b, now)
              && forall c :: c in rows && c.item.id == Some(itemId) && OwnedBy(c, ownerId) && IsFuture(c, now)
                             ==> b.start <= c.start
  {
    var p := (b: Booking) => b.item.id == Some(itemId) && OwnedBy(b, ownerId) && IsFuture(b, now);
    var candidates := Filter(rows, p);
    var sorted := SortBy(candidates, (b: Booking) => b.start);
    FirstIsExtreme(rows, p, (b: Booking) => b.start);
    if |sorted| == 0 then None else Some(sorted[0])
  }

  /** The head of the sorted matches is a match with the least key, and
      there is a head exactly when there is a match. */
  lemma FirstIsExtreme(rows: seq<Booking>, p: Booking -> bool, key: Booking -> int)
    ensures var sorted := SortBy(Filter(rows, p), key);
            && (|sorted| == 0 <==> forall b :: b in rows ==> !p(b))
            && (|sorted| > 0 ==> sorted[0] in rows && p(sorted[0])
                                 && forall c :: c in rows && p(c) ==> key(sorted[0]) <= key(c))
  {
    var candidates := Filter(rows, p);
    var sorted := SortBy(candidates, key);
    forall b ensures b in sorted <==> b in rows && p(b) {
      SortByMembers(candidates, key, b);
    }
    if |sorted| > 0 {
      assert sorted[0] in sorted;
      forall c | c in rows && p(c) ensures key(sorted[0]) <= key(c) {
        assert c in sorted;
        var k :| 0 <= k < |sorted| && sorted[k] == c;
        if k > 0 {
          assert key(sorted[0]) <= key(sorted[k]);
        }
      }
    }
  }

  /** `findByBookerIdAndPastState`: some booking of the booker whose end has
      passed, on any item; the first in table order is taken. */
  function FindByBookerIdAndPastState(rows: seq<Booking>, bookerId: Id, now: Time): (r: Option<Booking>)
    ensures r.None? <==> forall i :: 0 <= i < |rows| ==> !(BookedBy(rows[i], bookerId) && IsPast(rows[i], now))
    ensures r.Some? ==> r.value in rows && BookedBy(r.value, bookerId) && IsPast(r.value, now)
  {
    FindFirst(rows, (b: Booking) => BookedBy(b, bookerId) && IsPast(b, now))
  }
}
