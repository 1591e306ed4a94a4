/** The booking workflow: creating a booking, the owner's decision on it,
    reading it back and listing a user's bookings by state. Each operation
    takes the tables it reads and returns the bookings table it leaves
    behind, or the exception it throws. */
module BookingService {
  import opened Common
  import opened Model
  import opened Seqs
  import opened Text
  import opened Tables
  import opened BookingRepository
  import BookingMapper

  /** The bookings table and the last id its identity column handed out. */
  datatype BookingTable = BookingTable(rows: seq<Booking>, lastId: Id)

  /** Every row carries a distinct id handed out by the identity column. */
  ghost predicate Valid(t: BookingTable) {
    && 0 <= t.lastId
    && (forall i :: 0 <= i < |t.rows| ==> t.rows[i].id.Some? && 0 < t.rows[i].id.value <= t.lastId)
    && (forall i, j :: 0 <= i < j < |t.rows| ==> t.rows[i].id != t.rows[j].id)
  }

  function BookingNotFoundMessage(id: Id): string {
    "Booking not found with id: " + IntToString(id)
  }

  /** The status an owner's decision sets. */
  function Decision(approved: bool): BookingStatus {
    if approved then BookingStatus.APPROVED else BookingStatus.REJECTED
  }

  /** Looks a booking up, failing with NotFound when no row has the id. */
  function FindBookingById(rows: seq<Booking>, bookingId: Id): (r: Result<Booking>)
    ensures r.Ok? <==> exists i :: 0 <= i < |rows| && rows[i].id == Some(bookingId)
    ensures r.Ok? ==> r.value in rows && r.value.id == Some(bookingId)
    ensures r.Err? ==> r.error == NotFound(BookingNotFoundMessage(bookingId))
  {
    match FindBooking(rows, bookingId)
    case Some(b) => Ok(b)
    case None => Err(NotFound(BookingNotFoundMessage(bookingId)))
  }

  /** A booking is shown only to its booker and to its item's owner; to
      anyone else it looks missing. */
  function GetById(rows: seq<Booking>, userId: Id, bookingId: Id): (r: Result<BookingWithStatusDto>)
    ensures FindBooking(rows, bookingId).None? ==> r == Err(NotFound(BookingNotFoundMessage(bookingId)))
    ensures r.Ok? <==> FindBooking(rows, bookingId).Some?
                       && (BookedBy(FindBooking(rows, bookingId).value, userId)
                           || OwnedBy(FindBooking(rows, bookingId).value, userId))
    ensures r.Ok? ==> r.value == BookingMapper.ToBookingDto(FindBooking(rows, bookingId).value)
    ensures r.Err? ==> r.error.NotFound?
  {
    var b :- FindBookingById(rows, bookingId);
    if BookedBy(b, userId) || OwnedBy(b, userId) then
      Ok(BookingMapper.ToBookingDto(b))
    else
      Err(NotFound("Only the item owner or the booker can getById the booking"))
  }

  /** Books an item. The guards run in this order: the booker exists, the
      item exists, the booker does not own the item (NotFound), the item is
      available (BadRequest). The saved booking is WAITING, carries the
      requested window and gets the next identity. */
  function Create(users: seq<User>, items: seq<Item>, t: BookingTable, bookerId: Id, d: BookingDto)
    : (r: Result<(BookingTable, BookingWithStatusDto)>)
    ensures FindUser(users, bookerId).None? ==> r == Err(NotFound(UserNotFoundMessage(bookerId)))
    ensures FindUser(users, bookerId).Some? && FindItem(items, d.itemId).None?
            ==> r == Err(NotFound("Item not found with id: " + IntToString(d.itemId)))
    ensures FindUser(users, bookerId).Some? && FindItem(items, d.itemId).Some?
            && FindItem(items, d.itemId).value.owner.id == Some(bookerId)
            ==> r == Err(NotFound("User can't booking own item"))
    ensures FindUser(users, bookerId).Some? && FindItem(items, d.itemId).Some?
            && FindItem(items, d.itemId).value.owner.id != Some(bookerId)
            && !FindItem(items, d.itemId).value.available
            ==> r == Err(BadRequest("The item is not available!"))
    ensures r.Ok? ==>
              var booker := FindUser(users, bookerId).value;
              var item := FindItem(items, d.itemId).value;
              var b := Booking(d.id, d.start, d.end, item, booker, BookingStatus.WAITING);
              var (t', dto) := r.value;
              && item.available && item.owner.id != Some(bookerId)
              && (HasId(t.rows, BookingId, d.id) ==>
                    && t'.lastId == t.lastId && |t'.rows| == |t.rows|
                    && (forall i :: 0 <= i < |t.rows| ==> t'.rows[i] == if t.rows[i].id == d.id then b else t.rows[i])
                    && dto == BookingMapper.ToBookingDto(b))
              && (!HasId(t.rows, BookingId, d.id) ==>
                    && t'.lastId == t.lastId + 1
                    && t'.rows == t.rows + [b.(id := Some(t.lastId + 1))]
                    && dto == BookingMapper.ToBookingDto(b.(id := Some(t.lastId + 1))))
  {
    match FindUser(users, bookerId)
    case None => Err(NotFound(UserNotFoundMessage(bookerId)))
    case Some(booker) =>
      match FindItem(items, d.itemId)
      case None => Err(NotFound("Item not found with id: " + IntToString(d.itemId)))
      case Some(item) =>
        if item.owner.id == Some(bookerId) then
          Err(NotFound("User can't booking own item"))
        else if !item.available then
          Err(BadRequest("The item is not available!"))
        else
          var booking := BookingMapper.ToBooking(d, booker, item, BookingStatus.WAITING);
          var saved := Save(t.rows, t.lastId, BookingId, BookingWithId, booking);
          Ok((BookingTable(saved.rows, saved.lastId), BookingMapper.ToBookingDto(saved.entity)))
  }

  /** The owner's decision. An APPROVED booking is refused (BadRequest)
      before ownership is looked at; a caller who does not own the item is
      refused with NotFound; otherwise the status becomes APPROVED or
      REJECTED, so a REJECTED booking may still be approved. */
  function Approve(t: BookingTable, ownerId: Id, bookingId: Id, approved: bool)
    : (r: Result<(BookingTable, BookingWithStatusDto)>)
    ensures FindBooking(t.rows, bookingId).None? ==> r == Err(NotFound(BookingNotFoundMessage(bookingId)))
    ensures FindBooking(t.rows, bookingId).Some?
            && FindBooking(t.rows, bookingId).value.status == BookingStatus.APPROVED
            ==> r == Err(BadRequest("Booking status can't change after approval"))
    ensures FindBooking(t.rows, bookingId).Some?
            && FindBooking(t.rows, bookingId).value.status != BookingStatus.APPROVED
            && !OwnedBy(FindBooking(t.rows, bookingId).value, ownerId)
            ==> r == Err(NotFound("Item has not been added user id " + IntToString(ownerId)))
    ensures r.Ok? <==> FindBooking(t.rows, bookingId).Some?
                       && FindBooking(t.rows, bookingId).value.status != BookingStatus.APPROVED
                       && OwnedBy(FindBooking(t.rows, bookingId).value, ownerId)
    ensures r.Ok? ==>
              var updated := FindBooking(t.rows, bookingId).value.(status := Decision(approved));
              && r.value.0.lastId == t.lastId
              && |r.value.0.rows| == |t.rows|
              && (forall i :: 0 <= i < |t.rows| ==>
                    r.value.0.rows[i] == if t.rows[i].id == Some(bookingId) then updated else t.rows[i])
              && r.value.1 == BookingMapper.ToBookingDto(updated)
              && r.value.1.status == Decision(approved)
  {
    var b :- FindBookingById(t.rows, bookingId);
    if b.status == BookingStatus.APPROVED then
      Err(BadRequest("Booking status can't change after approval"))
    else if !OwnedBy(b, ownerId) then
      Err(NotFound("Item has not been added user id " + IntToString(ownerId)))
    else
      var updated := b.(status := Decision(approved));
      Ok((BookingTable(SaveById(t.rows, BookingId, updated), t.lastId), BookingMapper.ToBookingDto(updated)))
  }

  function ToDtos(bs: seq<Booking>): (r: seq<BookingWithStatusDto>)
    ensures |r| == |bs|
    ensures forall i :: 0 <= i < |bs| ==> r[i] == BookingMapper.ToBookingDto(bs[i])
  {
    seq(|bs|, i requires 0 <= i < |bs| => BookingMapper.ToBookingDto(bs[i]))
  }

  function NoBookingsMessage(scope: Scope, userId: Id): string {
    match scope
    case Booker => "No bookings for booker with id " + IntToString(userId)
    case Owner => "No bookings for owner with id " + IntToString(userId)
  }

  /** One page of a user's bookings in a state, latest start first. Only the
      state ALL treats an empty page as an error. */
  function Listing(rows: seq<Booking>, scope: Scope, userId: Id, state: BookingState,
                   from: int, size: int, now: Time): (r: Result<seq<BookingWithStatusDto>>)
    requires from >= 0 && size > 0
    ensures r.Err? <==> state == BookingState.ALL
                        && PageIndex(from, size) * size >= |FindAll(rows, scope, userId, state, now)|
    ensures r.Err? ==> r.error == NotFound(NoBookingsMessage(scope, userId))
    ensures r.Ok? ==> |r.value| <= size
    ensures r.Ok? ==> |r.value| == |FindPage(rows, scope, userId, state, now, PageIndex(from, size), size)|
    ensures r.Ok? ==> forall i :: 0 <= i < |r.value| ==>
              r.value[i] == BookingMapper.ToBookingDto(FindPage(rows, scope, userId, state, now, PageIndex(from, size), size)[i])
    ensures r.Ok? ==> forall i :: 0 <= i < |r.value| ==>
              exists b :: b in rows && InScope(b, scope, userId) && Selects(state, b, now)
                          && r.value[i] == BookingMapper.ToBookingDto(b)
    ensures r.Ok? ==> forall i, j :: 0 <= i < j < |r.value| ==> r.value[i].start >= r.value[j].start
  {
    var page := PageIndex(from, size);
    var bookings := FindPage(rows, scope, userId, state, now, page, size);
    if state == BookingState.ALL && |bookings| == 0 then
      Err(NotFound(NoBookingsMessage(scope, userId)))
    else
      var r := ToDtos(bookings);
      assert forall i :: 0 <= i < |r| ==> r[i] == BookingMapper.ToBookingDto(bookings[i]);
      Ok(r)
  }

  /** `getByBookerId`: the caller's own bookings. */
  function GetByBookerId(rows: seq<Booking>, bookerId: Id, state: BookingState,
                         from: int, size: int, now: Time): (r: Result<seq<BookingWithStatusDto>>)
    requires from >= 0 && size > 0
    ensures r.Err? <==> state == BookingState.ALL
                        && PageIndex(from, size) * size >= |FindAll(rows, Booker, bookerId, state, now)|
    ensures r.Err? ==> r.error == NotFound("No bookings for booker with id " + IntToString(bookerId))
    ensures r.Ok? ==> |r.value| == |FindPage(rows, Booker, bookerId, state, now, PageIndex(from, size), size)|
    ensures r.Ok? ==> forall i :: 0 <= i < |r.value| ==>
              r.value[i] == BookingMapper.ToBookingDto(FindPage(rows, Booker, bookerId, state, now, PageIndex(from, size), size)[i])
    ensures r.Ok? ==> forall i :: 0 <= i < |r.value| ==>
              exists b :: b in rows && BookedBy(b, bookerId) && Selects(state, b, now)
                          && r.value[i] == BookingMapper.ToBookingDto(b)
  {
    Listing(rows, Booker, bookerId, state, from, size, now)
  }

  /** `getByOwnerId`: the bookings on the caller's items. */
  function GetByOwnerId(rows: seq<Booking>, ownerId: Id, state: BookingState,
                        from: int, size: int, now: Time): (r: Result<seq<BookingWithStatusDto>>)
    requires from >= 0 && size > 0
    ensures r.Err? <==> state == BookingState.ALL
                        && PageIndex(from, size) * size >= |FindAll(rows, Owner, ownerId, state, now)|
    ensures r.Err? ==> r.error == NotFound("No bookings for owner with id " + IntToString(ownerId))
    ensures r.Ok? ==> |r.value| == |FindPage(rows, Owner, ownerId, state, now, PageIndex(from, size), size)|
    ensures r.Ok? ==> forall i :: 0 <= i < |r.value| ==>
              r.value[i] == BookingMapper.ToBookingDto(FindPage(rows, Owner, ownerId, state, now, PageIndex(from, size), size)[i])
    ensures r.Ok? ==> forall i :: 0 <= i < |r.value| ==>
              exists b :: b in rows && OwnedBy(b, ownerId) && Selects(state, b, now)
                          && r.value[i] == BookingMapper.ToBookingDto(b)
  {
    Listing(rows, Owner, ownerId, state, from, size, now)
  }

  /** With no matching booking, ALL fails while every other state answers
      with an empty list. */
  lemma EmptyListingAsymmetry(rows: seq<Booking>, scope: Scope, userId: Id, state: BookingState,
                              from: int, size: int, now: Time)
    requires from >= 0 && size > 0
    requires forall b :: b in rows ==> !(InScope(b, scope, userId) && Selects(state, b, now))
    ensures state == BookingState.ALL ==> Listing(rows, scope, userId, state, from, size, now).Err?
    ensures state != BookingState.ALL ==> Listing(rows, scope, userId, state, from, size, now) == Ok([])
  {
  }

  /** Creating keeps the table's ids distinct and handed out by the counter. */
  lemma CreatePreservesValid(users: seq<User>, items: seq<Item>, t: BookingTable, bookerId: Id, d: BookingDto)
    requires Valid(t)
    ensures Create(users, items, t, bookerId, d).Ok? ==> Valid(Create(users, items, t, bookerId, d).value.0)
  {
    if Create(users, items, t, bookerId, d).Ok? {
      var booking := BookingMapper.ToBooking(d, FindUser(users, bookerId).value, FindItem(items, d.itemId).value,
                                             BookingStatus.WAITING);
      var s := Save(t.rows, t.lastId, BookingId, BookingWithId, booking);
      assert Create(users, items, t, bookerId, d).value.0 == BookingTable(s.rows, s.lastId);
      SaveKeepsValid(t, booking);
    }
  }

  /** Saving a booking, merged or inserted, keeps the table valid. */
  lemma SaveKeepsValid(t: BookingTable, b: Booking)
    requires Valid(t)
    ensures var s := Save(t.rows, t.lastId, BookingId, BookingWithId, b);
            Valid(BookingTable(s.rows, s.lastId))
  {
    if HasId(t.rows, BookingId, b.id) {
      SameIdsKeepValid(t, Save(t.rows, t.lastId, BookingId, BookingWithId, b).rows);
    }
  }

  /** A decision keeps the table's ids as they were. */
  lemma ApprovePreservesValid(t: BookingTable, ownerId: Id, bookingId: Id, approved: bool)
    requires Valid(t)
    ensures Approve(t, ownerId, bookingId, approved).Ok? ==> Valid(Approve(t, ownerId, bookingId, approved).value.0)
  {
    var r := Approve(t, ownerId, bookingId, approved);
    if r.Ok? {
      var rows' := r.value.0.rows;
      assert FindBooking(t.rows, bookingId).value.id == Some(bookingId);
      forall i | 0 <= i < |rows'| ensures rows'[i].id == t.rows[i].id {
      }
      SameIdsKeepValid(t, rows');
    }
  }

  /** Rows that keep their ids in place keep the table valid. */
  lemma SameIdsKeepValid(t: BookingTable, rows': seq<Booking>)
    requires Valid(t)
    requires |rows'| == |t.rows| && forall i :: 0 <= i < |rows'| ==> rows'[i].id == t.rows[i].id
    ensures Valid(BookingTable(rows', t.lastId))
  {
  }

  /** In a valid table a decision rewrites exactly one row, and only its
      status. */
  lemma {:induction false} ApproveTouchesOneRow(t: BookingTable, ownerId: Id, bookingId: Id, approved: bool)
    requires Valid(t)
    requires Approve(t, ownerId, bookingId, approved).Ok?
    ensures var rows' := Approve(t, ownerId, bookingId, approved).value.0.rows;
            exists k :: 0 <= k < |t.rows| && t.rows[k].id == Some(bookingId)
                        && rows'[k] == t.rows[k].(status := Decision(approved))
                        && forall i :: 0 <= i < |t.rows| && i != k ==> rows'[i] == t.rows[i]
  {
    var b := FindBooking(t.rows, bookingId).value;
    var k :| 0 <= k < |t.rows| && t.rows[k] == b;
    var rows' := Approve(t, ownerId, bookingId, approved).value.0;
    forall i | 0 <= i < |t.rows| && i != k ensures t.rows[i].id != Some(bookingId) {
      if i < k {
        assert t.rows[i].id != t.rows[k].id;
      } else {
        assert t.rows[k].id != t.rows[i].id;
      }
    }
  }

  /** After a decision, looking the booking up finds it with the decided
      status and otherwise as it was. */
  lemma {:induction false} DecidedIsFound(t: BookingTable, ownerId: Id, bookingId: Id, approved: bool)
    requires Approve(t, ownerId, bookingId, approved).Ok?
    ensures FindBooking(Approve(t, ownerId, bookingId, approved).value.0.rows, bookingId)
            == Some(FindBooking(t.rows, bookingId).value.(status := Decision(approved)))
  {
    var t' := Approve(t, ownerId, bookingId, approved).value.0;
    var b := FindBooking(t.rows, bookingId).value;
    var k :| 0 <= k < |t.rows| && t.rows[k] == b;
    assert t'.rows[k].id == Some(bookingId);
    var found := FindBooking(t'.rows, bookingId).value;
    var i :| 0 <= i < |t'.rows| && t'.rows[i] == found;
    assert t'.rows[i] == b.(status := Decision(approved));
  }

  /** Once approved, a booking refuses every further decision, by anyone. */
  lemma ApprovedIsFinal(t: BookingTable, ownerId: Id, bookingId: Id, anyone: Id, again: bool)
    requires Approve(t, ownerId, bookingId, true).Ok?
    ensures Approve(Approve(t, ownerId, bookingId, true).value.0, anyone, bookingId, again)
            == Err(BadRequest("Booking status can't change after approval"))
  {
    DecidedIsFound(t, ownerId, bookingId, true);
  }

  /** A rejected booking is not final: its owner may still approve it. */
  lemma RejectedCanBeApproved(t: BookingTable, ownerId: Id, bookingId: Id)
    requires Approve(t, ownerId, bookingId, false).Ok?
    ensures Approve(Approve(t, ownerId, bookingId, false).value.0, ownerId, bookingId, true).Ok?
    ensures Approve(Approve(t, ownerId, bookingId, false).value.0, ownerId, bookingId, true).value.1.status
            == BookingStatus.APPROVED
  {
    DecidedIsFound(t, ownerId, bookingId, false);
    DecidedIsFound(Approve(t, ownerId, bookingId, false).value.0, ownerId, bookingId, true);
  }

  /** In a valid table, looking up the id the booking came back with finds
      the booking just written: WAITING, for the payload's dates, item and
      the booker. */
  lemma {:induction false} CreatedIsFound(users: seq<User>, items: seq<Item>, t: BookingTable, bookerId: Id, d: BookingDto)
    requires Valid(t)
    requires Create(users, items, t, bookerId, d).Ok?
    ensures var (t', dto) := Create(users, items, t, bookerId, d).value;
            && dto.id.Some?
            && FindBooking(t'.rows, dto.id.value)
               == Some(Booking(dto.id, d.start, d.end, FindItem(items, d.itemId).value,
                               FindUser(users, bookerId).value, BookingStatus.WAITING))
  {
    var booking := BookingMapper.ToBooking(d, FindUser(users, bookerId).value, FindItem(items, d.itemId).value,
                                           BookingStatus.WAITING);
    var s := Save(t.rows, t.lastId, BookingId, BookingWithId, booking);
    SavedIdIsUnique(t.rows, t.lastId, BookingId, BookingWithId, booking);
    assert Create(users, items, t, bookerId, d).value == (BookingTable(s.rows, s.lastId), BookingMapper.ToBookingDto(s.entity));
    FoundIsOnlyMatch(s.rows, s.entity);
  }

  /** A booking that is the only row carrying its id is what a lookup of
      that id finds. */
  lemma FoundIsOnlyMatch(rows: seq<Booking>, b: Booking)
    requires b.id.Some? && b in rows
    requires forall i :: 0 <= i < |rows| && rows[i].id == b.id ==> rows[i] == b
    ensures FindBooking(rows, b.id.value) == Some(b)
  {
    var found := FindBooking(rows, b.id.value).value;
    var i :| 0 <= i < |rows| && rows[i] == found;
  }

  /** A payload naming a stored booking is merged over it: even an approved
      booking is set back to WAITING, for the payload's dates and booker. */
  lemma CreateReopensDecided(users: seq<User>, items: seq<Item>, t: BookingTable, bookerId: Id, d: BookingDto)
    requires Valid(t)
    requires Create(users, items, t, bookerId, d).Ok?
    requires d.id.Some? && FindBooking(t.rows, d.id.value).Some?
    ensures var (t', dto) := Create(users, items, t, bookerId, d).value;
            && t'.lastId == t.lastId && |t'.rows| == |t.rows| && dto.id == d.id
            && FindBooking(t'.rows, d.id.value).Some?
            && FindBooking(t'.rows, d.id.value).value.status == BookingStatus.WAITING
            && FindBooking(t'.rows, d.id.value).value.booker.id == Some(bookerId)
  {
    CreatedIsFound(users, items, t, bookerId, d);
  }

  /** A new booking is WAITING and visible to its booker and to the item's
      owner, and to no one else. */
  lemma CreatedBookingIsVisibleToParticipants(users: seq<User>, items: seq<Item>, t: BookingTable,
                                              bookerId: Id, d: BookingDto, viewer: Id)
    requires Valid(t)
    requires Create(users, items, t, bookerId, d).Ok?
    ensures var (t', dto) := Create(users, items, t, bookerId, d).value;
            var item := FindItem(items, d.itemId).value;
            && dto.status == BookingStatus.WAITING && dto.id.Some?
            && (GetById(t'.rows, viewer, dto.id.value).Ok?
                <==> viewer == bookerId || item.owner.id == Some(viewer))
            && (viewer == bookerId ==> GetById(t'.rows, viewer, dto.id.value) == Ok(dto))
  {
    CreatedIsFound(users, items, t, bookerId, d);
  }

  /** The walk-through of a booking's life: booked WAITING, approved by the
      owner, then every further decision refused. */
  lemma BookApproveThenFrozen(users: seq<User>, items: seq<Item>, t: BookingTable,
                              bookerId: Id, d: BookingDto, again: bool)
    requires Valid(t)
    requires Create(users, items, t, bookerId, d).Ok?
    ensures var (t1, dto) := Create(users, items, t, bookerId, d).value;
            var ownerId := FindItem(items, d.itemId).value.owner.id;
            && dto.id.Some?
            && (ownerId.Some?
                ==> && Approve(t1, ownerId.value, dto.id.value, true).Ok?
                    && Approve(t1, ownerId.value, dto.id.value, true).value.1.status == BookingStatus.APPROVED
                    && Approve(Approve(t1, ownerId.value, dto.id.value, true).value.0, ownerId.value, dto.id.value, again)
                       == Err(BadRequest("Booking status can't change after approval")))
  {
    var (t1, dto) := Create(users, items, t, bookerId, d).value;
    var ownerId := FindItem(items, d.itemId).value.owner.id;
    CreatedIsFound(users, items, t, bookerId, d);
    if ownerId.Some? {
      ApprovedIsFinal(t1, ownerId.value, dto.id.value, ownerId.value, again);
    }
  }
}
