/** The database tables the services read through their repositories'
    `findById`: a table is the sequence of its rows, and a lookup by id
    yields the first row carrying that id. */
module Tables {
  import opened Common
  import opened Model
  import opened Seqs
  import opened Text

  /** The message of every "no such user" failure. */
  function UserNotFoundMessage(id: Id): string {
    "User with id " + IntToString(id) + " not found!"
  }

  function FindUser(users: seq<User>, id: Id): (r: Option<User>)
    ensures r.None? <==> forall i :: 0 <= i < |users| ==> users[i].id != Some(id)
    ensures r.Some? ==> r.value in users && r.value.id == Some(id)
  {
    FindFirst(users, (u: User) => u.id == Some(id))
  }

  function FindItem(items: seq<Item>, id: Id): (r: Option<Item>)
    ensures r.None? <==> forall i :: 0 <= i < |items| ==> items[i].id != Some(id)
    ensures r.Some? ==> r.value in items && r.value.id == Some(id)
  {
    FindFirst(items, (i: Item) => i.id == Some(id))
  }

  function FindBooking(bookings: seq<Booking>, id: Id): (r: Option<Booking>)
    ensures r.None? <==> forall i :: 0 <= i < |bookings| ==> bookings[i].id != Some(id)
    ensures r.Some? ==> r.value in bookings && r.value.id == Some(id)
  {
    FindFirst(bookings, (b: Booking) => b.id == Some(id))
  }

  function FindRequest(requests: seq<ItemRequest>, id: Id): (r: Option<ItemRequest>)
    ensures r.None? <==> forall i :: 0 <= i < |requests| ==> requests[i].id != Some(id)
    ensures r.Some? ==> r.value in requests && r.value.id == Some(id)
  {
    FindFirst(requests, (q: ItemRequest) => q.id == Some(id))
  }

  /** `save` of an entity that already carries an id: it is written back
      over every row whose id (as `idOf` reads it) is its own. */
  function SaveById<T>(rows: seq<T>, idOf: T -> Option<Id>, x: T): (r: seq<T>)
    ensures |r| == |rows|
    ensures forall i :: 0 <= i < |r| ==> r[i] == if idOf(rows[i]) == idOf(x) then x else rows[i]
  {
    seq(|rows|, i requires 0 <= i < |rows| => if idOf(rows[i]) == idOf(x) then x else rows[i])
  }

  /** Whether some row carries the id `id`; a missing id names no row. */
  predicate HasId<T>(rows: seq<T>, idOf: T -> Option<Id>, id: Option<Id>) {
    id.Some? && exists i :: 0 <= i < |rows| && idOf(rows[i]) == id
  }

  /** What `save` leaves behind: the rows, the last identity the column
      handed out, and the entity `save` returns. */
  datatype Saved<T> = Saved(rows: seq<T>, lastId: Id, entity: T)

  /** Spring Data's `save` on a table with a generated identity column. An
      entity whose id names a stored row is merged over that row and keeps
      its id. Any other entity, with no id or with an id naming no row, is
      inserted under the next identity, and the entity returned carries
      that identity. */
  function Save<T>(rows: seq<T>, lastId: Id, idOf: T -> Option<Id>, withId: (T, Id) -> T, x: T): (r: Saved<T>)
    ensures HasId(rows, idOf, idOf(x)) ==>
              && r.lastId == lastId && r.entity == x && |r.rows| == |rows|
              && forall i :: 0 <= i < |rows| ==> r.rows[i] == if idOf(rows[i]) == idOf(x) then x else rows[i]
    ensures !HasId(rows, idOf, idOf(x)) ==>
              r.lastId == lastId + 1 && r.entity == withId(x, lastId + 1) && r.rows == rows + [r.entity]
    ensures r.entity in r.rows
  {
    if HasId(rows, idOf, idOf(x)) then Saved(SaveById(rows, idOf, x), lastId, x)
    else
      var inserted := withId(x, lastId + 1);
      Saved(rows + [inserted], lastId + 1, inserted)
  }

  /** When every stored id is one the column handed out, the entity `save`
      returns is the only row carrying its id. */
  lemma SavedIdIsUnique<T>(rows: seq<T>, lastId: Id, idOf: T -> Option<Id>, withId: (T, Id) -> T, x: T)
    requires forall i :: 0 <= i < |rows| && idOf(rows[i]).Some? ==> idOf(rows[i]).value <= lastId
    requires idOf(withId(x, lastId + 1)) == Some(lastId + 1)
    ensures var s := Save(rows, lastId, idOf, withId, x);
            && idOf(s.entity).Some? && s.entity in s.rows
            && forall i :: 0 <= i < |s.rows| && idOf(s.rows[i]) == idOf(s.entity) ==> s.rows[i] == s.entity
  {
  }

  function UserId(u: User): Option<Id> { u.id }
  function ItemId(i: Item): Option<Id> { i.id }
  function BookingId(b: Booking): Option<Id> { b.id }
  function CommentId(c: Comment): Option<Id> { c.id }

  function UserWithId(u: User, id: Id): User { u.(id := Some(id)) }
  function ItemWithId(i: Item, id: Id): Item { i.(id := Some(id)) }
  function BookingWithId(b: Booking, id: Id): Booking { b.(id := Some(id)) }
  function CommentWithId(c: Comment, id: Id): Comment { c.(id := Some(id)) }
}
