/** The item workflow: adding an item, the owner's partial update, the
    item view with its booking summary and comments, the owner's list, the
    search and commenting. */
module ItemService {
  import opened Common
  import opened Model
  import opened Seqs
  import opened Text
  import opened Tables
  import opened BookingRepository
  import opened ItemRepository
  import ItemMapper
  import CommentMapper

  /** The items table and the last id its identity column handed out. */
  datatype ItemTable = ItemTable(rows: seq<Item>, lastId: Id)

  /** Every row carries an id the identity column handed out. */
  ghost predicate Valid(t: ItemTable) {
    && 0 <= t.lastId
    && forall i :: 0 <= i < |t.rows| ==> t.rows[i].id.Some? && 0 < t.rows[i].id.value <= t.lastId
  }

  /** The comments table and the last id its identity column handed out. */
  datatype CommentTable = CommentTable(rows: seq<Comment>, lastId: Id)

  /** A booking reduced to its id and its booker's id. */
  function ShortOf(b: Booking): (d: BookingShortDto)
    ensures d.id == b.id && d.bookerId == b.booker.id
  {
    BookingShortDto(b.id, b.booker.id)
  }

  /** `findByItemId`: the comments on the item with that id, in table
      order. */
  function CommentsOf(comments: seq<Comment>, itemId: Option<Id>): (r: seq<Comment>)
    ensures forall c :: c in r <==> c in comments && c.item.id == itemId
    ensures forall c :: multiset(r)[c] == if c.item.id == itemId then multiset(comments)[c] else 0
  {
    var p := (c: Comment) => c.item.id == itemId;
    FilterMultiset(comments, p);
    Filter(comments, p)
  }

  function CommentDtos(cs: seq<Comment>): (r: seq<CommentDto>)
    ensures |r| == |cs|
    ensures forall i :: 0 <= i < |cs| ==> r[i] == CommentMapper.ToCommentDto(cs[i])
  {
    seq(|cs|, i requires 0 <= i < |cs| => CommentMapper.ToCommentDto(cs[i]))
  }

  /** Each DTO shows one of the comments, and every comment is shown. */
  lemma CommentDtosMembers(cs: seq<Comment>)
    ensures forall d :: d in CommentDtos(cs) <==> exists c :: c in cs && d == CommentMapper.ToCommentDto(c)
  {
    var dtos := CommentDtos(cs);
    forall d ensures d in dtos <==> exists c :: c in cs && d == CommentMapper.ToCommentDto(c) {
      if d in dtos {
        var i :| 0 <= i < |dtos| && dtos[i] == d;
        assert cs[i] in cs;
      }
      if exists c :: c in cs && d == CommentMapper.ToCommentDto(c) {
        var c :| c in cs && d == CommentMapper.ToCommentDto(c);
        var i :| 0 <= i < |cs| && cs[i] == c;
        assert dtos[i] == d;
      }
    }
  }

  /** The shown comments are exactly the comments on the item. */
  lemma CommentDtosOfItem(comments: seq<Comment>, itemId: Option<Id>)
    ensures forall d :: d in CommentDtos(CommentsOf(comments, itemId)) <==>
              exists c :: c in comments && c.item.id == itemId && d == CommentMapper.ToCommentDto(c)
  {
    CommentDtosMembers(CommentsOf(comments, itemId));
  }

  /** A past booking of the item that the viewer owns, the condition of
      the "last booking" query. */
  predicate LastCandidate(b: Booking, item: Item, viewerId: Id, now: Time) {
    b.item.id == item.id && OwnedBy(b, viewerId) && IsPast(b, now)
  }

  /** A future booking of the item that the viewer owns, the condition of
      the "next booking" query. */
  predicate NextCandidate(b: Booking, item: Item, viewerId: Id, now: Time) {
    b.item.id == item.id && OwnedBy(b, viewerId) && IsFuture(b, now)
  }

  /** `getItemOutputDto`: the stored item as `viewerId` sees it. The last
      booking is the viewer-owned past booking of the item that ended
      latest, the next one the viewer-owned future booking that starts
      first; each is present only when such a booking exists. The comments
      are exactly those on the item. */
  function ItemView(bookings: seq<Booking>, comments: seq<Comment>, item: Item, viewerId: Id, now: Time)
    : (r: ItemOutputDto)
    requires item.id.Some?
    ensures r.id == item.id && r.name == item.name && r.description == item.description
    ensures r.available == item.available && r.requestId == ItemMapper.RequestIdOf(item)
    ensures r.lastBooking.Some? <==> exists b :: b in bookings && LastCandidate(b, item, viewerId, now)
    ensures r.lastBooking.Some? ==>
              exists b :: b in bookings && LastCandidate(b, item, viewerId, now) && r.lastBooking.value == ShortOf(b)
                          && forall c :: c in bookings && LastCandidate(c, item, viewerId, now) ==> c.end <= b.end
    ensures r.nextBooking.Some? <==> exists b :: b in bookings && NextCandidate(b, item, viewerId, now)
    ensures r.nextBooking.Some? ==>
              exists b :: b in bookings && NextCandidate(b, item, viewerId, now) && r.nextBooking.value == ShortOf(b)
                          && forall c :: c in bookings && NextCandidate(c, item, viewerId, now) ==> b.start <= c.start
    ensures r.comments.Some?
    ensures forall d :: d in r.comments.value <==>
              exists c :: c in comments && c.item.id == item.id && d == CommentMapper.ToCommentDto(c)
  {
    var last := FindLastBooking(bookings, item.id.value, viewerId, now);
    var next := FindNextBooking(bookings, item.id.value, viewerId, now);
    var dtos := CommentDtos(CommentsOf(comments, item.id));
    CommentDtosOfItem(comments, item.id);
    ItemMapper.ToOutputDto(item).(
      lastBooking := if last.Some? then Some(ShortOf(last.value)) else None,
      nextBooking := if next.Some? then Some(ShortOf(next.value)) else None,
      comments := Some(dtos))
  }

  /** The booking summary is for the owner's eyes: when every booking of the
      item records the item's owner, anyone else sees neither a last nor a
      next booking, whatever the bookings. */
  lemma NonOwnerSeesNoBookings(bookings: seq<Booking>, comments: seq<Comment>, item: Item, viewerId: Id, now: Time)
    requires item.id.Some?
    requires forall b :: b in bookings && b.item.id == item.id ==> b.item.owner == item.owner
    requires item.owner.id != Some(viewerId)
    ensures ItemView(bookings, comments, item, viewerId, now).lastBooking.None?
    ensures ItemView(bookings, comments, item, viewerId, now).nextBooking.None?
  {
  }

  /** `getItem`: the item with that id as the caller sees it. */
  function GetItem(items: seq<Item>, bookings: seq<Booking>, comments: seq<Comment>,
                   itemId: Id, userId: Id, now: Time): (r: Result<ItemOutputDto>)
    ensures r.Err? <==> forall i :: 0 <= i < |items| ==> items[i].id != Some(itemId)
    ensures r.Err? ==> r.error == NotFound("Item not found with id: " + IntToString(itemId))
    ensures r.Ok? ==> r.value.id == Some(itemId)
                      && exists it :: it in items && it.id == Some(itemId)
                                      && r.value == ItemView(bookings, comments, it, userId, now)
  {
    match FindItem(items, itemId)
    case None => Err(NotFound("Item not found with id: " + IntToString(itemId)))
    case Some(item) => Ok(ItemView(bookings, comments, item, userId, now))
  }

  /** `getOwnItems`: one page of the owner's items in ascending id order,
      each as the owner sees it. */
  function GetOwnItems(items: seq<Item>, bookings: seq<Booking>, comments: seq<Comment>,
                       ownerId: Id, from: int, size: int, now: Time): (r: seq<ItemOutputDto>)
    requires from >= 0 && size > 0
    requires forall i :: 0 <= i < |items| ==> items[i].id.Some?
    ensures |r| <= size
    ensures forall i :: 0 <= i < |r| ==>
              exists it :: it in items && it.owner.id == Some(ownerId)
                           && r[i] == ItemView(bookings, comments, it, ownerId, now)
    ensures forall i :: 0 <= i < |r| ==> r[i].id.Some?
    ensures forall i, j :: 0 <= i < j < |r| ==> r[i].id.value <= r[j].id.value
    ensures var own := FindAllByOwnerIdOrderById(items, ownerId, PageIndex(from, size), size);
            |r| == |own| && forall i :: 0 <= i < |r| ==> r[i] == ItemView(bookings, comments, own[i], ownerId, now)
  {
    var own := FindAllByOwnerIdOrderById(items, ownerId, PageIndex(from, size), size);
    ViewsOfOwn(items, bookings, comments, own, ownerId, now);
    Views(bookings, comments, own, ownerId, now)
  }

  /** Each view on the page shows one of the owner's stored items. */
  lemma ViewsOfOwn(items: seq<Item>, bookings: seq<Booking>, comments: seq<Comment>, own: seq<Item>,
                   ownerId: Id, now: Time)
    requires forall i :: 0 <= i < |items| ==> items[i].id.Some?
    requires forall i :: 0 <= i < |own| ==> own[i] in items && own[i].owner.id == Some(ownerId)
    requires forall i, j :: 0 <= i < j < |own| ==> IdKey(own[i]) <= IdKey(own[j])
    ensures var r := Views(bookings, comments, own, ownerId, now);
            forall i :: 0 <= i < |r| ==>
              && r[i].id.Some?
              && exists it :: it in items && it.owner.id == Some(ownerId)
                              && r[i] == ItemView(bookings, comments, it, ownerId, now)
    ensures var r := Views(bookings, comments, own, ownerId, now);
            forall i, j :: 0 <= i < j < |r| ==> r[i].id.value <= r[j].id.value
  {
    var r := Views(bookings, comments, own, ownerId, now);
    assert forall i :: 0 <= i < |r| ==> r[i].id.value == IdKey(own[i]);
    forall i | 0 <= i < |r|
      ensures && r[i].id.Some?
              && exists it :: it in items && it.owner.id == Some(ownerId)
                              && r[i] == ItemView(bookings, comments, it, ownerId, now)
    {
      var it := own[i];
      assert it in items && it.owner.id == Some(ownerId);
      assert r[i] == ItemView(bookings, comments, it, ownerId, now);
    }
  }

  /** Each of the items as `viewerId` sees it. */
  function Views(bookings: seq<Booking>, comments: seq<Comment>, items: seq<Item>, viewerId: Id, now: Time)
    : (r: seq<ItemOutputDto>)
    requires forall i :: 0 <= i < |items| ==> items[i].id.Some?
    ensures |r| == |items|
    ensures forall i :: 0 <= i < |r| ==> r[i].id == items[i].id
    ensures forall i :: 0 <= i < |r| ==> r[i] == ItemView(bookings, comments, items[i], viewerId, now)
  {
    seq(|items|, i requires 0 <= i < |items| => ItemView(bookings, comments, items[i], viewerId, now))
  }

  /** The item an update leaves behind: each of name, description and
      available replaced when the payload carries one, everything else
      kept. */
  function Patch(stored: Item, d: ItemDto): (r: Item)
    ensures r.id == stored.id && r.owner == stored.owner && r.request == stored.request
    ensures r.name == d.name.GetOr(stored.name)
    ensures r.description == d.description.GetOr(stored.description)
    ensures r.available == d.available.GetOr(stored.available)
  {
    stored.(name := d.name.GetOr(stored.name),
         description := d.description.GetOr(stored.description),
         available := d.available.GetOr(stored.available))
  }

  /** `update`: only the owner may change an item, and only the fields the
      payload carries. */
  function Update(t: ItemTable, ownerId: Id, itemId: Id, d: ItemDto): (r: Result<(ItemTable, ItemDto)>)
    ensures r.Err? <==> FindByIdAndOwnerId(t.rows, itemId, ownerId).None?
    ensures r.Err? ==> r.error == NotFound("Item with id " + IntToString(itemId) + " not found or user isn't owner")
    ensures r.Ok? ==>
              var stored := FindByIdAndOwnerId(t.rows, itemId, ownerId).value;
              var updated := r.value.0.rows;
              && r.value.0.lastId == t.lastId
              && |updated| == |t.rows|
              && (forall i :: 0 <= i < |t.rows| ==>
                    updated[i] == if t.rows[i].id == Some(itemId) then Patch(stored, d) else t.rows[i])
              && r.value.1 == ItemMapper.ToInputDto(Patch(stored, d))
              && r.value.1.id == Some(itemId)
  {
    match FindByIdAndOwnerId(t.rows, itemId, ownerId)
    case None => Err(NotFound("Item with id " + IntToString(itemId) + " not found or user isn't owner"))
    case Some(stored) =>
      var item := Patch(stored, d);
      Ok((ItemTable(SaveById(t.rows, ItemId, item), t.lastId), ItemMapper.ToInputDto(item)))
  }

  /** Patching is idempotent: the second application of a payload changes
      nothing more. */
  lemma PatchIdempotent(stored: Item, d: ItemDto)
    ensures Patch(Patch(stored, d), d) == Patch(stored, d)
  {
  }

  /** Once a row with the item's id has been written back, the owner lookup
      finds exactly that item. */
  lemma {:induction false} SavedIsFound(rows: seq<Item>, item: Item, k: nat, itemId: Id, ownerId: Id)
    requires k < |rows| && rows[k].id == Some(itemId)
    requires item.id == Some(itemId) && item.owner.id == Some(ownerId)
    ensures FindByIdAndOwnerId(SaveById(rows, ItemId, item), itemId, ownerId) == Some(item)
  {
    var saved := SaveById(rows, ItemId, item);
    assert saved[k] == item;
    var found := FindByIdAndOwnerId(saved, itemId, ownerId).value;
    var j :| 0 <= j < |saved| && saved[j] == found;
    assert rows[j].id == Some(itemId);
  }

  /** After an update the owner lookup finds the patched row. */
  lemma {:induction false} PatchedIsFound(t: ItemTable, ownerId: Id, itemId: Id, d: ItemDto)
    requires Update(t, ownerId, itemId, d).Ok?
    ensures FindByIdAndOwnerId(Update(t, ownerId, itemId, d).value.0.rows, itemId, ownerId)
            == Some(Patch(FindByIdAndOwnerId(t.rows, itemId, ownerId).value, d))
  {
    var stored := FindByIdAndOwnerId(t.rows, itemId, ownerId).value;
    var k :| 0 <= k < |t.rows| && t.rows[k] == stored;
    SavedIsFound(t.rows, Patch(stored, d), k, itemId, ownerId);
  }

  /** Writing back a row every copy of which is already in place changes
      nothing. */
  lemma SaveItemInPlace(rows: seq<Item>, item: Item)
    requires forall i :: 0 <= i < |rows| && rows[i].id == item.id ==> rows[i] == item
    ensures SaveById(rows, ItemId, item) == rows
  {
  }

  /** Repeating an update gives the same table and the same answer. */
  lemma {:induction false} UpdateIdempotent(t: ItemTable, ownerId: Id, itemId: Id, d: ItemDto)
    requires Update(t, ownerId, itemId, d).Ok?
    ensures Update(Update(t, ownerId, itemId, d).value.0, ownerId, itemId, d) == Update(t, ownerId, itemId, d)
  {
    var patched := Patch(FindByIdAndOwnerId(t.rows, itemId, ownerId).value, d);
    var t1 := Update(t, ownerId, itemId, d).value.0;
    PatchedIsFound(t, ownerId, itemId, d);
    PatchIdempotent(FindByIdAndOwnerId(t.rows, itemId, ownerId).value, d);
    assert Patch(patched, d) == patched;
    SaveItemInPlace(t1.rows, patched);
  }

  /** A payload with no fields leaves the table as it was. */
  lemma {:induction false} EmptyPatchKeepsTable(t: ItemTable, ownerId: Id, itemId: Id, id: Option<Id>, requestId: Option<Id>)
    requires UniqueIds(t.rows)
    requires Update(t, ownerId, itemId, ItemDto(id, None, None, None, requestId)).Ok?
    ensures Update(t, ownerId, itemId, ItemDto(id, None, None, None, requestId)).value.0 == t
  {
    var d := ItemDto(id, None, None, None, requestId);
    var stored := FindByIdAndOwnerId(t.rows, itemId, ownerId).value;
    var k :| 0 <= k < |t.rows| && t.rows[k] == stored;
    forall i | 0 <= i < |t.rows| && t.rows[i].id == Some(itemId) ensures i == k {
    }
    assert Patch(stored, d) == stored;
    SaveItemInPlace(t.rows, stored);
  }

  function InputDtos(items: seq<Item>): (r: seq<ItemDto>)
    ensures |r| == |items|
    ensures forall i :: 0 <= i < |items| ==> r[i] == ItemMapper.ToInputDto(items[i])
  {
    seq(|items|, i requires 0 <= i < |items| => ItemMapper.ToInputDto(items[i]))
  }

  /** `searchItem`: blank text finds nothing without searching; otherwise
      one page of the available items whose name or description holds the
      text in any letter case. */
  function SearchItem(items: seq<Item>, text: string, from: int, size: int): (r: seq<ItemDto>)
    requires from >= 0 && size > 0
    ensures IsBlank(text) ==> r == []
    ensures |r| <= size
    ensures forall i :: 0 <= i < |r| ==>
              exists it :: it in items && SearchHit(it, text) && r[i] == ItemMapper.ToInputDto(it)
    ensures !IsBlank(text) ==>
              var found := ItemRepository.SearchItem(items, text, PageIndex(from, size), size);
              |r| == |found| && forall i :: 0 <= i < |r| ==> r[i] == ItemMapper.ToInputDto(found[i])
  {
    if IsBlank(text) then []
    else
      var found := ItemRepository.SearchItem(items, text, PageIndex(from, size), size);
      SearchPageHits(items, text, PageIndex(from, size), size);
      var r := InputDtos(found);
      assert forall i :: 0 <= i < |r| ==> found[i] in items && SearchHit(found[i], text)
                                          && r[i] == ItemMapper.ToInputDto(found[i]);
      r
  }

  /** `create`: the owner must exist; a request id naming no request is
      dropped silently. An item whose id names a stored item is merged over
      it, owner and all; any other is saved under the next identity. */
  function Create(users: seq<User>, requests: seq<ItemRequest>, t: ItemTable, ownerId: Id, d: ItemDto)
    : (r: Result<(ItemTable, ItemDto)>)
    requires d.name.Some? && d.description.Some? && d.available.Some?
    ensures r.Err? <==> FindUser(users, ownerId).None?
    ensures r.Err? ==> r.error == NotFound(UserNotFoundMessage(ownerId))
    ensures r.Ok? ==>
              var owner := FindUser(users, ownerId).value;
              var request := if d.requestId.None? then None else FindRequest(requests, d.requestId.value);
              var item := Item(d.id, d.name.value, d.description.value, d.available.value, owner, request);
              var (t', dto) := r.value;
              && (HasId(t.rows, ItemId, d.id) ==>
                    && t'.lastId == t.lastId && |t'.rows| == |t.rows|
                    && (forall i :: 0 <= i < |t.rows| ==> t'.rows[i] == if t.rows[i].id == d.id then item else t.rows[i])
                    && dto == ItemMapper.ToInputDto(item))
              && (!HasId(t.rows, ItemId, d.id) ==>
                    && t'.lastId == t.lastId + 1
                    && t'.rows == t.rows + [item.(id := Some(t.lastId + 1))]
                    && dto == ItemMapper.ToInputDto(item.(id := Some(t.lastId + 1))))
    ensures r.Ok? ==>
              var dto := r.value.1;
              && dto.id.Some? && dto.name == d.name && dto.description == d.description && dto.available == d.available
              && (dto.requestId.Some? <==> d.requestId.Some? && FindRequest(requests, d.requestId.value).Some?)
              && (dto.requestId.Some? ==> dto.requestId == d.requestId)
  {
    match FindUser(users, ownerId)
    case None => Err(NotFound(UserNotFoundMessage(ownerId)))
    case Some(owner) =>
      var request := if d.requestId.None? then None else FindRequest(requests, d.requestId.value);
      var item := ItemMapper.ToItem(d, owner).(request := request);
      var saved := Save(t.rows, t.lastId, ItemId, ItemWithId, item);
      Ok((ItemTable(saved.rows, saved.lastId), ItemMapper.ToInputDto(saved.entity)))
  }

  /** In a valid table, looking up the id the item came back with finds
      the item just written: the payload's fields, the poster as owner. */
  lemma {:induction false} CreatedItemIsFound(users: seq<User>, requests: seq<ItemRequest>, t: ItemTable,
                                              ownerId: Id, d: ItemDto)
    requires Valid(t)
    requires d.name.Some? && d.description.Some? && d.available.Some?
    requires Create(users, requests, t, ownerId, d).Ok?
    ensures var (t', dto) := Create(users, requests, t, ownerId, d).value;
            && dto.id.Some?
            && FindItem(t'.rows, dto.id.value).Some?
            && FindItem(t'.rows, dto.id.value).value.owner == FindUser(users, ownerId).value
            && ItemMapper.ToInputDto(FindItem(t'.rows, dto.id.value).value) == dto
  {
    var owner := FindUser(users, ownerId).value;
    var request := if d.requestId.None? then None else FindRequest(requests, d.requestId.value);
    var item := ItemMapper.ToItem(d, owner).(request := request);
    var s := Save(t.rows, t.lastId, ItemId, ItemWithId, item);
    SavedIdIsUnique(t.rows, t.lastId, ItemId, ItemWithId, item);
    assert Create(users, requests, t, ownerId, d).value == (ItemTable(s.rows, s.lastId), ItemMapper.ToInputDto(s.entity));
    FoundItemIsOnlyMatch(s.rows, s.entity);
  }

  /** An item that is the only row carrying its id is what a lookup of that
      id finds. */
  lemma FoundItemIsOnlyMatch(rows: seq<Item>, item: Item)
    requires item.id.Some? && item in rows
    requires forall i :: 0 <= i < |rows| && rows[i].id == item.id ==> rows[i] == item
    ensures FindItem(rows, item.id.value) == Some(item)
  {
    var found := FindItem(rows, item.id.value).value;
    var i :| 0 <= i < |rows| && rows[i] == found;
  }

  /** A payload naming a stored item takes that item over: whoever owned
      it, it now belongs to the poster, under the same id. */
  lemma CreateTakesOverItem(users: seq<User>, requests: seq<ItemRequest>, t: ItemTable, ownerId: Id, d: ItemDto)
    requires Valid(t)
    requires d.name.Some? && d.description.Some? && d.available.Some?
    requires Create(users, requests, t, ownerId, d).Ok?
    requires d.id.Some? && FindItem(t.rows, d.id.value).Some?
    ensures var (t', dto) := Create(users, requests, t, ownerId, d).value;
            && t'.lastId == t.lastId && |t'.rows| == |t.rows| && dto.id == d.id
            && FindItem(t'.rows, d.id.value).Some?
            && FindItem(t'.rows, d.id.value).value.owner.id == Some(ownerId)
  {
    CreatedItemIsFound(users, requests, t, ownerId, d);
  }

  function CommentRefusedMessage(itemId: Id, bookerId: Id): string {
    "Item " + IntToString(itemId) + " booked by User " + IntToString(bookerId) + " was not found"
  }

  /** `commentRepository.save(comment)` followed by showing `comment`
      itself rather than what `save` returned. Persisting a comment without
      an id writes the new identity into it. A comment with an id is merged:
      over the stored comment of that id when there is one, else as a new
      row under the next identity; either way the shown comment keeps the
      id it came with. */
  function SaveComment(t: CommentTable, c: Comment): (r: (CommentTable, Comment))
    ensures HasId(t.rows, CommentId, c.id) ==>
              && r.0.lastId == t.lastId && |r.0.rows| == |t.rows|
              && forall i :: 0 <= i < |t.rows| ==> r.0.rows[i] == if t.rows[i].id == c.id then c else t.rows[i]
    ensures !HasId(t.rows, CommentId, c.id) ==>
              r.0 == CommentTable(t.rows + [c.(id := Some(t.lastId + 1))], t.lastId + 1)
    ensures r.1 == if c.id.None? then c.(id := Some(t.lastId + 1)) else c
    ensures c.id.None? || HasId(t.rows, CommentId, c.id) ==> r.1 in r.0.rows
  {
    var saved := Save(t.rows, t.lastId, CommentId, CommentWithId, c);
    (CommentTable(saved.rows, saved.lastId), if c.id.None? then saved.entity else c)
  }

  /** `createComment`: the author needs some booking that has ended, on any
      item; the comment goes on that booking's item, by that booking's
      booker, stamped `now`. The path's item id is used only in the error
      message. */
  function CreateComment(bookings: seq<Booking>, t: CommentTable, bookerId: Id, itemId: Id,
                         d: CommentDto, now: Time): (r: Result<(CommentTable, CommentDto)>)
    ensures r.Err? <==> forall i :: 0 <= i < |bookings| ==> !(BookedBy(bookings[i], bookerId) && IsPast(bookings[i], now))
    ensures r.Err? ==> r.error == BadRequest(CommentRefusedMessage(itemId, bookerId))
    ensures r.Ok? ==>
              exists b :: b in bookings && BookedBy(b, bookerId) && IsPast(b, now)
                          && var saved := SaveComment(t, Comment(d.id, d.text, Some(now), b.item, b.booker));
                             r.value == (saved.0, CommentMapper.ToCommentDto(saved.1))
    ensures r.Ok? ==> r.value.1.text == d.text && r.value.1.created == Some(now) && r.value.1.id.Some?
  {
    match FindByBookerIdAndPastState(bookings, bookerId, now)
    case None => Err(BadRequest(CommentRefusedMessage(itemId, bookerId)))
    case Some(b) =>
      var c := CommentMapper.ToComment(d, b.item, b.booker).(created := Some(now));
      var (t', shown) := SaveComment(t, c);
      Ok((t', CommentMapper.ToCommentDto(shown)))
  }

  /** The item id plays no part in whether or what is commented. */
  lemma CommentIgnoresItemId(bookings: seq<Booking>, t: CommentTable, bookerId: Id, a: Id, b: Id,
                             d: CommentDto, now: Time)
    ensures CreateComment(bookings, t, bookerId, a, d, now).Ok? == CreateComment(bookings, t, bookerId, b, d, now).Ok?
    ensures CreateComment(bookings, t, bookerId, a, d, now).Ok? ==>
              CreateComment(bookings, t, bookerId, a, d, now) == CreateComment(bookings, t, bookerId, b, d, now)
  {
  }

  /** The comment written shows up on the view of the item it was put on,
      and it is the comment returned unless the payload named an id no
      stored comment has. */
  lemma {:induction false} CommentShownOnItem(bookings: seq<Booking>, t: CommentTable, bookerId: Id, itemId: Id,
                                              d: CommentDto, now: Time, viewerId: Id)
    requires CreateComment(bookings, t, bookerId, itemId, d, now).Ok?
    ensures var (t', dto) := CreateComment(bookings, t, bookerId, itemId, d, now).value;
            exists c :: && c in t'.rows && c.text == d.text && c.created == Some(now) && c.author.id == Some(bookerId)
                        && (c.item.id.Some? ==>
                              CommentMapper.ToCommentDto(c) in ItemView(bookings, t'.rows, c.item, viewerId, now).comments.value)
                        && (d.id.None? || HasId(t.rows, CommentId, d.id) ==> CommentMapper.ToCommentDto(c) == dto)
  {
    var (t', dto) := CreateComment(bookings, t, bookerId, itemId, d, now).value;
    var b := FindByBookerIdAndPastState(bookings, bookerId, now).value;
    var c := Comment(d.id, d.text, Some(now), b.item, b.booker);
    var written := Save(t.rows, t.lastId, CommentId, CommentWithId, c).entity;
    assert written in t'.rows;
    if d.id.None? || HasId(t.rows, CommentId, d.id) {
      assert dto == CommentMapper.ToCommentDto(written);
    }
    assert written.text == d.text && written.created == Some(now) && written.author.id == Some(bookerId);
  }

  /** A payload naming an id no stored comment has: the comment is stored
      under the next identity, yet the service answers with the payload's
      id, which names no comment. */
  lemma CommentEchoesUnknownId()
    ensures var owner := User(Some(1), Some("owner"), Some("owner@mail.com"));
            var booker := User(Some(2), Some("booker"), Some("booker@mail.com"));
            var drill := Item(Some(3), "drill", "cordless", true, owner, None);
            var stay := Booking(Some(1), 10, 20, drill, booker, APPROVED);
            var r := CreateComment([stay], CommentTable([], 0), 2, 3, CommentDto(Some(7), "great", None, None), 30);
            && r.Ok? && r.value.1.id == Some(7)
            && r.value.0.rows == [Comment(Some(1), "great", Some(30), drill, booker)]
  {
    var owner := User(Some(1), Some("owner"), Some("owner@mail.com"));
    var booker := User(Some(2), Some("booker"), Some("booker@mail.com"));
    var drill := Item(Some(3), "drill", "cordless", true, owner, None);
    var stay := Booking(Some(1), 10, 20, drill, booker, APPROVED);
    assert [stay][0] == stay;
  }

  /** A finished stay of the booker on the item with that id. */
  predicate PastStayOn(b: Booking, bookerId: Id, itemId: Id, now: Time) {
    BookedBy(b, bookerId) && IsPast(b, now) && b.item.id == Some(itemId)
  }

  /** `createComment` as evidently intended: the author needs a finished
      stay on the very item being commented. */
  function CreateCommentOnItem(bookings: seq<Booking>, t: CommentTable, bookerId: Id, itemId: Id,
                               d: CommentDto, now: Time): (r: Result<(CommentTable, CommentDto)>)
    ensures r.Err? <==> forall i :: 0 <= i < |bookings| ==> !PastStayOn(bookings[i], bookerId, itemId, now)
    ensures r.Err? ==> r.error == BadRequest(CommentRefusedMessage(itemId, bookerId))
    ensures r.Ok? ==>
              exists b :: b in bookings && PastStayOn(b, bookerId, itemId, now)
                          && var saved := SaveComment(t, Comment(d.id, d.text, Some(now), b.item, b.booker));
                             r.value == (saved.0, CommentMapper.ToCommentDto(saved.1))
    ensures r.Ok? ==> r.value.1.text == d.text && r.value.1.created == Some(now) && r.value.1.id.Some?
  {
    match FindFirst(bookings, (b: Booking) => PastStayOn(b, bookerId, itemId, now))
    case None => Err(BadRequest(CommentRefusedMessage(itemId, bookerId)))
    case Some(b) =>
      var c := CommentMapper.ToComment(d, b.item, b.booker).(created := Some(now));
      var (t', shown) := SaveComment(t, c);
      Ok((t', CommentMapper.ToCommentDto(shown)))
  }

  /** Under the intended rule the comment written shows up on the view of
      the item it was written for, and it is the comment returned unless
      the payload named an id no stored comment has. */
  lemma {:induction false} CommentOnItemShown(bookings: seq<Booking>, t: CommentTable, bookerId: Id, itemId: Id,
                                              d: CommentDto, now: Time, item: Item, viewerId: Id)
    requires item.id == Some(itemId)
    requires CreateCommentOnItem(bookings, t, bookerId, itemId, d, now).Ok?
    ensures var (t', dto) := CreateCommentOnItem(bookings, t, bookerId, itemId, d, now).value;
            exists c :: && c in t'.rows && c.text == d.text && c.item.id == Some(itemId)
                        && CommentMapper.ToCommentDto(c) in ItemView(bookings, t'.rows, item, viewerId, now).comments.value
                        && (d.id.None? || HasId(t.rows, CommentId, d.id) ==> CommentMapper.ToCommentDto(c) == dto)
  {
    var (t', dto) := CreateCommentOnItem(bookings, t, bookerId, itemId, d, now).value;
    var b := FindFirst(bookings, (b: Booking) => PastStayOn(b, bookerId, itemId, now)).value;
    var c := Comment(d.id, d.text, Some(now), b.item, b.booker);
    var written := Save(t.rows, t.lastId, CommentId, CommentWithId, c).entity;
    assert written in t'.rows && written.item.id == Some(itemId);
    if d.id.None? || HasId(t.rows, CommentId, d.id) {
      assert dto == CommentMapper.ToCommentDto(written);
    }
  }

  /** The intended rule is the stricter one: whatever it accepts the code as
      written accepts too, and the two refuse with the same message. */
  lemma {:induction false} OnItemIsStricter(bookings: seq<Booking>, t: CommentTable, bookerId: Id, itemId: Id,
                                            d: CommentDto, now: Time)
    ensures CreateCommentOnItem(bookings, t, bookerId, itemId, d, now).Ok?
            ==> CreateComment(bookings, t, bookerId, itemId, d, now).Ok?
    ensures CreateComment(bookings, t, bookerId, itemId, d, now).Err?
            ==> CreateComment(bookings, t, bookerId, itemId, d, now)
                == CreateCommentOnItem(bookings, t, bookerId, itemId, d, now)
  {
    if CreateCommentOnItem(bookings, t, bookerId, itemId, d, now).Ok? {
      var i :| 0 <= i < |bookings| && PastStayOn(bookings[i], bookerId, itemId, now);
      assert BookedBy(bookings[i], bookerId) && IsPast(bookings[i], now);
    }
  }

  /** The code as written lets a booker who stayed at item 3 comment on
      item 5, and files the comment under item 3; the intended rule refuses. */
  lemma CommentLandsOnAnotherItem()
    ensures var owner := User(Some(1), Some("owner"), Some("owner@mail.com"));
            var booker := User(Some(2), Some("booker"), Some("booker@mail.com"));
            var drill := Item(Some(3), "drill", "cordless", true, owner, None);
            var stay := Booking(Some(1), 10, 20, drill, booker, APPROVED);
            var d := CommentDto(None, "great", None, None);
            var asWritten := CreateComment([stay], CommentTable([], 0), 2, 5, d, 30);
            var intended := CreateCommentOnItem([stay], CommentTable([], 0), 2, 5, d, 30);
            && asWritten.Ok? && asWritten.value.0.rows[0].item.id == Some(3)
            && intended == Err(BadRequest(CommentRefusedMessage(5, 2)))
  {
    var owner := User(Some(1), Some("owner"), Some("owner@mail.com"));
    var booker := User(Some(2), Some("booker"), Some("booker@mail.com"));
    var drill := Item(Some(3), "drill", "cordless", true, owner, None);
    var stay := Booking(Some(1), 10, 20, drill, booker, APPROVED);
    assert [stay][0] == stay;
  }
}
