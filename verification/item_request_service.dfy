/** The item-request workflow: posting a request, reading one, listing
    one's own and browsing everybody else's. Every operation first checks
    that the calling user exists. */
module ItemRequestService {
  import opened Common
  import opened Model
  import opened Seqs
  import opened Text
  import opened Tables
  import opened ItemRepository
  import ItemMapper
  import ItemRequestMapper

  /** The requests table and the last id its identity column handed out. */
  datatype RequestTable = RequestTable(rows: seq<ItemRequest>, lastId: Id)

  /** Every row carries an id the identity column handed out. */
  ghost predicate Valid(t: RequestTable) {
    && 0 <= t.lastId
    && forall i :: 0 <= i < |t.rows| ==> t.rows[i].id.Some? && 0 < t.rows[i].id.value <= t.lastId
  }

  /** `getItemsByRequestId`: the items answering the request, as shown. A
      request without an id matches no item. */
  function ItemsFor(items: seq<Item>, requestId: Option<Id>): (r: seq<ItemOutputDto>)
    ensures forall o :: o in r <==>
              exists it :: it in items && requestId.Some? && AnswersRequest(it, requestId.value)
                           && o == ItemMapper.ToOutputDto(it)
  {
    if requestId.None? then []
    else
      var found := FindAllItemsByRequestId(items, requestId.value);
      OutputDtosMembers(found);
      OutputDtos(found)
  }

  function OutputDtos(found: seq<Item>): (r: seq<ItemOutputDto>)
    ensures |r| == |found|
    ensures forall i :: 0 <= i < |found| ==> r[i] == ItemMapper.ToOutputDto(found[i])
  {
    seq(|found|, i requires 0 <= i < |found| => ItemMapper.ToOutputDto(found[i]))
  }

  /** Each shown item is one of the found items, and each found item is
      shown. */
  lemma OutputDtosMembers(found: seq<Item>)
    ensures forall o :: o in OutputDtos(found) <==> exists it :: it in found && o == ItemMapper.ToOutputDto(it)
  {
    var r := OutputDtos(found);
    forall o ensures o in r <==> exists it :: it in found && o == ItemMapper.ToOutputDto(it) {
      if o in r {
        var i :| 0 <= i < |r| && r[i] == o;
        assert found[i] in found;
      }
      if exists it :: it in found && o == ItemMapper.ToOutputDto(it) {
        var it :| it in found && o == ItemMapper.ToOutputDto(it);
        var i :| 0 <= i < |found| && found[i] == it;
        assert r[i] == o;
      }
    }
  }

  /** A request as shown: its own fields and the items answering it. */
  function RequestView(items: seq<Item>, q: ItemRequest): (d: ItemRequestDto)
    ensures d.id == q.id && d.description == q.description && d.created == Some(q.created)
    ensures d.items == ItemsFor(items, q.id)
  {
    ItemRequestMapper.ToDto(q, ItemsFor(items, q.id))
  }

  function RequestViews(items: seq<Item>, qs: seq<ItemRequest>): (r: seq<ItemRequestDto>)
    ensures |r| == |qs|
    ensures forall i :: 0 <= i < |qs| ==> r[i] == RequestView(items, qs[i])
    ensures forall i :: 0 <= i < |qs| ==> r[i].created == Some(qs[i].created)
  {
    seq(|qs|, i requires 0 <= i < |qs| => RequestView(items, qs[i]))
  }

  function RequestNotFoundMessage(id: Id): string {
    "Item request with id " + IntToString(id) + " not exist"
  }

  /** `getById`: the caller must exist, then the request must. */
  function GetById(users: seq<User>, requests: seq<ItemRequest>, items: seq<Item>,
                   requesterId: Id, requestId: Id): (r: Result<ItemRequestDto>)
    ensures FindUser(users, requesterId).None? ==> r == Err(NotFound(UserNotFoundMessage(requesterId)))
    ensures FindUser(users, requesterId).Some? && FindRequest(requests, requestId).None?
            ==> r == Err(NotFound(RequestNotFoundMessage(requestId)))
    ensures r.Ok? <==> FindUser(users, requesterId).Some? && FindRequest(requests, requestId).Some?
    ensures r.Ok? ==> r.value.id == Some(requestId)
                      && exists q :: q in requests && q.id == Some(requestId) && r.value == RequestView(items, q)
  {
    if FindUser(users, requesterId).None? then Err(NotFound(UserNotFoundMessage(requesterId)))
    else
      match FindRequest(requests, requestId)
      case None => Err(NotFound(RequestNotFoundMessage(requestId)))
      case Some(q) => Ok(ItemRequestMapper.ToDto(q, ItemsFor(items, Some(requestId))))
  }

  /** `create`: the request is stamped `now` whatever the payload said,
      linked to the existing requester and saved under the next identity. */
  function Create(users: seq<User>, t: RequestTable, items: seq<Item>, requesterId: Id,
                  d: ItemRequestDto, now: Time): (r: Result<(RequestTable, ItemRequestDto)>)
    ensures r.Err? <==> FindUser(users, requesterId).None?
    ensures r.Err? ==> r.error == NotFound(UserNotFoundMessage(requesterId))
    ensures r.Ok? ==>
              var saved := ItemRequest(Some(t.lastId + 1), d.description, FindUser(users, requesterId).value, now);
              && r.value.0 == RequestTable(t.rows + [saved], t.lastId + 1)
              && r.value.1 == RequestView(items, saved)
              && r.value.1.created == Some(now)
  {
    var stamped := d.(created := Some(now));
    match FindUser(users, requesterId)
    case None => Err(NotFound(UserNotFoundMessage(requesterId)))
    case Some(requester) =>
      var saved := ItemRequestMapper.ToRequest(stamped, requester).(id := Some(t.lastId + 1));
      Ok((RequestTable(t.rows + [saved], t.lastId + 1), RequestView(items, saved)))
  }

  /** Whether the request was made by the user with that id. */
  predicate RequestedBy(q: ItemRequest, userId: Id) {
    q.requester.id == Some(userId)
  }

  /** `requester.id <> userId`: a request without a requester id is
      excluded too, as SQL compares null with nothing. */
  predicate RequestedByOther(q: ItemRequest, userId: Id) {
    q.requester.id.Some? && q.requester.id.value != userId
  }

  /** `findAllByRequesterIdOrderByCreated`. */
  function OwnRequests(requests: seq<ItemRequest>, requesterId: Id): (r: seq<ItemRequest>)
    ensures forall q :: q in r <==> q in requests && RequestedBy(q, requesterId)
    ensures forall i, j :: 0 <= i < j < |r| ==> r[i].created <= r[j].created
  {
    var p := (q: ItemRequest) => RequestedBy(q, requesterId);
    var own := Filter(requests, p);
    FilterMultiset(requests, p);
    var r := SortBy(own, (q: ItemRequest) => q.created);
    forall q ensures q in r <==> q in requests && p(q) {
      SortByMembers(own, (q: ItemRequest) => q.created, q);
    }
    r
  }

  /** `getOwnRequests`: the caller's requests, oldest first, each with its
      answering items. */
  function GetOwnRequests(users: seq<User>, requests: seq<ItemRequest>, items: seq<Item>, requesterId: Id)
    : (r: Result<seq<ItemRequestDto>>)
    ensures r.Err? <==> FindUser(users, requesterId).None?
    ensures r.Err? ==> r.error == NotFound(UserNotFoundMessage(requesterId))
    ensures r.Ok? ==> |r.value| == |OwnRequests(requests, requesterId)|
    ensures r.Ok? ==> forall i :: 0 <= i < |r.value| ==>
              r.value[i] == RequestView(items, OwnRequests(requests, requesterId)[i])
    ensures r.Ok? ==> forall i :: 0 <= i < |r.value| ==>
              exists q :: q in requests && RequestedBy(q, requesterId) && r.value[i] == RequestView(items, q)
    ensures r.Ok? ==> forall q :: q in requests && RequestedBy(q, requesterId) ==> RequestView(items, q) in r.value
    ensures r.Ok? ==> forall i :: 0 <= i < |r.value| ==> r.value[i].created.Some?
    ensures r.Ok? ==> forall i, j :: 0 <= i < j < |r.value| ==> r.value[i].created.value <= r.value[j].created.value
  {
    if FindUser(users, requesterId).None? then Err(NotFound(UserNotFoundMessage(requesterId)))
    else
      OwnViews(requests, items, requesterId);
      OwnViewsOrder(requests, items, requesterId);
      Ok(RequestViews(items, OwnRequests(requests, requesterId)))
  }

  /** The own requests are a reordering of the caller's rows: each is
      listed as often as the table holds it. */
  lemma OwnRequestsCounts(requests: seq<ItemRequest>, requesterId: Id)
    ensures forall q :: multiset(OwnRequests(requests, requesterId))[q]
                        == if RequestedBy(q, requesterId) then multiset(requests)[q] else 0
  {
    var p := (q: ItemRequest) => RequestedBy(q, requesterId);
    FilterMultiset(requests, p);
    assert multiset(OwnRequests(requests, requesterId)) == multiset(Filter(requests, p));
  }

  /** The views of the own requests show exactly those requests. */
  lemma OwnViews(requests: seq<ItemRequest>, items: seq<Item>, requesterId: Id)
    ensures var r := RequestViews(items, OwnRequests(requests, requesterId));
            && (forall i :: 0 <= i < |r| ==>
                  exists q :: q in requests && RequestedBy(q, requesterId) && r[i] == RequestView(items, q))
            && (forall q :: q in requests && RequestedBy(q, requesterId) ==> RequestView(items, q) in r)
  {
    var own := OwnRequests(requests, requesterId);
    var r := RequestViews(items, own);
    ViewsOf(items, own);
    forall i | 0 <= i < |r|
      ensures exists q :: q in requests && RequestedBy(q, requesterId) && r[i] == RequestView(items, q)
    {
      assert own[i] in own && r[i] == RequestView(items, own[i]);
    }
  }

  /** The views of the own requests are listed oldest first. */
  lemma OwnViewsOrder(requests: seq<ItemRequest>, items: seq<Item>, requesterId: Id)
    ensures var r := RequestViews(items, OwnRequests(requests, requesterId));
            && (forall i :: 0 <= i < |r| ==> r[i].created.Some?)
            && (forall i, j :: 0 <= i < j < |r| ==> r[i].created.value <= r[j].created.value)
  {
  }

  /** Each view shows one of the requests, and every request is shown. */
  lemma ViewsOf(items: seq<Item>, qs: seq<ItemRequest>)
    ensures forall i :: 0 <= i < |qs| ==> qs[i] in qs && RequestViews(items, qs)[i] == RequestView(items, qs[i])
    ensures forall q :: q in qs ==> RequestView(items, q) in RequestViews(items, qs)
  {
    var r := RequestViews(items, qs);
    forall q | q in qs ensures RequestView(items, q) in r {
      var i :| 0 <= i < |qs| && qs[i] == q;
      assert r[i] == RequestView(items, q);
    }
  }

  /** Everybody else's requests, in table order. */
  function Others(requests: seq<ItemRequest>, userId: Id): (r: seq<ItemRequest>)
    ensures forall q :: q in r <==> q in requests && RequestedByOther(q, userId)
    ensures forall q :: multiset(r)[q] == if RequestedByOther(q, userId) then multiset(requests)[q] else 0
  {
    var p := (q: ItemRequest) => RequestedByOther(q, userId);
    FilterMultiset(requests, p);
    Filter(requests, p)
  }

  /** The sort key of `Sort.by(DESC, "created")`. */
  function NewestFirst(q: ItemRequest): int {
    -q.created
  }

  /** Everybody else's requests, newest first. */
  function OthersRequests(requests: seq<ItemRequest>, userId: Id): (r: seq<ItemRequest>)
    ensures forall q :: q in r <==> q in requests && RequestedByOther(q, userId)
    ensures forall q :: multiset(r)[q] == if RequestedByOther(q, userId) then multiset(requests)[q] else 0
    ensures forall i, j :: 0 <= i < j < |r| ==> r[i].created >= r[j].created
  {
    var others := Others(requests, userId);
    var r := SortBy(others, NewestFirst);
    forall q ensures q in r <==> q in others {
      SortByMembers(others, NewestFirst, q);
    }
    r
  }

  /** `getAllRequests`: one page of everybody else's requests, newest
      first, each with its answering items. */
  function GetAllRequests(users: seq<User>, requests: seq<ItemRequest>, items: seq<Item>,
                          userId: Id, from: int, size: int): (r: Result<seq<ItemRequestDto>>)
    requires from >= 0 && size > 0
    ensures r.Err? <==> FindUser(users, userId).None?
    ensures r.Err? ==> r.error == NotFound(UserNotFoundMessage(userId))
    ensures r.Ok? ==> |r.value| <= size
    ensures r.Ok? ==> forall i :: 0 <= i < |r.value| ==>
              exists q :: q in requests && RequestedByOther(q, userId) && r.value[i] == RequestView(items, q)
    ensures r.Ok? ==> forall i :: 0 <= i < |r.value| ==> r.value[i].created.Some?
    ensures r.Ok? ==> forall i, j :: 0 <= i < j < |r.value| ==> r.value[i].created.value >= r.value[j].created.value
    ensures r.Ok? ==> var page := OthersPage(requests, userId, from, size);
                      |r.value| == |page| && forall i :: 0 <= i < |page| ==> r.value[i] == RequestView(items, page[i])
  {
    if FindUser(users, userId).None? then Err(NotFound(UserNotFoundMessage(userId)))
    else
      var page := OthersPage(requests, userId, from, size);
      ViewsOf(items, page);
      Ok(RequestViews(items, page))
  }

  /** The page `from / size` of everybody else's requests, newest first.
      The request at offset `i` stands at overall position
      `from / size * size + i`: at most that many of the others' requests
      are newer, and more than that many are no older. */
  function OthersPage(requests: seq<ItemRequest>, userId: Id, from: int, size: int): (r: seq<ItemRequest>)
    requires from >= 0 && size > 0
    ensures |r| <= size
    ensures |r| == PageLength(|Others(requests, userId)|, PageIndex(from, size), size)
    ensures forall i :: 0 <= i < |r| ==> r[i] in requests && RequestedByOther(r[i], userId)
    ensures forall i :: 0 <= i < |r| ==>
              AtRank(Others(requests, userId), NewestFirst, r[i], PageIndex(from, size) * size + i)
    ensures forall i, j :: 0 <= i < j < |r| ==> r[i].created >= r[j].created
  {
    var others := Others(requests, userId);
    var page := PageIndex(from, size);
    PageOfSortBy(others, NewestFirst, page, size);
    Page(OthersRequests(requests, userId), page, size)
  }

  /** Browsing misses none of the others' requests: each is on the page
      some `from` selects, and one whose creation time no other shares is
      on every page whose rows span its rank, at the offset that rank names
      there. */
  lemma {:induction false} EveryOtherRequestIsBrowsed(requests: seq<ItemRequest>, userId: Id, size: int,
                                                     q: ItemRequest)
    requires size > 0
    requires q in requests && RequestedByOther(q, userId)
    ensures exists from: int :: from >= 0 && q in OthersPage(requests, userId, from, size)
    ensures var others := Others(requests, userId);
            var n := CountBelow(others, NewestFirst, NewestFirst(q));
            CountBelow(others, NewestFirst, NewestFirst(q) + 1) == n + 1 ==>
              forall from: int :: from >= 0 ==>
                var page := PageIndex(from, size);
                page * size <= n < page * size + size ==>
                  && n - page * size < |OthersPage(requests, userId, from, size)|
                  && OthersPage(requests, userId, from, size)[n - page * size] == q
  {
    OtherRequestOnSomePage(requests, userId, size, q);
    var others := Others(requests, userId);
    var n := CountBelow(others, NewestFirst, NewestFirst(q));
    if CountBelow(others, NewestFirst, NewestFirst(q) + 1) == n + 1 {
      OtherRequestAtRank(requests, userId, size, q, n);
    }
  }

  lemma OtherRequestOnSomePage(requests: seq<ItemRequest>, userId: Id, size: int, q: ItemRequest)
    requires size > 0
    requires q in requests && RequestedByOther(q, userId)
    ensures exists from: int :: from >= 0 && q in OthersPage(requests, userId, from, size)
  {
    var others := Others(requests, userId);
    var sorted := SortBy(others, NewestFirst);
    PagesCover(others, NewestFirst, size, q);
    var p: nat :| q in Page(sorted, p, size);
    NatProduct(p, size);
    var from: nat := p * size;
    PageIndexOfStart(p, size);
    OthersPageIsPage(requests, userId, from, size);
  }

  lemma OtherRequestAtRank(requests: seq<ItemRequest>, userId: Id, size: int, q: ItemRequest, n: nat)
    requires size > 0
    requires q in requests && RequestedByOther(q, userId)
    requires n == CountBelow(Others(requests, userId), NewestFirst, NewestFirst(q))
    requires CountBelow(Others(requests, userId), NewestFirst, NewestFirst(q) + 1) == n + 1
    ensures forall from: int :: from >= 0 ==>
              var page := PageIndex(from, size);
              page * size <= n < page * size + size ==>
                && n - page * size < |OthersPage(requests, userId, from, size)|
                && OthersPage(requests, userId, from, size)[n - page * size] == q
  {
    forall from: int | from >= 0
      ensures var page := PageIndex(from, size);
              page * size <= n < page * size + size ==>
                && n - page * size < |OthersPage(requests, userId, from, size)|
                && OthersPage(requests, userId, from, size)[n - page * size] == q
    {
      var page := PageIndex(from, size);
      if page * size <= n < page * size + size {
        OthersPageAt(requests, userId, from, size, q, n);
      }
    }
  }


  lemma OthersPageAt(requests: seq<ItemRequest>, userId: Id, from: int, size: int, q: ItemRequest, n: nat)
    requires from >= 0 && size > 0
    requires q in Others(requests, userId)
    requires n == CountBelow(Others(requests, userId), NewestFirst, NewestFirst(q))
    requires CountBelow(Others(requests, userId), NewestFirst, NewestFirst(q) + 1) == n + 1
    requires PageIndex(from, size) * size <= n < PageIndex(from, size) * size + size
    ensures n - PageIndex(from, size) * size < |OthersPage(requests, userId, from, size)|
    ensures OthersPage(requests, userId, from, size)[n - PageIndex(from, size) * size] == q
  {
    OthersPageIsPage(requests, userId, from, size);
    NewestFirstPaged(Others(requests, userId), size, q, PageIndex(from, size));
  }

  lemma OthersPageIsPage(requests: seq<ItemRequest>, userId: Id, from: int, size: int)
    requires from >= 0 && size > 0
    ensures OthersPage(requests, userId, from, size)
            == Page(SortBy(Others(requests, userId), NewestFirst), PageIndex(from, size), size)
  {
  }

  lemma NewestFirstPaged(others: seq<ItemRequest>, size: nat, q: ItemRequest, page: nat)
    requires size > 0 && q in others
    requires CountBelow(others, NewestFirst, NewestFirst(q) + 1) == CountBelow(others, NewestFirst, NewestFirst(q)) + 1
    requires page * size <= CountBelow(others, NewestFirst, NewestFirst(q)) < page * size + size
    ensures var n := CountBelow(others, NewestFirst, NewestFirst(q));
            && n - page * size < |Page(SortBy(others, NewestFirst), page, size)|
            && Page(SortBy(others, NewestFirst), page, size)[n - page * size] == q
  {
    UniqueKeyPaged(others, NewestFirst, size, q, NewestFirst(q), page);
  }

  /** With request ids unique, nobody is shown a request of their own when
      browsing everybody else's. */
  lemma {:induction false} OwnRequestsNeverBrowsed(users: seq<User>, requests: seq<ItemRequest>, items: seq<Item>,
                                                   userId: Id, from: int, size: int, q: ItemRequest)
    requires from >= 0 && size > 0
    requires forall i, j :: 0 <= i < j < |requests| && requests[i].id.Some? ==> requests[i].id != requests[j].id
    requires q in requests && q.id.Some? && RequestedBy(q, userId)
    ensures var r := GetAllRequests(users, requests, items, userId, from, size);
            r.Ok? ==> forall i :: 0 <= i < |r.value| ==> r.value[i].id != q.id
  {
    var r := GetAllRequests(users, requests, items, userId, from, size);
    if r.Ok? {
      var page := OthersPage(requests, userId, from, size);
      assert r.value == RequestViews(items, page);
      forall i | 0 <= i < |r.value| ensures r.value[i].id != q.id {
        assert r.value[i].id == page[i].id && page[i] != q;
      }
    }
  }

  /** A posted request is the poster's own: it shows up, exactly as
      returned, among the requests they list. */
  lemma {:induction false} CreatedIsOwn(users: seq<User>, t: RequestTable, items: seq<Item>, requesterId: Id,
                                        d: ItemRequestDto, now: Time)
    requires Create(users, t, items, requesterId, d, now).Ok?
    ensures var (t', dto) := Create(users, t, items, requesterId, d, now).value;
            && RequestedBy(t'.rows[|t.rows|], requesterId)
            && GetOwnRequests(users, t'.rows, items, requesterId).Ok?
            && dto in GetOwnRequests(users, t'.rows, items, requesterId).value
  {
    var (t', dto) := Create(users, t, items, requesterId, d, now).value;
    var saved := t'.rows[|t.rows|];
    assert saved in t'.rows;
  }

  /** Posting keeps the table valid, and the new id is on the new row only. */
  lemma CreatePreservesValid(users: seq<User>, t: RequestTable, items: seq<Item>, requesterId: Id,
                             d: ItemRequestDto, now: Time)
    requires Valid(t)
    requires Create(users, t, items, requesterId, d, now).Ok?
    ensures var t' := Create(users, t, items, requesterId, d, now).value.0;
            && Valid(t')
            && forall i :: 0 <= i < |t'.rows| && t'.rows[i].id == Some(t.lastId + 1) ==> i == |t.rows|
  {
  }

  /** A posted request can be read back under its new id, by its poster,
      exactly as it was returned. */
  lemma {:induction false} CreatedIsReadable(users: seq<User>, t: RequestTable, items: seq<Item>, requesterId: Id,
                                             d: ItemRequestDto, now: Time)
    requires Valid(t)
    requires Create(users, t, items, requesterId, d, now).Ok?
    ensures var (t', dto) := Create(users, t, items, requesterId, d, now).value;
            GetById(users, t'.rows, items, requesterId, t.lastId + 1) == Ok(dto)
  {
    CreatePreservesValid(users, t, items, requesterId, d, now);
    var (t', dto) := Create(users, t, items, requesterId, d, now).value;
    var found := FindRequest(t'.rows, t.lastId + 1);
    assert found == Some(t'.rows[|t.rows|]);
  }
}
