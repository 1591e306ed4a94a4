/** The item queries, as filters and orderings over the table of items. */
module ItemRepository {
  import opened Common
  import opened Model
  import opened Seqs
  import opened Text

  /** `upper(column) like upper('%' || text || '%')`. */
  predicate MatchesText(column: string, text: string) {
    Contains(Upper(column), Upper(text))
  }

  /** The search condition: an available item whose name or description
      holds the text, ignoring letter case. */
  predicate SearchHit(item: Item, text: string) {
    item.available && (MatchesText(item.name, text) || MatchesText(item.description, text))
  }

  /** Every item the search condition selects, in table order. */
  function SearchAll(items: seq<Item>, text: string): (r: seq<Item>)
    ensures forall it :: it in r <==> it in items && SearchHit(it, text)
    decreases |items|
  {
    if |items| == 0 then []
    else
      var rest := SearchAll(items[1..], text);
      assert forall it :: it in items <==> it == items[0] || it in items[1..];
      if SearchHit(items[0], text) then [items[0]] + rest else rest
  }

  /** The search finds every selected item as often as the table holds it,
      and no other item. */
  lemma {:induction false} SearchAllCounts(items: seq<Item>, text: string)
    ensures forall it :: multiset(SearchAll(items, text))[it] == if SearchHit(it, text) then multiset(items)[it] else 0
    decreases |items|
  {
    if |items| > 0 {
      SearchAllCounts(items[1..], text);
      assert items == [items[0]] + items[1..];
    }
  }

  /** `searchItem`: one page of the search. The query has no ORDER BY, so
      table order is the model's choice of order: the page is the run of
      hits that starts after the skipped ones. */
  function SearchItem(items: seq<Item>, text: string, page: nat, size: nat): (r: seq<Item>)
    ensures |r| == PageLength(|SearchAll(items, text)|, page, size)
    ensures forall i :: 0 <= i < |r| ==> page * size + i < |SearchAll(items, text)|
                                          && r[i] == SearchAll(items, text)[page * size + i]
  {
    var all := SearchAll(items, text);
    Page(all, page, size)
  }

  /** Every item on a page of the search is a stored item the search
      condition selects. */
  lemma SearchPageHits(items: seq<Item>, text: string, page: nat, size: nat)
    ensures var r := SearchItem(items, text, page, size);
            forall i :: 0 <= i < |r| ==> r[i] in items && SearchHit(r[i], text)
  {
    var all := SearchAll(items, text);
    var r := SearchItem(items, text, page, size);
    forall i | 0 <= i < |r| ensures r[i] in items && SearchHit(r[i], text) {
      assert r[i] in all;
    }
  }

  /** Paging the search misses no hit: every stored item the condition
      selects is on some page. */
  lemma {:induction false} EveryHitIsOnAPage(items: seq<Item>, text: string, size: nat, item: Item)
    requires size > 0
    requires item in items && SearchHit(item, text)
    ensures exists page: nat :: item in SearchItem(items, text, page, size)
  {
    var all := SearchAll(items, text);
    var j: nat :| j < |all| && all[j] == item;
    PageCovers(all, size, j);
    var p: nat :| && p * size <= j < p * size + size
                  && j - p * size < |Page(all, p, size)|
                  && Page(all, p, size)[j - p * size] == all[j];
    assert SearchItem(items, text, p, size) == Page(all, p, size);
    assert item in SearchItem(items, text, p, size);
  }

  /** Search text that differs only in letter case finds the same items. */
  lemma {:induction false} SearchIgnoresCase(items: seq<Item>, a: string, b: string)
    requires Upper(a) == Upper(b)
    ensures SearchAll(items, a) == SearchAll(items, b)
    decreases |items|
  {
    if |items| > 0 {
      SearchIgnoresCase(items[1..], a, b);
    }
  }

  /** An unavailable item is never found, whatever its text. */
  lemma UnavailableNeverFound(items: seq<Item>, text: string, item: Item)
    requires !item.available
    ensures item !in SearchAll(items, text)
  {
  }

  /** An available item is found by any piece of its name. */
  lemma {:induction false} FoundByNamePiece(items: seq<Item>, item: Item, i: nat, j: nat)
    requires item in items && item.available
    requires i <= j <= |item.name|
    ensures item in SearchAll(items, item.name[i..j])
  {
    var u := Upper(item.name);
    assert Upper(item.name[i..j]) == u[i..j];
    assert OccursAt(u, u[i..j], i);
    ContainsIff(u, u[i..j]);
  }

  /** `findByIdAndOwnerId`: the first item with that id whose owner has the
      given id. */
  function FindByIdAndOwnerId(items: seq<Item>, itemId: Id, ownerId: Id): (r: Option<Item>)
    ensures r.None? <==> forall i :: 0 <= i < |items| ==> !(items[i].id == Some(itemId) && items[i].owner.id == Some(ownerId))
    ensures r.Some? ==> r.value in items && r.value.id == Some(itemId) && r.value.owner.id == Some(ownerId)
  {
    FindFirst(items, (it: Item) => it.id == Some(itemId) && it.owner.id == Some(ownerId))
  }

  /** Ids are unique in a table the identity column fills. */
  ghost predicate UniqueIds(items: seq<Item>) {
    forall i, j :: 0 <= i < j < |items| && items[i].id.Some? ==> items[i].id != items[j].id
  }

  /** With unique ids, the owner lookup finds the item exactly when the id
      lookup does and the owner matches. */
  lemma FindByIdAndOwnerIdIsGuardedLookup(items: seq<Item>, itemId: Id, ownerId: Id)
    requires UniqueIds(items)
    ensures var byId := FindFirst(items, (it: Item) => it.id == Some(itemId));
            FindByIdAndOwnerId(items, itemId, ownerId)
            == if byId.Some? && byId.value.owner.id == Some(ownerId) then byId else None
  {
    var byId := FindFirst(items, (it: Item) => it.id == Some(itemId));
    var r := FindByIdAndOwnerId(items, itemId, ownerId);
    if r.Some? {
      var k :| 0 <= k < |items| && items[k] == r.value;
      forall i | 0 <= i < |items| && items[i].id == Some(itemId) ensures i == k {
      }
    } else if byId.Some? {
      var k :| 0 <= k < |items| && items[k] == byId.value;
      assert byId.value.owner.id != Some(ownerId);
    }
  }

  /** The sort key of the ORDER BY id clause; every stored item has an id. */
  function IdKey(item: Item): int {
    item.id.GetOr(0)
  }

  /** The owner's items, in table order. */
  function OwnedItems(items: seq<Item>, ownerId: Id): (r: seq<Item>)
    ensures forall it :: it in r <==> it in items && it.owner.id == Some(ownerId)
  {
    Filter(items, (it: Item) => it.owner.id == Some(ownerId))
  }

  /** The owner's items are listed as often as the table holds them, and
      no other item is. */
  lemma OwnedItemsCounts(items: seq<Item>, ownerId: Id)
    ensures forall it :: multiset(OwnedItems(items, ownerId))[it]
                         == if it.owner.id == Some(ownerId) then multiset(items)[it] else 0
  {
    FilterMultiset(items, (it: Item) => it.owner.id == Some(ownerId));
  }

  /** `findAllByOwnerIdOrderById`: one page of the owner's items in
      ascending id order. The item at offset `i` stands at overall position
      `page * size + i`: at most that many of the owner's items have a
      smaller id, and more than that many an id no larger. */
  function FindAllByOwnerIdOrderById(items: seq<Item>, ownerId: Id, page: nat, size: nat): (r: seq<Item>)
    ensures |r| == PageLength(|OwnedItems(items, ownerId)|, page, size)
    ensures forall i :: 0 <= i < |r| ==> r[i] in items && r[i].owner.id == Some(ownerId)
    ensures forall i :: 0 <= i < |r| ==> AtRank(OwnedItems(items, ownerId), IdKey, r[i], page * size + i)
    ensures forall i, j :: 0 <= i < j < |r| ==> IdKey(r[i]) <= IdKey(r[j])
  {
    var own := OwnedItems(items, ownerId);
    PageOfSortBy(own, IdKey, page, size);
    Page(SortBy(own, IdKey), page, size)
  }

  /** When the owner's items fit on the first page, the page holds all of
      them, each as often as in the table. */
  lemma FirstOwnerPageHoldsAll(items: seq<Item>, ownerId: Id, size: nat)
    requires |OwnedItems(items, ownerId)| <= size
    ensures multiset(FindAllByOwnerIdOrderById(items, ownerId, 0, size)) == multiset(OwnedItems(items, ownerId))
  {
    var sorted := SortBy(OwnedItems(items, ownerId), IdKey);
    assert Page(sorted, 0, size) == sorted;
  }

  /** Paging misses none of the owner's items: each is on some page, and
      one whose id no other of them shares is on the page whose rows span
      its rank, at the offset that rank names there. */
  lemma {:induction false} EveryOwnItemIsPaged(items: seq<Item>, ownerId: Id, size: nat, item: Item)
    requires size > 0
    requires item in items && item.owner.id == Some(ownerId)
    ensures exists page: nat :: item in FindAllByOwnerIdOrderById(items, ownerId, page, size)
    ensures var own := OwnedItems(items, ownerId);
            var n := CountBelow(own, IdKey, IdKey(item));
            CountBelow(own, IdKey, IdKey(item) + 1) == n + 1 ==>
              forall page: nat :: page * size <= n < page * size + size ==>
                && n - page * size < |FindAllByOwnerIdOrderById(items, ownerId, page, size)|
                && FindAllByOwnerIdOrderById(items, ownerId, page, size)[n - page * size] == item
  {
    var own := OwnedItems(items, ownerId);
    var sorted := SortBy(own, IdKey);
    assert exists page: nat :: item in FindAllByOwnerIdOrderById(items, ownerId, page, size) by {
      PagesCover(own, IdKey, size, item);
      var p: nat :| item in Page(sorted, p, size);
      assert FindAllByOwnerIdOrderById(items, ownerId, p, size) == Page(sorted, p, size);
    }
    var n := CountBelow(own, IdKey, IdKey(item));
    if CountBelow(own, IdKey, IdKey(item) + 1) == n + 1 {
      forall page: nat | page * size <= n < page * size + size
        ensures && n - page * size < |FindAllByOwnerIdOrderById(items, ownerId, page, size)|
                && FindAllByOwnerIdOrderById(items, ownerId, page, size)[n - page * size] == item
      {
        assert FindAllByOwnerIdOrderById(items, ownerId, page, size) == Page(sorted, page, size);
        IdOrderPaged(own, size, item, page);
      }
    }
  }

  lemma IdOrderPaged(own: seq<Item>, size: nat, item: Item, page: nat)
    requires size > 0 && item in own
    requires CountBelow(own, IdKey, IdKey(item) + 1) == CountBelow(own, IdKey, IdKey(item)) + 1
    requires page * size <= CountBelow(own, IdKey, IdKey(item)) < page * size + size
    ensures var n := CountBelow(own, IdKey, IdKey(item));
            && n - page * size < |Page(SortBy(own, IdKey), page, size)|
            && Page(SortBy(own, IdKey), page, size)[n - page * size] == item
  {
    UniqueKeyPaged(own, IdKey, size, item, IdKey(item), page);
  }

  /** Whether an item answers the request with that id. */
  predicate AnswersRequest(item: Item, requestId: Id) {
    item.request.Some? && item.request.value.id == Some(requestId)
  }

  /** `findAllItemsByRequestId`: the items answering the request. */
  function FindAllItemsByRequestId(items: seq<Item>, requestId: Id): (r: seq<Item>)
    ensures forall it :: it in r <==> it in items && AnswersRequest(it, requestId)
    ensures forall it :: multiset(r)[it] == if AnswersRequest(it, requestId) then multiset(items)[it] else 0
  {
    var p := (it: Item) => AnswersRequest(it, requestId);
    FilterMultiset(items, p);
    Filter(items, p)
  }
}
