/** The map-backed item store: items keyed by the id a counter hands out,
    each tagged with the id of the user who added it. */
module ItemStore {
  import opened Common
  import opened Model
  import opened Text
  import opened Seqs
  import opened Stores

  /** The store's item record; every field is a nullable reference. */
  datatype StoredItem = StoredItem(
    id: Option<Id>,
    name: Option<string>,
    description: Option<string>,
    available: Option<bool>,
    userId: Option<Id>)

  datatype ItemStore = ItemStore(items: map<Id, StoredItem>, lastId: Id)

  /** The fields the store's reads dereference are all present. */
  predicate Complete(item: StoredItem) {
    item.name.Some? && item.description.Some? && item.available.Some? && item.userId.Some?
  }

  /** Every item sits under the id it carries, an id the counter handed out,
      with its fields present. */
  ghost predicate Valid(s: ItemStore) {
    && 0 <= s.lastId
    && KeysWithin(s.items, s.lastId)
    && forall k :: k in s.items ==> s.items[k].id == Some(k) && Complete(s.items[k])
  }

  /** `isContainsUser`: some user of the user store has that id. */
  predicate HasUser(users: seq<User>, userId: Id) {
    exists i :: 0 <= i < |users| && users[i].id == Some(userId)
  }

  /** `addItem`: the user must exist and the item must be available; the
      item is stored under the next counter value, which becomes its id.
      The item's own user id is kept as given. */
  function AddItem(s: ItemStore, users: seq<User>, userId: Id, item: StoredItem): (r: Result<(ItemStore, StoredItem)>)
    requires item.available.Some?
    ensures r.Err? <==> !HasUser(users, userId) || !item.available.value
    ensures !HasUser(users, userId) ==> r == Err(NotFound("User with id: " + IntToString(userId) + " not exist!"))
    ensures HasUser(users, userId) && !item.available.value ==> r == Err(BadRequest("Available status cannot be false"))
    ensures r.Ok? ==> r.value.0.lastId == s.lastId + 1
                      && r.value.1 == item.(id := Some(s.lastId + 1))
                      && r.value.0.items == s.items[s.lastId + 1 := r.value.1]
  {
    if !HasUser(users, userId) then
      Err(NotFound("User with id: " + IntToString(userId) + " not exist!"))
    else if !item.available.value then
      Err(BadRequest("Available status cannot be false"))
    else
      var id := s.lastId + 1;
      var saved := item.(id := Some(id));
      Ok((ItemStore(s.items[id := saved], id), saved))
  }

  /** A new item takes a key no stored item had, above all of them, and the
      store stays valid. */
  lemma AddItemFreshKey(s: ItemStore, users: seq<User>, userId: Id, item: StoredItem)
    requires Valid(s) && Complete(item)
    requires AddItem(s, users, userId, item).Ok?
    ensures var (s', saved) := AddItem(s, users, userId, item).value;
            && saved.id.value !in s.items
            && (forall k :: k in s.items ==> k < saved.id.value)
            && s'.items.Keys == s.items.Keys + {saved.id.value}
            && Valid(s')
  {
  }

  /** `getItem`: the item stored under `id`. The key must be present: for
      a missing key `Optional.of` throws instead of answering empty. */
  function GetItem(s: ItemStore, id: Id): (r: StoredItem)
    requires Valid(s) && id in s.items
    ensures r.id == Some(id) && Complete(r)
    ensures r in s.items.Values
  {
    s.items[id]
  }

  /** An added item can be read back under its new id. */
  lemma {:induction false} AddedItemIsReadable(s: ItemStore, users: seq<User>, userId: Id, item: StoredItem)
    requires Valid(s) && Complete(item)
    requires AddItem(s, users, userId, item).Ok?
    ensures var (s', saved) := AddItem(s, users, userId, item).value;
            && Valid(s') && saved.id.value in s'.items
            && GetItem(s', saved.id.value) == saved
  {
    AddItemFreshKey(s, users, userId, item);
  }

  /** `update`: the item must exist and carry the caller's user id; then
      available, name and description are each replaced when given. The
      refusal quotes the payload's id and user id, "null" when absent. */
  function Update(s: ItemStore, itemId: Id, item: StoredItem): (r: Result<(ItemStore, StoredItem)>)
    requires Valid(s)
    ensures r.Ok? <==> itemId in s.items && s.items[itemId].userId == item.userId
    ensures itemId !in s.items ==> r == Err(NotFound("Item not found with id" + IntToString(itemId)))
    ensures itemId in s.items && s.items[itemId].userId != item.userId
            ==> r == Err(NotFound("Item with id " + IdToString(item.id) + " has not been added user id "
                                  + IdToString(item.userId)))
    ensures r.Ok? ==>
              var existing := s.items[itemId];
              var u := r.value.1;
              && u.id == existing.id && u.userId == existing.userId
              && u.available == (if item.available.Some? then item.available else existing.available)
              && u.name == (if item.name.Some? then item.name else existing.name)
              && u.description == (if item.description.Some? then item.description else existing.description)
              && r.value.0 == ItemStore(s.items[itemId := u], s.lastId)
  {
    if itemId !in s.items then
      Err(NotFound("Item not found with id" + IntToString(itemId)))
    else
      var existing := s.items[itemId];
      if existing.userId != item.userId then
        Err(NotFound("Item with id " + IdToString(item.id) + " has not been added user id " + IdToString(item.userId)))
      else
        var withAvailable := if item.available.Some? && item.available != existing.available
                             then existing.(available := item.available) else existing;
        var withName := if item.name.Some? then withAvailable.(name := item.name) else withAvailable;
        var updated := if item.description.Some? then withName.(description := item.description) else withName;
        Ok((ItemStore(s.items[itemId := updated], s.lastId), updated))
  }

  /** An update keeps the store valid, touches only its own key and is
      idempotent. */
  lemma UpdateProperties(s: ItemStore, itemId: Id, item: StoredItem)
    requires Valid(s)
    requires Update(s, itemId, item).Ok?
    ensures var s' := Update(s, itemId, item).value.0;
            && Valid(s')
            && s'.items.Keys == s.items.Keys
            && (forall k :: k in s.items && k != itemId ==> s'.items[k] == s.items[k])
            && Update(s', itemId, item) == Update(s, itemId, item)
  {
    var (s', u) := Update(s, itemId, item).value;
    assert s'.items[itemId] == u;
    assert s'.items[itemId := u] == s'.items;
  }

  /** Every item carries its own key as id, so no two keys share one. */
  lemma StoreInjective(s: ItemStore)
    requires Valid(s)
    ensures Injective(s.items)
  {
  }

  /** `getOwnItems`: the items tagged with the user id, in key order. */
  function GetOwnItems(s: ItemStore, userId: Id): (r: seq<StoredItem>)
    requires Valid(s)
    ensures forall v :: v in r <==> v in s.items.Values && v.userId == Some(userId)
    ensures forall v :: multiset(r)[v] == if v in s.items.Values && v.userId == Some(userId) then 1 else 0
  {
    var p := (v: StoredItem) => v.userId == Some(userId);
    var all := Values(s.items, s.lastId);
    StoreInjective(s);
    FilterMultiset(all, p);
    Filter(all, p)
  }

  /** The search condition, lower-casing both sides. */
  predicate LowerHit(v: StoredItem, text: string) {
    Complete(v) && v.available.value
    && (Contains(Lower(v.name.value), Lower(text)) || Contains(Lower(v.description.value), Lower(text)))
  }

  /** `searchItem`: the available items whose name or description holds the
      text, ignoring letter case; the user id plays no part. */
  function SearchItem(s: ItemStore, userId: Id, text: string): (r: seq<StoredItem>)
    requires Valid(s)
    ensures forall v :: v in r <==> v in s.items.Values && LowerHit(v, text)
    ensures forall v :: multiset(r)[v] == if v in s.items.Values && LowerHit(v, text) then 1 else 0
  {
    var p := (v: StoredItem) => LowerHit(v, text);
    var all := Values(s.items, s.lastId);
    StoreInjective(s);
    FilterMultiset(all, p);
    Filter(all, p)
  }

  /** The caller's id does not change what the search finds. */
  lemma SearchIgnoresUser(s: ItemStore, a: Id, b: Id, text: string)
    requires Valid(s)
    ensures SearchItem(s, a, text) == SearchItem(s, b, text)
  {
  }

  /** Adding an item makes it one of its user's items. */
  lemma {:induction false} AddedItemIsOwn(s: ItemStore, users: seq<User>, userId: Id, item: StoredItem)
    requires Valid(s) && Complete(item)
    requires AddItem(s, users, userId, item).Ok?
    ensures var (s', saved) := AddItem(s, users, userId, item).value;
            saved in GetOwnItems(s', item.userId.value)
  {
    AddItemFreshKey(s, users, userId, item);
    var (s', saved) := AddItem(s, users, userId, item).value;
    assert s'.items[saved.id.value] == saved;
  }
}
