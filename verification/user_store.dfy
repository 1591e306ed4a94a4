/** The map-backed user store: users keyed by the id a counter hands out,
    with e-mail addresses kept pairwise distinct. */
module UserStore {
  import opened Common
  import opened Model
  import opened Text
  import opened Stores

  datatype UserStore = UserStore(users: map<Id, User>, lastId: Id)

  /** Every user sits under the id it carries, an id the counter handed out;
      every stored user has an e-mail, and no two share one. */
  ghost predicate Valid(s: UserStore) {
    && 0 <= s.lastId
    && KeysWithin(s.users, s.lastId)
    && (forall k :: k in s.users ==> s.users[k].id == Some(k) && s.users[k].email.Some?)
    && (forall j, k :: j in s.users && k in s.users && j != k ==> s.users[j].email != s.users[k].email)
  }

  /** `isNotUniqueEmail`: some stored user already has the candidate's
      e-mail; a candidate without one clashes with nobody. */
  predicate EmailTaken(s: UserStore, email: Option<string>) {
    exists k :: k in s.users && s.users[k].email == email && email.Some?
  }

  /** The key-wise test is the source's `anyMatch` over the `values()`
      listing: some listed user has the e-mail, which must be present. */
  lemma EmailTakenInListing(s: UserStore, email: Option<string>)
    requires KeysWithin(s.users, s.lastId)
    ensures var all := Values(s.users, s.lastId);
            EmailTaken(s, email) <==> email.Some? && exists i :: 0 <= i < |all| && all[i].email == email
  {
    var all := Values(s.users, s.lastId);
    assert all == ValuesFrom(s.users, 1, s.lastId);
    if EmailTaken(s, email) {
      var k :| k in s.users && s.users[k].email == email && email.Some?;
      assert s.users[k] in all;
      var i :| 0 <= i < |all| && all[i] == s.users[k];
    }
    if email.Some? && exists i :: 0 <= i < |all| && all[i].email == email {
      var i :| 0 <= i < |all| && all[i].email == email;
      assert all[i] in all;
    }
  }

  function TakenMessage(email: Option<string>): string {
    "User with email " + email.GetOr("null") + " already exists!"
  }

  /** `create`: a taken e-mail is refused with Conflict; otherwise the user
      is stored under the next counter value, which becomes its id. */
  function Create(s: UserStore, user: User): (r: Result<(UserStore, User)>)
    ensures r.Err? <==> EmailTaken(s, user.email)
    ensures r.Err? ==> r.error == Conflict(TakenMessage(user.email))
    ensures r.Ok? ==> r.value.0.lastId == s.lastId + 1
                      && r.value.1 == user.(id := Some(s.lastId + 1))
                      && r.value.0.users == s.users[s.lastId + 1 := r.value.1]
  {
    if EmailTaken(s, user.email) then
      Err(Conflict(TakenMessage(user.email)))
    else
      var id := s.lastId + 1;
      var saved := user.(id := Some(id));
      Ok((UserStore(s.users[id := saved], id), saved))
  }

  /** A created user with an e-mail keeps the store valid: its key is new
      and its e-mail unused. */
  lemma CreatePreservesValid(s: UserStore, user: User)
    requires Valid(s) && user.email.Some?
    requires Create(s, user).Ok?
    ensures Valid(Create(s, user).value.0)
    ensures s.lastId + 1 !in s.users
  {
  }

  /** `getUser`: the user stored under `id`. The key must be present: for
      a missing key `Optional.of` throws instead of answering empty. */
  function GetUser(s: UserStore, id: Id): (r: User)
    requires Valid(s) && id in s.users
    ensures r.id == Some(id) && r.email.Some?
    ensures r in s.users.Values
  {
    s.users[id]
  }

  /** `update`: the id must be stored, then a given e-mail must be unused by
      every stored user, the updated user included; e-mail and name are
      replaced when given. */
  function Update(s: UserStore, user: User): (r: Result<(UserStore, User)>)
    ensures user.id.None? || user.id.value !in s.users
            ==> r == Err(NotFound("User with id " + IdToString(user.id) + " not found!"))
    ensures user.id.Some? && user.id.value in s.users && EmailTaken(s, user.email)
            ==> r == Err(Conflict(TakenMessage(user.email)))
    ensures r.Ok? <==> user.id.Some? && user.id.value in s.users && !EmailTaken(s, user.email)
    ensures r.Ok? ==>
              var current := s.users[user.id.value];
              var u := r.value.1;
              && u.id == current.id
              && u.email == (if user.email.Some? then user.email else current.email)
              && u.name == (if user.name.Some? then user.name else current.name)
              && r.value.0 == UserStore(s.users[user.id.value := u], s.lastId)
  {
    if user.id.None? || user.id.value !in s.users then
      Err(NotFound("User with id " + IdToString(user.id) + " not found!"))
    else if EmailTaken(s, user.email) then
      Err(Conflict(TakenMessage(user.email)))
    else
      var current := s.users[user.id.value];
      var withEmail := if user.email.Some? then current.(email := user.email) else current;
      var updated := if user.name.Some? then withEmail.(name := user.name) else withEmail;
      Ok((UserStore(s.users[user.id.value := updated], s.lastId), updated))
  }

  /** Re-sending one's own e-mail is refused: the uniqueness check does not
      exclude the user being updated. */
  lemma UpdateWithOwnEmailConflicts(s: UserStore, user: User)
    requires user.id.Some? && user.id.value in s.users
    requires user.email == s.users[user.id.value].email && user.email.Some?
    ensures Update(s, user) == Err(Conflict(TakenMessage(user.email)))
  {
    var k := user.id.value;
    assert k in s.users && s.users[k].email == user.email;
  }

  /** An update keeps the store valid and every other user as it was. */
  lemma UpdatePreservesValid(s: UserStore, user: User)
    requires Valid(s)
    requires Update(s, user).Ok?
    ensures Valid(Update(s, user).value.0)
    ensures forall k :: k in s.users && Some(k) != user.id ==> Update(s, user).value.0.users[k] == s.users[k]
    ensures Update(s, user).value.0.users.Keys == s.users.Keys
  {
  }

  /** After an update, reading the user back gives the updated user. */
  lemma {:induction false} UpdatedIsReadable(s: UserStore, user: User)
    requires Valid(s)
    requires Update(s, user).Ok?
    ensures var (s', u) := Update(s, user).value;
            && Valid(s') && user.id.value in s'.users
            && GetUser(s', user.id.value) == u
  {
    UpdatePreservesValid(s, user);
  }

  /** `delete`: removes exactly the stored entry, or fails with NotFound. */
  function Delete(s: UserStore, id: Id): (r: Result<UserStore>)
    ensures r.Err? <==> id !in s.users
    ensures r.Err? ==> r.error == NotFound("User with id " + IntToString(id) + " not found!")
    ensures r.Ok? ==> r.value.lastId == s.lastId
                      && r.value.users.Keys == s.users.Keys - {id}
                      && forall k :: k in r.value.users ==> r.value.users[k] == s.users[k]
  {
    if id in s.users then Ok(UserStore(s.users - {id}, s.lastId))
    else Err(NotFound("User with id " + IntToString(id) + " not found!"))
  }

  /** Deleting keeps the store valid, and a second delete of the same id
      fails. */
  lemma DeleteProperties(s: UserStore, id: Id)
    requires Valid(s)
    requires Delete(s, id).Ok?
    ensures Valid(Delete(s, id).value)
    ensures Delete(Delete(s, id).value, id).Err?
  {
  }

  /** `getAll`: every stored user, in key order. */
  function GetAll(s: UserStore): (r: seq<User>)
    requires Valid(s)
    ensures forall u :: u in r <==> u in s.users.Values
    ensures |r| == |s.users|
  {
    ValuesFromCount(s.users, 1, s.lastId);
    assert s.users.Keys == set k | k in s.users && 1 <= k <= s.lastId;
    Values(s.users, s.lastId)
  }

  /** A created user is listed, and an e-mail once taken stays taken. */
  lemma {:induction false} CreatedIsListed(s: UserStore, user: User)
    requires Valid(s) && user.email.Some?
    requires Create(s, user).Ok?
    ensures var (s', saved) := Create(s, user).value;
            && saved in GetAll(s')
            && EmailTaken(s', user.email)
            && Create(s', user).Err?
  {
    CreatePreservesValid(s, user);
    var (s', saved) := Create(s, user).value;
    assert s'.users[s.lastId + 1] == saved;
  }
}
