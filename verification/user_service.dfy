/** The user workflow over the users table: sign-up, partial update, lookup,
    deletion and the full list. The table's columns `name` and `email` are
    NOT NULL and `email` is UNIQUE; a save that breaks one fails with an
    integrity error naming the column. */
module UserService {
  import opened Common
  import opened Model
  import opened Text
  import opened Tables
  import UserMapper

  datatype UserTable = UserTable(rows: seq<User>, lastId: Id)

  /** Every row carries a distinct id handed out by the identity column, a
      name and an e-mail, and no two rows share an e-mail. */
  ghost predicate Valid(t: UserTable) {
    && 0 <= t.lastId
    && (forall i :: 0 <= i < |t.rows| ==>
          t.rows[i].id.Some? && 0 < t.rows[i].id.value <= t.lastId
          && t.rows[i].name.Some? && t.rows[i].email.Some?)
    && (forall i, j :: 0 <= i < j < |t.rows| ==> t.rows[i].id != t.rows[j].id && t.rows[i].email != t.rows[j].email)
  }

  /** Some row other than the one with `id` holds the e-mail. */
  predicate EmailHeldByOther(rows: seq<User>, email: Option<string>, id: Option<Id>) {
    exists i :: 0 <= i < |rows| && rows[i].email == email && rows[i].id != id
  }

  /** The column a row would violate, checked in the order name, e-mail. */
  function Violation(rows: seq<User>, u: User): (r: Option<string>)
    ensures r.None? <==> u.name.Some? && u.email.Some? && !EmailHeldByOther(rows, u.email, u.id)
  {
    if u.name.None? then Some("name")
    else if u.email.None? || EmailHeldByOther(rows, u.email, u.id) then Some("email")
    else None
  }

  /** `create`: a user whose id names a stored user is merged over that
      row; any other is inserted under the next identity. Either way a
      missing name or e-mail, or an e-mail another row holds, is refused by
      the table. */
  function Create(t: UserTable, d: UserDto): (r: Result<(UserTable, UserDto)>)
    ensures var id := if HasId(t.rows, UserId, d.id) then d.id else Some(t.lastId + 1);
            r.Err? <==> d.name.None? || d.email.None? || EmailHeldByOther(t.rows, d.email, id)
    ensures r.Err? ==> r.error == Integrity(if d.name.None? then "name" else "email")
    ensures r.Ok? ==>
              var u := User(d.id, d.name, d.email);
              var (t', dto) := r.value;
              && (HasId(t.rows, UserId, d.id) ==>
                    && t'.lastId == t.lastId && |t'.rows| == |t.rows|
                    && (forall i :: 0 <= i < |t.rows| ==> t'.rows[i] == if t.rows[i].id == d.id then u else t.rows[i])
                    && dto == d)
              && (!HasId(t.rows, UserId, d.id) ==>
                    && t'.lastId == t.lastId + 1
                    && t'.rows == t.rows + [u.(id := Some(t.lastId + 1))]
                    && dto == d.(id := Some(t.lastId + 1)))
  {
    var user := UserMapper.ToUser(d);
    var id := if HasId(t.rows, UserId, user.id) then user.id else Some(t.lastId + 1);
    match Violation(t.rows, user.(id := id))
    case Some(column) => Err(Integrity(column))
    case None =>
      var saved := Save(t.rows, t.lastId, UserId, UserWithId, user);
      Ok((UserTable(saved.rows, saved.lastId), UserMapper.ToDto(saved.entity)))
  }

  /** In a valid table, sign-up is refused exactly when a field is missing
      or a row other than the one the payload names holds the e-mail; an
      accepted sign-up keeps the table valid. */
  lemma CreateProperties(t: UserTable, d: UserDto)
    requires Valid(t)
    ensures Create(t, d).Err? <==> d.name.None? || d.email.None?
                                   || exists i :: 0 <= i < |t.rows| && t.rows[i].email == d.email && t.rows[i].id != d.id
    ensures Create(t, d).Ok? ==> Valid(Create(t, d).value.0)
  {
    if Create(t, d).Ok? && HasId(t.rows, UserId, d.id) {
      SaveUserKeepsValid(t, User(d.id, d.name, d.email));
    }
  }

  /** The user signed up can be read back under the id it came back with. */
  lemma {:induction false} CreatedUserIsFound(t: UserTable, d: UserDto)
    requires Valid(t)
    requires Create(t, d).Ok?
    ensures var (t', dto) := Create(t, d).value;
            dto.id.Some? && GetUser(t'.rows, dto.id.value) == Ok(dto)
  {
    var (t', dto) := Create(t, d).value;
    var written := UserMapper.ToUser(dto);
    if HasId(t.rows, UserId, d.id) {
      var k :| 0 <= k < |t.rows| && t.rows[k].id == d.id;
      assert t'.rows[k] == written;
    } else {
      assert t'.rows[|t.rows|] == written;
    }
    var found := FindUser(t'.rows, dto.id.value).value;
    var i :| 0 <= i < |t'.rows| && t'.rows[i] == found;
    assert found == written;
  }

  /** `getUser`. */
  function GetUser(rows: seq<User>, id: Id): (r: Result<UserDto>)
    ensures r.Err? <==> forall i :: 0 <= i < |rows| ==> rows[i].id != Some(id)
    ensures r.Err? ==> r.error == NotFound(UserNotFoundMessage(id))
    ensures r.Ok? ==> r.value.id == Some(id) && UserMapper.ToUser(r.value) in rows
  {
    match FindUser(rows, id)
    case None => Err(NotFound(UserNotFoundMessage(id)))
    case Some(u) => Ok(UserMapper.ToDto(u))
  }

  /** The user an update leaves behind: e-mail and name each replaced when
      the payload carries one, the id kept. */
  function Merge(stored: User, d: UserDto): (u: User)
    ensures u.id == stored.id
    ensures u.email == (if d.email.Some? then d.email else stored.email)
    ensures u.name == (if d.name.Some? then d.name else stored.name)
  {
    var newUser := UserMapper.ToUser(d);
    var withEmail := if newUser.email.Some? then stored.(email := newUser.email) else stored;
    if newUser.name.Some? then withEmail.(name := newUser.name) else withEmail
  }

  /** `update`: a missing user fails before anything is saved; otherwise
      the merged user is written back over its row, unless the table
      refuses it. */
  function Update(t: UserTable, id: Id, d: UserDto): (r: Result<(UserTable, UserDto)>)
    ensures FindUser(t.rows, id).None? ==> r == Err(NotFound(UserNotFoundMessage(id)))
    ensures r.Ok? <==> FindUser(t.rows, id).Some?
                       && Violation(t.rows, Merge(FindUser(t.rows, id).value, d)).None?
    ensures FindUser(t.rows, id).Some? && r.Err? ==> r.error.Integrity?
    ensures r.Ok? ==>
              var u := Merge(FindUser(t.rows, id).value, d);
              && u.id == Some(id)
              && r.value.0 == UserTable(SaveById(t.rows, UserId, u), t.lastId)
              && r.value.1 == UserMapper.ToDto(u)
  {
    var current :- GetUser(t.rows, id);
    var updated := Merge(UserMapper.ToUser(current), d);
    match Violation(t.rows, updated)
    case Some(column) => Err(Integrity(column))
    case None => Ok((UserTable(SaveById(t.rows, UserId, updated), t.lastId), UserMapper.ToDto(updated)))
  }

  /** Unlike the map-backed store, the table lets a user re-send their own
      e-mail. */
  lemma {:induction false} UpdateWithOwnEmailAccepted(t: UserTable, id: Id, name: Option<string>)
    requires Valid(t)
    requires FindUser(t.rows, id).Some?
    ensures Update(t, id, UserDto(None, name, FindUser(t.rows, id).value.email)).Ok?
  {
    var stored := FindUser(t.rows, id).value;
    var k :| 0 <= k < |t.rows| && t.rows[k] == stored;
    forall i | 0 <= i < |t.rows| && t.rows[i].email == stored.email ensures i == k {
    }
  }

  /** Writing back a complete user whose e-mail no other row holds keeps
      the table valid. */
  lemma SaveUserKeepsValid(t: UserTable, u: User)
    requires Valid(t)
    requires u.name.Some? && u.email.Some? && !EmailHeldByOther(t.rows, u.email, u.id)
    ensures Valid(UserTable(SaveById(t.rows, UserId, u), t.lastId))
  {
    var rows := SaveById(t.rows, UserId, u);
    forall i | 0 <= i < |rows| ensures rows[i].id == t.rows[i].id && rows[i].name.Some? && rows[i].email.Some? {
    }
    forall i, j | 0 <= i < j < |rows| ensures rows[i].email != rows[j].email {
      if t.rows[i].id == u.id {
        assert rows[j] == t.rows[j];
      } else if t.rows[j].id == u.id {
        assert rows[i] == t.rows[i];
      }
    }
  }

  lemma UpdatePreservesValid(t: UserTable, id: Id, d: UserDto)
    requires Valid(t)
    requires Update(t, id, d).Ok?
    ensures Valid(Update(t, id, d).value.0)
  {
    SaveUserKeepsValid(t, Merge(FindUser(t.rows, id).value, d));
  }

  function NoUserEntityMessage(id: Id): string {
    "No class ru.practicum.shareit.user.model.User entity with id " + IntToString(id) + " exists!"
  }

  /** `delete`: `deleteById` removes the row with that id; with no such row
      it throws `EmptyResultDataAccessException`. */
  function Delete(t: UserTable, id: Id): (r: Result<UserTable>)
    ensures r.Err? <==> forall i :: 0 <= i < |t.rows| ==> t.rows[i].id != Some(id)
    ensures r.Err? ==> r.error == EmptyResult(NoUserEntityMessage(id))
    ensures r.Ok? ==> r.value.lastId == t.lastId
    ensures r.Ok? ==> forall u :: u in r.value.rows <==> u in t.rows && u.id != Some(id)
  {
    if FindUser(t.rows, id).None? then Err(EmptyResult(NoUserEntityMessage(id)))
    else Ok(UserTable(Seqs.Filter(t.rows, (u: User) => u.id != Some(id)), t.lastId))
  }

  /** A delete either fails because the user was not there or leaves it
      not found: either way the user cannot be read afterwards. */
  lemma DeletedIsGone(t: UserTable, id: Id)
    ensures Delete(t, id).Err? <==> GetUser(t.rows, id).Err?
    ensures Delete(t, id).Ok? ==> GetUser(Delete(t, id).value.rows, id).Err?
  {
    if Delete(t, id).Ok? {
      var rows := Delete(t, id).value.rows;
      forall i | 0 <= i < |rows| ensures rows[i].id != Some(id) {
        assert rows[i] in rows;
      }
    }
  }

  /** Deleting a user twice fails the second time. */
  lemma DeleteTwiceFails(t: UserTable, id: Id)
    requires Delete(t, id).Ok?
    ensures Delete(Delete(t, id).value, id).Err?
  {
    DeletedIsGone(t, id);
  }

  /** `getAll`: one DTO per row, in table order. */
  function GetAll(t: UserTable): (r: seq<UserDto>)
    ensures |r| == |t.rows|
    ensures forall i :: 0 <= i < |r| ==> UserMapper.ToUser(r[i]) == t.rows[i]
  {
    seq(|t.rows|, i requires 0 <= i < |t.rows| => UserMapper.ToDto(t.rows[i]))
  }
}
