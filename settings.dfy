/** The per-user settings table `UserData` (src/main.py). The settings
    document is a list of user records, each a map from key to value with an
    "id" key; the record whose id is 0 is the template that supplies values
    a user lacks. Every operation loads a snapshot of the whole document and
    may save a snapshot back; `SettingsFile.users` is that document and
    `UserData.LoadData`/`UserData.SaveData` are the only code that reads or
    writes it, so the model keeps the source's load/save discipline,
    including the stale snapshot that `set_user_value` saves. */
module Settings {
  import opened Values

  type Record = map<string, Value>

  const IdKey: string := "id"

  const DefaultUserNotFound: PyError := ValueError("Default user not found")
  const UserNotFound: PyError := ValueError("User not found")
  const KeyNotFound: PyError := ValueError("Key not found in user data")
  /** `user["id"]` on a record without an id. */
  const MissingId: PyError := KeyError(Str(IdKey))

  /** The record's id equals `uid` in Python's sense. */
  predicate HasId(user: Record, uid: int) {
    IdKey in user && EqualsInt(user[IdKey], uid)
  }

  /** The scan has gone past the first `k` records without a match: each of
      them has an id, and none equals `uid`. */
  ghost predicate PassedOver(users: seq<Record>, uid: int, k: int) {
    0 <= k <= |users| && forall j :: 0 <= j < k ==> IdKey in users[j] && !HasId(users[j], uid)
  }

  /** The lookup of a user by id (src/main.py:78), as an index: the first
      record whose id equals `uid`, None when no record does, and KeyError('id') when the scan meets a record without an id
      before it finds a match. */
  function FindUser(users: seq<Record>, uid: int): (r: Result<Option<nat>, PyError>)
    ensures r.Success? && r.value.Some? ==>
      r.value.value < |users| && PassedOver(users, uid, r.value.value) && HasId(users[r.value.value], uid)
    ensures r.Success? && r.value.None? ==> PassedOver(users, uid, |users|)
    ensures r.Failure? ==>
      r.error == MissingId && exists j :: PassedOver(users, uid, j) && j < |users| && IdKey !in users[j]
  {
    if users == [] then Success(None)
    else if IdKey !in users[0] then
      assert PassedOver(users, uid, 0);
      Failure(MissingId)
    else if HasId(users[0], uid) then Success(Some(0))
    else
      match FindUser(users[1..], uid)
      case Success(Some(i)) =>
        assert PassedOver(users, uid, i + 1) by {
          forall j | 0 <= j < i + 1 ensures IdKey in users[j] && !HasId(users[j], uid) {
            if j > 0 { assert users[j] == users[1..][j - 1]; }
          }
        }
        Success(Some(i + 1))
      case Success(None) =>
        assert PassedOver(users, uid, |users|) by {
          forall j | 0 <= j < |users| ensures IdKey in users[j] && !HasId(users[j], uid) {
            if j > 0 { assert users[j] == users[1..][j - 1]; }
          }
        }
        Success(None)
      case Failure(e) =>
        PassedOverShift(users, uid);
        Failure(e)
  }

  /** A record without an id found by the scan of `users[1..]` is found by
      the scan of `users` one place later. */
  lemma PassedOverShift(users: seq<Record>, uid: int)
    requires users != [] && IdKey in users[0] && !HasId(users[0], uid)
    requires exists j :: PassedOver(users[1..], uid, j) && j < |users| - 1 && IdKey !in users[1..][j]
    ensures exists j :: PassedOver(users, uid, j) && j < |users| && IdKey !in users[j]
  {
    var k :| PassedOver(users[1..], uid, k) && k < |users| - 1 && IdKey !in users[1..][k];
    assert PassedOver(users, uid, k + 1) by {
      forall j | 0 <= j < k + 1 ensures IdKey in users[j] && !HasId(users[j], uid) {
        if j > 0 { assert users[j] == users[1..][j - 1]; }
      }
    }
    assert IdKey !in users[k + 1];
  }

  /** A user with the template's value for `key` when the user lacks that
      key and the template has it; otherwise the user unchanged. */
  function Backfilled(user: Record, template: Record, key: string): (r: Record)
    ensures r.Keys == if key in template then user.Keys + {key} else user.Keys
    ensures forall k :: k in user ==> r[k] == user[k]
    ensures key !in user && key in template ==> r[key] == template[key]
  {
    if key !in user && key in template then user[key := template[key]] else user
  }

  /** A user with `key` set to `value`, except that a None value leaves the
      user as it was. */
  function Assigned(user: Record, key: string, value: Value): (r: Record)
    ensures r.Keys == if value != Null then user.Keys + {key} else user.Keys
    ensures value != Null ==> r[key] == value
    ensures forall k :: k in user && (k != key || value == Null) ==> r[k] == user[k]
  {
    if value != Null then user[key := value] else user
  }

  // ---------------------------------------------------------------------
  // What each operation does to the document and returns
  // ---------------------------------------------------------------------

  /** `create_user`: the document afterwards, or the exception raised. */
  function Created(users: seq<Record>, uid: int): Result<seq<Record>, PyError> {
    match FindUser(users, 0)
    case Failure(e) => Failure(e)
    case Success(None) => Failure(DefaultUserNotFound)
    case Success(Some(d)) =>
      match FindUser(users, uid)
      case Failure(e) => Failure(e)
      case Success(Some(_)) => Success(users)
      case Success(None) => Success(users + [users[d][IdKey := Int(uid)]])
  }

  /** `get_user_value`: the value returned, or the exception raised. An
      absent user is read from a detached copy of the template. */
  function Lookup(users: seq<Record>, uid: int, key: string): Result<Value, PyError> {
    match FindUser(users, uid)
    case Failure(e) => Failure(e)
    case Success(found) =>
      match FindUser(users, 0)
      case Failure(e) => Failure(e)
      case Success(None) => Failure(DefaultUserNotFound)
      case Success(Some(d)) =>
        var user := if found.Some? then users[found.value] else users[d][IdKey := Int(uid)];
        var user := Backfilled(user, users[d], key);
        if key in user then Success(user[key]) else Failure(KeyError(Str(key)))
  }

  /** `get_user_value`: the document afterwards. Only `create_user` saves;
      the in-memory backfill is never written. */
  function AfterLookup(users: seq<Record>, uid: int): seq<Record> {
    if FindUser(users, uid) == Success(None) then Created(users, uid).GetOr(users) else users
  }

  /** `set_user_value`: the document afterwards, or the exception raised.
      For an absent user the document `create_user` saved is overwritten by
      the snapshot loaded before it, so the document ends as it began. */
  function Stored(users: seq<Record>, uid: int, key: string, value: Value): Result<seq<Record>, PyError> {
    match FindUser(users, uid)
    case Failure(e) => Failure(e)
    case Success(found) =>
      match FindUser(users, 0)
      case Failure(e) => Failure(e)
      case Success(None) => Failure(DefaultUserNotFound)
      case Success(Some(d)) =>
        if found.None? then Success(users)
        else Success(users[found.value := Assigned(Backfilled(users[found.value], users[d], key), key, value)])
  }

  /** `delete_user_value`: the document afterwards, or the exception raised. */
  function KeyRemoved(users: seq<Record>, uid: int, key: string): Result<seq<Record>, PyError> {
    match FindUser(users, uid)
    case Failure(e) => Failure(e)
    case Success(None) => Failure(UserNotFound)
    case Success(Some(i)) =>
      if key !in users[i] then Failure(KeyNotFound) else Success(users[i := users[i] - {key}])
  }

  /** `delete_user`: the document afterwards, or the exception raised. */
  function UserRemoved(users: seq<Record>, uid: int): Result<seq<Record>, PyError> {
    match FindUser(users, uid)
    case Failure(e) => Failure(e)
    case Success(None) => Failure(UserNotFound)
    case Success(Some(i)) => Success(users[..i] + users[i + 1..])
  }

  /** Python's `list.remove(x)`: drops the first element equal to `x`.
      Equality here is structural, whereas Python compares dictionaries
      with its own `==` (under which `True == 1`). The difference cannot
      show: `DeleteUser` removes the record its id scan found, and that
      scan proves every earlier record has a different id (`HasId`), so
      none of them is equal to it under either notion. */
  function RemoveFirst<T(==)>(s: seq<T>, x: T): (r: seq<T>)
    requires x in s
    ensures |r| == |s| - 1
  {
    if s[0] == x then s[1..] else [s[0]] + RemoveFirst(s[1..], x)
  }

  // ---------------------------------------------------------------------
  // The class
  // ---------------------------------------------------------------------

  /** The settings JSON file: its whole content is the list of users. */
  class SettingsFile {
    var users: seq<Record>

    constructor (users: seq<Record>)
      ensures this.users == users
    {
      this.users := users;
    }
  }

  /** `UserData(member)`: the settings of one user, kept in a shared file. */
  class UserData {
    const file: SettingsFile
    const userId: int

    constructor (file: SettingsFile, userId: int)
      ensures this.file == file && this.userId == userId
    {
      this.file := file;
      this.userId := userId;
    }

    /** `load_data`: a snapshot of the document. */
    method LoadData() returns (data: seq<Record>)
      ensures data == file.users
    {
      data := file.users;
    }

    /** `save_data`: the document becomes the snapshot given. */
    method SaveData(data: seq<Record>)
      modifies file
      ensures file.users == data
    {
      file.users := data;
    }

    /** `create_user`. */
    method CreateUser() returns (r: Outcome<PyError>)
      modifies file
      ensures r == Created(old(file.users), userId).ToOutcome()
      ensures file.users == Created(old(file.users), userId).GetOr(old(file.users))
    {
      var data := LoadData();
      var defaultUser := FindUser(data, 0);
      if defaultUser.Failure? {
        return Fail(defaultUser.error);
      }
      if defaultUser.value.None? {
        return Fail(DefaultUserNotFound);
      }
      var existing := FindUser(data, userId);
      if existing.Failure? {
        return Fail(existing.error);
      }
      if existing.value.Some? {
        return Pass;
      }
      var newUser := data[defaultUser.value.value][IdKey := Int(userId)];
      data := data + [newUser];
      SaveData(data);
      return Pass;
    }

    /** `set_user_value(key, value)`; `Null` stands for Python's `None`. */
    method SetUserValue(key: string, value: Value) returns (r: Outcome<PyError>)
      modifies file
      ensures r == Stored(old(file.users), userId, key, value).ToOutcome()
      ensures file.users == Stored(old(file.users), userId, key, value).GetOr(old(file.users))
    {
      var data := LoadData();
      var found := FindUser(data, userId);
      if found.Failure? {
        return Fail(found.error);
      }
      var defaultUser := FindUser(data, 0);
      if defaultUser.Failure? {
        return Fail(defaultUser.error);
      }
      if defaultUser.value.None? {
        return Fail(DefaultUserNotFound);
      }
      var template := data[defaultUser.value.value];
      var user: Record;
      if found.value.None? {
        var created := CreateUser();
        assert created == Pass;
        // A detached copy: it is not an element of `data`.
        user := template[IdKey := Int(userId)];
      } else {
        user := data[found.value.value];
      }
      if key !in user && key in template {
        user := user[key := template[key]];
      }
      if value != Null {
        user := user[key := value];
      }
      if found.value.Some? {
        // `user` is the dict held by `data`: its updates are updates of `data`.
        data := data[found.value.value := user];
      }
      SaveData(data);
      return Pass;
    }

    /** `delete_user_value(key)`. */
    method DeleteUserValue(key: string) returns (r: Outcome<PyError>)
      modifies file
      ensures r == KeyRemoved(old(file.users), userId, key).ToOutcome()
      ensures file.users == KeyRemoved(old(file.users), userId, key).GetOr(old(file.users))
    {
      var data := LoadData();
      var found := FindUser(data, userId);
      if found.Failure? {
        return Fail(found.error);
      }
      if found.value.None? {
        return Fail(UserNotFound);
      }
      var i := found.value.value;
      if key !in data[i] {
        return Fail(KeyNotFound);
      }
      data := data[i := data[i] - {key}];
      SaveData(data);
      return Pass;
    }

    /** `get_user_value(key)`. */
    method GetUserValue(key: string) returns (r: Result<Value, PyError>)
      modifies file
      ensures r == Lookup(old(file.users), userId, key)
      ensures file.users == AfterLookup(old(file.users), userId)
    {
      var data := LoadData();
      var found := FindUser(data, userId);
      if found.Failure? {
        return Failure(found.error);
      }
      var defaultUser := FindUser(data, 0);
      if defaultUser.Failure? {
        return Failure(defaultUser.error);
      }
      if defaultUser.value.None? {
        return Failure(DefaultUserNotFound);
      }
      var template := data[defaultUser.value.value];
      var user: Record;
      if found.value.None? {
        var created := CreateUser();
        assert created == Pass;
        user := template[IdKey := Int(userId)];
      } else {
        user := data[found.value.value];
      }
      // The backfill changes the loaded snapshot only; it is never saved.
      if key !in user && key in template {
        user := user[key := template[key]];
      }
      if key !in user {
        return Failure(KeyError(Str(key)));
      }
      return Success(user[key]);
    }

    /** `delete_user`. */
    method DeleteUser() returns (r: Outcome<PyError>)
      modifies file
      ensures r == UserRemoved(old(file.users), userId).ToOutcome()
      ensures file.users == UserRemoved(old(file.users), userId).GetOr(old(file.users))
    {
      var data := LoadData();
      var found := FindUser(data, userId);
      if found.Failure? {
        return Fail(found.error);
      }
      if found.value.None? {
        return Fail(UserNotFound);
      }
      var i := found.value.value;
      var user := data[i];
      forall j | 0 <= j < i
        ensures data[j] != user
      {
        assert !HasId(data[j], userId);
      }
      RemoveFirstAt(data, user, i);
      data := RemoveFirst(data, user);
      SaveData(data);
      return Pass;
    }
  }

  // ---------------------------------------------------------------------
  // Facts about the scan
  // ---------------------------------------------------------------------

  /** `list.remove` of an element whose first occurrence is at `i` removes
      exactly index `i`. */
  lemma {:induction false} RemoveFirstAt<T>(s: seq<T>, x: T, i: nat)
    requires i < |s| && s[i] == x
    requires forall j :: 0 <= j < i ==> s[j] != x
    ensures x in s
    ensures RemoveFirst(s, x) == s[..i] + s[i + 1..]
  {
    if i > 0 {
      RemoveFirstAt(s[1..], x, i - 1);
      assert s[1..][..i - 1] == s[1..i];
      assert s[1..][i..] == s[i + 1..];
      assert [s[0]] + s[1..i] == s[..i];
    }
  }

  /** Appending a record changes the scan only where it ran off the end. */
  lemma {:induction false} FindUserAppend(users: seq<Record>, x: Record, uid: int)
    ensures FindUser(users + [x], uid) ==
      match FindUser(users, uid)
      case Success(None) =>
        if IdKey !in x then Failure(MissingId)
        else if HasId(x, uid) then Success(Some(|users|))
        else Success(None)
      case other => other
  {
    if users == [] {
      assert users + [x] == [x];
      assert [x][1..] == [];
    } else {
      assert (users + [x])[1..] == users[1..] + [x];
      FindUserAppend(users[1..], x, uid);
    }
  }

  /** Updating a record without touching its id leaves every scan as it was. */
  lemma {:induction false} FindUserUpdate(users: seq<Record>, i: nat, x: Record, uid: int)
    requires i < |users|
    requires (IdKey in x) == (IdKey in users[i])
    requires IdKey in x ==> x[IdKey] == users[i][IdKey]
    ensures FindUser(users[i := x], uid) == FindUser(users, uid)
  {
    if i > 0 {
      assert users[i := x][1..] == users[1..][i - 1 := x];
      FindUserUpdate(users[1..], i - 1, x, uid);
    }
  }

  // ---------------------------------------------------------------------
  // create_user
  // ---------------------------------------------------------------------

  /** Without a record whose id is 0, `create_user`, `get_user_value` and
      `set_user_value` all raise, and `get_user_value` saves nothing. */
  lemma TemplateRequired(users: seq<Record>, uid: int, key: string, value: Value)
    requires forall j :: 0 <= j < |users| ==> !HasId(users[j], 0)
    ensures Created(users, uid).Failure?
    ensures Lookup(users, uid, key).Failure?
    ensures AfterLookup(users, uid) == users
    ensures Stored(users, uid, key, value).Failure?
  {
    assert FindUser(users, 0).Failure? || FindUser(users, 0) == Success(None);
  }

  /** With a template at `d` and no record for `uid`, `create_user` appends
      exactly one record at the end: the template with only its id replaced. */
  lemma CreateAppendsTemplateCopy(users: seq<Record>, uid: int, d: nat)
    requires FindUser(users, 0) == Success(Some(d))
    requires FindUser(users, uid) == Success(None)
    ensures Created(users, uid).Success?
    ensures var after := Created(users, uid).value;
      && |after| == |users| + 1
      && after[..|users|] == users
      && after[|users|].Keys == users[d].Keys
      && after[|users|][IdKey] == Int(uid)
      && forall k :: k in users[d] && k != IdKey ==> after[|users|][k] == users[d][k]
  {
    var after := Created(users, uid).value;
    assert after[..|users|] == users;
  }

  /** A second `create_user` for the same user is a no-op. */
  lemma CreateIdempotent(users: seq<Record>, uid: int)
    requires Created(users, uid).Success?
    ensures Created(Created(users, uid).value, uid) == Created(users, uid)
  {
    var d := FindUser(users, 0).value.value;
    if FindUser(users, uid) == Success(None) {
      var x := users[d][IdKey := Int(uid)];
      FindUserAppend(users, x, 0);
      FindUserAppend(users, x, uid);
      assert HasId(x, uid);
    }
  }

  // ---------------------------------------------------------------------
  // get_user_value
  // ---------------------------------------------------------------------

  /** For a stored user: the stored value, else the template's, else
      KeyError; the document is not changed. */
  lemma GetExistingUser(users: seq<Record>, uid: int, key: string, i: nat, d: nat)
    requires FindUser(users, uid) == Success(Some(i))
    requires FindUser(users, 0) == Success(Some(d))
    ensures Lookup(users, uid, key) ==
      if key in users[i] then Success(users[i][key])
      else if key in users[d] then Success(users[d][key])
      else Failure(KeyError(Str(key)))
    ensures AfterLookup(users, uid) == users
  {
  }

  /** For a user not yet stored: the template copy is saved and the value is
      read from it, so the template's value (or the user's own id) comes back. */
  lemma GetAbsentUser(users: seq<Record>, uid: int, key: string, d: nat)
    requires FindUser(users, uid) == Success(None)
    requires FindUser(users, 0) == Success(Some(d))
    ensures AfterLookup(users, uid) == users + [users[d][IdKey := Int(uid)]]
    ensures Lookup(users, uid, key) ==
      if key == IdKey then Success(Int(uid))
      else if key in users[d] then Success(users[d][key])
      else Failure(KeyError(Str(key)))
  {
  }

  /** Reading twice gives the same answer as reading once, and the second
      read saves nothing new. */
  lemma GetTwice(users: seq<Record>, uid: int, key: string)
    ensures Lookup(AfterLookup(users, uid), uid, key) == Lookup(users, uid, key)
    ensures AfterLookup(AfterLookup(users, uid), uid) == AfterLookup(users, uid)
  {
    if FindUser(users, uid) == Success(None) && FindUser(users, 0).Success? && FindUser(users, 0).value.Some? {
      var d := FindUser(users, 0).value.value;
      var x := users[d][IdKey := Int(uid)];
      FindUserAppend(users, x, 0);
      FindUserAppend(users, x, uid);
      assert HasId(x, uid);
      assert (users + [x])[d] == users[d];
      assert (users + [x])[|users|] == x;
    }
  }

  // ---------------------------------------------------------------------
  // set_user_value
  // ---------------------------------------------------------------------

  /** For a stored user: the key is backfilled from the template when
      missing, then overwritten when `value` is not None; no other key and no
      other record changes. */
  lemma SetExistingUser(users: seq<Record>, uid: int, key: string, value: Value, i: nat, d: nat)
    requires FindUser(users, uid) == Success(Some(i))
    requires FindUser(users, 0) == Success(Some(d))
    ensures Stored(users, uid, key, value).Success?
    ensures var after := Stored(users, uid, key, value).value;
      && |after| == |users|
      && (forall j :: 0 <= j < |users| && j != i ==> after[j] == users[j])
      && after[i].Keys == users[i].Keys + (if key in users[d] || value != Null then {key} else {})
      && (forall k :: k in users[i] && k != key ==> after[i][k] == users[i][k])
      && (key in after[i] ==>
            after[i][key] == (if value != Null then value
                              else if key in users[i] then users[i][key]
                              else users[d][key]))
  {
  }

  /** Setting a key other than the id of a stored user and reading it back
      gives the value set. */
  lemma SetThenGet(users: seq<Record>, uid: int, key: string, value: Value)
    requires FindUser(users, uid).Success? && FindUser(users, uid).value.Some?
    requires FindUser(users, 0).Success? && FindUser(users, 0).value.Some?
    requires key != IdKey && value != Null
    ensures Stored(users, uid, key, value).Success?
    ensures Lookup(Stored(users, uid, key, value).value, uid, key) == Success(value)
  {
    var i := FindUser(users, uid).value.value;
    var d := FindUser(users, 0).value.value;
    var x := Assigned(Backfilled(users[i], users[d], key), key, value);
    FindUserUpdate(users, i, x, uid);
    FindUserUpdate(users, i, x, 0);
  }

  /** For a user not yet stored, `set_user_value` leaves the document exactly
      as it was, whatever the key and value: the record `create_user` saved
      is overwritten by the older snapshot. */
  lemma SetAbsentUserKeepsDocument(users: seq<Record>, uid: int, key: string, value: Value, d: nat)
    requires FindUser(users, uid) == Success(None)
    requires FindUser(users, 0) == Success(Some(d))
    ensures Stored(users, uid, key, value) == Success(users)
  {
  }

  /** The value set for a user not yet stored is lost: reading the key back
      does not give it, unless the template already held that value (a None
      value or the id key may coincide with what the read returns anyway). */
  lemma SetAbsentUserIsLost(users: seq<Record>, uid: int, key: string, value: Value, d: nat)
    requires FindUser(users, uid) == Success(None)
    requires FindUser(users, 0) == Success(Some(d))
    ensures key != IdKey && value != Null && (key in users[d] ==> users[d][key] != value) ==>
      Lookup(Stored(users, uid, key, value).value, uid, key) != Success(value)
  {
    SetAbsentUserKeepsDocument(users, uid, key, value, d);
  }

  // ---------------------------------------------------------------------
  // delete_user_value and delete_user
  // ---------------------------------------------------------------------

  /** `delete_user_value` on a stored user that has the key removes that key
      and nothing else, with no backfill; it needs no template. */
  lemma DeleteKeyOfUser(users: seq<Record>, uid: int, key: string, i: nat)
    requires FindUser(users, uid) == Success(Some(i))
    requires key in users[i]
    ensures KeyRemoved(users, uid, key).Success?
    ensures var after := KeyRemoved(users, uid, key).value;
      && |after| == |users|
      && (forall j :: 0 <= j < |users| && j != i ==> after[j] == users[j])
      && after[i].Keys == users[i].Keys - {key}
      && (forall k :: k in after[i] ==> after[i][k] == users[i][k])
  {
  }

  /** `delete_user_value` raises "User not found" or "Key not found in user
      data", in that order, and then changes nothing. */
  lemma DeleteKeyErrors(users: seq<Record>, uid: int, key: string)
    requires FindUser(users, uid).Success?
    ensures FindUser(users, uid).value.None? ==> KeyRemoved(users, uid, key) == Failure(UserNotFound)
    ensures FindUser(users, uid).value.Some? && key !in users[FindUser(users, uid).value.value] ==>
      KeyRemoved(users, uid, key) == Failure(KeyNotFound)
  {
  }

  /** After a key other than the id is deleted, reading it falls back to
      the template: the deletion is visible only in the stored record. */
  lemma DeleteKeyThenGet(users: seq<Record>, uid: int, key: string, d: nat)
    requires KeyRemoved(users, uid, key).Success?
    requires key != IdKey
    requires FindUser(users, 0) == Success(Some(d))
    ensures var after := KeyRemoved(users, uid, key).value;
      Lookup(after, uid, key) ==
        if key in after[d] then Success(after[d][key]) else Failure(KeyError(Str(key)))
  {
    var i := FindUser(users, uid).value.value;
    var x := users[i] - {key};
    FindUserUpdate(users, i, x, uid);
    FindUserUpdate(users, i, x, 0);
  }

  /** `delete_user` removes the first record with the user's id and keeps
      the others in order; when no later record shares that id, the user is
      absent afterwards. */
  lemma DeleteUserRemovesFirst(users: seq<Record>, uid: int, i: nat)
    requires FindUser(users, uid) == Success(Some(i))
    ensures UserRemoved(users, uid) == Success(users[..i] + users[i + 1..])
    ensures (forall j :: i < j < |users| ==> IdKey in users[j] && !HasId(users[j], uid)) ==>
      FindUser(UserRemoved(users, uid).value, uid) == Success(None)
  {
    if forall j :: i < j < |users| ==> IdKey in users[j] && !HasId(users[j], uid) {
      var after := users[..i] + users[i + 1..];
      assert PassedOver(after, uid, |after|) by {
        forall j | 0 <= j < |after| ensures IdKey in after[j] && !HasId(after[j], uid) {
          if j < i { assert after[j] == users[j]; } else { assert after[j] == users[j + 1]; }
        }
      }
    }
  }

  /** `delete_user` on a user that is not stored raises "User not found"
      and changes nothing, as `delete_user_value` does for any key. */
  lemma DeleteAbsentUser(users: seq<Record>, uid: int, key: string)
    requires FindUser(users, uid) == Success(None)
    ensures UserRemoved(users, uid) == Failure(UserNotFound)
    ensures KeyRemoved(users, uid, key) == Failure(UserNotFound)
  {
  }
}
