/**
 * The account record (`Pengguna`), the account store the controller works
 * against, the JSON-like response bodies and the public view of an account.
 */
module Accounts {
  import opened Wrappers
  import opened Text

  type byte = x: int | 0 <= x < 256

  /**
   * One account. `password` holds exactly the value the controller hands to
   * the store; `jk` (gender), `tanggalLahir` (birth date) and
   * `profilePictureUrl` are nullable in the source.
   */
  datatype Pengguna = Pengguna(
    id: int,
    username: string,
    password: string,
    jk: Option<string>,
    tanggalLahir: Option<Date>,
    profilePictureUrl: Option<string>,
    state: bool)

  /**
   * Everything the handlers read or write: the accounts by id, the next id the
   * store will assign, and the files in the uploads directory by name.
   */
  datatype Store = Store(users: map<int, Pengguna>, nextId: int, uploads: map<string, seq<byte>>)

  /** Usernames identify accounts: no two ids hold the same username. */
  ghost predicate UniqueUsernames(users: map<int, Pengguna>)
  {
    forall a, b :: a in users && b in users && users[a].username == users[b].username ==> a == b
  }

  /**
   * The store invariant: each record sits under its own id, ids are positive
   * and below the next one to be assigned, every username and password is
   * non-empty, and usernames are unique.
   */
  ghost predicate Invariant(s: Store)
  {
    && s.nextId >= 1
    && (forall id :: id in s.users ==>
          && s.users[id].id == id
          && 1 <= id < s.nextId
          && s.users[id].username != ""
          && s.users[id].password != "")
    && UniqueUsernames(s.users)
  }

  /** A store with no accounts and no files, whose first id is 1. */
  function EmptyStore(): (s: Store)
    ensures s.users == map[] && s.uploads == map[] && s.nextId == 1
    ensures Invariant(s)
  {
    Store(map[], 1, map[])
  }

  ghost predicate UsernameTaken(users: map<int, Pengguna>, username: string)
  {
    exists id :: id in users && users[id].username == username
  }

  /** The store's lookup by username. */
  ghost function FindByUsername(users: map<int, Pengguna>, username: string): (r: Option<Pengguna>)
    ensures r.Some? <==> UsernameTaken(users, username)
    ensures r.Some? ==> exists id :: id in users && users[id] == r.value && r.value.username == username
  {
    if UsernameTaken(users, username) then
      var id :| id in users && users[id].username == username;
      Some(users[id])
    else None
  }

  /** Under the invariant the lookup finds the one account holding that name, under its own id. */
  lemma FindByUsernameUnique(s: Store, id: int, username: string)
    requires Invariant(s)
    requires id in s.users && s.users[id].username == username
    ensures FindByUsername(s.users, username) == Some(s.users[id])
    ensures FindByUsername(s.users, username).value.id == id
  {
  }

  /** A JSON value of a response body; `Null` is a key present with a null value. */
  datatype Value = Null | Int(i: int) | Text(s: string)

  type Json = map<string, Value>

  /** A handler's result: an HTTP status code and its body. */
  datatype Response = Response(status: int, body: Json)

  function ErrorBody(message: string): Json
  {
    map["error" := Text(message)]
  }

  function MessageBody(message: string): Json
  {
    map["message" := Text(message)]
  }

  function Nullable(s: Option<string>): Value
  {
    match s
    case None => Null
    case Some(t) => Text(t)
  }

  /** The public view of an account returned by login and by the profile lookup. */
  function ToView(user: Pengguna): (v: Json)
    ensures v.Keys == {"id", "username", "jk", "tanggalLahir", "profilePictureUrl"}
  {
    map[
      "id" := Int(user.id),
      "username" := Text(user.username),
      "jk" := Nullable(user.jk),
      "tanggalLahir" := (if user.tanggalLahir.Some? then Text(DateToString(user.tanggalLahir.value)) else Null),
      "profilePictureUrl" := Nullable(user.profilePictureUrl)]
  }

  /**
   * The view never carries the password: it has no password key, and two
   * accounts that differ only in password and state have the same view.
   */
  lemma ViewHidesPassword(user: Pengguna, password: string, state: bool)
    ensures "password" !in ToView(user)
    ensures "state" !in ToView(user)
    ensures ToView(user.(password := password, state := state)) == ToView(user)
  {
  }

  /** The view determines the record's id, username, gender and picture URL. */
  lemma ViewDeterminesPublicFields(a: Pengguna, b: Pengguna)
    requires ToView(a) == ToView(b)
    ensures a.id == b.id && a.username == b.username && a.jk == b.jk
    ensures a.profilePictureUrl == b.profilePictureUrl
    ensures a.tanggalLahir.Some? <==> b.tanggalLahir.Some?
  {
    assert ToView(a)["id"] == ToView(b)["id"];
    assert ToView(a)["username"] == ToView(b)["username"];
    assert ToView(a)["jk"] == ToView(b)["jk"];
    assert ToView(a)["tanggalLahir"] == ToView(b)["tanggalLahir"];
    assert ToView(a)["profilePictureUrl"] == ToView(b)["profilePictureUrl"];
  }
}
