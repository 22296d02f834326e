/**
 * What the handlers promise, stated over their outcome functions: which
 * status comes back under which condition, what changes in the store and
 * what stays as it was, and that every handler keeps the store invariant.
 */
module Properties {
  import opened Wrappers
  import opened Text
  import opened Accounts
  import opened Upload
  import opened Handlers

  // ---------------------------------------------------------------- login

  /** Missing credentials are refused with 400 before the store is consulted. */
  lemma LoginMissingFieldsIsBadRequest(
    s: Store, t: Store, matches: (string, string) -> bool, username: Option<string>, password: Option<string>)
    requires IsMissing(username) || IsMissing(password)
    ensures LoginOutcome(s, matches, username, password) == Response(400, ErrorBody(UsernamePasswordRequired))
    ensures LoginOutcome(s, matches, username, password) == LoginOutcome(t, matches, username, password)
  {
  }

  /** Login succeeds exactly when an account has that username and its stored password verifies. */
  lemma LoginSucceedsIff(s: Store, matches: (string, string) -> bool, username: string, password: string)
    requires Invariant(s)
    requires username != "" && password != ""
    ensures var r := LoginOutcome(s, matches, Some(username), Some(password));
      && (r.status == 200 <==>
            exists id :: id in s.users && s.users[id].username == username && matches(password, s.users[id].password))
      && (r.status == 200 || r.status == 401)
      && (forall id :: id in s.users && s.users[id].username == username && matches(password, s.users[id].password)
            ==> r == Response(200, ToView(s.users[id])))
  {
    var r := LoginOutcome(s, matches, Some(username), Some(password));
    if id :| id in s.users && s.users[id].username == username {
      FindByUsernameUnique(s, id, username);
    }
  }

  /**
   * An unknown username and a wrong password give the same response, so a
   * caller cannot tell which of the two it met.
   */
  lemma LoginFailureIsUniform(s: Store, matches: (string, string) -> bool, username: string, password: string)
    requires Invariant(s)
    requires username != "" && password != ""
    ensures !UsernameTaken(s.users, username) ==>
      LoginOutcome(s, matches, Some(username), Some(password)) == Response(401, ErrorBody(InvalidCredentials))
    ensures forall id ::
              (id in s.users && s.users[id].username == username && !matches(password, s.users[id].password)) ==>
              LoginOutcome(s, matches, Some(username), Some(password)) == Response(401, ErrorBody(InvalidCredentials))
  {
    forall id | id in s.users && s.users[id].username == username && !matches(password, s.users[id].password)
      ensures LoginOutcome(s, matches, Some(username), Some(password)) == Response(401, ErrorBody(InvalidCredentials))
    {
      FindByUsernameUnique(s, id, username);
    }
  }

  // ---------------------------------------------------------------- profile lookup

  /** The profile lookup answers 404 exactly for unknown ids, and otherwise the account's public view. */
  lemma GetUserProfileIff(s: Store, id: int)
    ensures var r := GetUserProfileOutcome(s, id);
      && (r.status == 404 <==> id !in s.users)
      && (r.status == 404 ==> r.body == ErrorBody(UserNotFound))
      && (r.status != 404 ==> r.status == 200 && r.body == ToView(s.users[id]))
      && (r.status == 200 ==> "password" !in r.body)
  {
    if id in s.users {
      ViewHidesPassword(s.users[id], "", false);
    }
  }

  // ---------------------------------------------------------------- register

  /**
   * Registration's status under each condition, in the order the handler
   * checks them; a failed save is 500 with the generic registration error.
   */
  lemma RegisterStatus(
    s: Store, parseDate: string -> Option<Date>,
    username: Option<string>, password: Option<string>, jk: Option<string>, tanggalLahir: Option<string>, saved: bool)
    ensures var (r, s') := RegisterOutcome(s, parseDate, username, password, jk, tanggalLahir, saved);
      && (r.status == 400 <==> IsMissing(username) || IsMissing(password))
      && (r.status == 409 <==> !IsMissing(username) && !IsMissing(password) && UsernameTaken(s.users, username.value))
      && (r.status == 200 <==>
            !IsMissing(username) && !IsMissing(password) && !UsernameTaken(s.users, username.value) && saved)
      && (r.status == 500 <==>
            !IsMissing(username) && !IsMissing(password) && !UsernameTaken(s.users, username.value) && !saved)
      && (r.status == 500 ==> r.body == ErrorBody(RegistrationFailed))
      && r.status in {200, 400, 409, 500}
      && (r.status != 200 ==> s' == s)
  {
  }

  /**
   * A successful registration adds exactly one account, under a fresh id, with
   * the given username, password and gender, no picture and `state` true;
   * every other account is left as it was.
   */
  lemma RegisterAddsOneAccount(
    s: Store, parseDate: string -> Option<Date>,
    username: Option<string>, password: Option<string>, jk: Option<string>, tanggalLahir: Option<string>, saved: bool)
    requires Invariant(s)
    requires RegisterOutcome(s, parseDate, username, password, jk, tanggalLahir, saved).0.status == 200
    ensures var s' := RegisterOutcome(s, parseDate, username, password, jk, tanggalLahir, saved).1;
      && s.nextId !in s.users
      && s'.users.Keys == s.users.Keys + {s.nextId}
      && |s'.users| == |s.users| + 1
      && s'.users[s.nextId] ==
           Pengguna(s.nextId, username.value, password.value, jk, BirthDate(parseDate, tanggalLahir), None, true)
      && (forall id :: id in s.users ==> s'.users[id] == s.users[id])
      && s'.uploads == s.uploads
  {
    var s' := RegisterOutcome(s, parseDate, username, password, jk, tanggalLahir, saved).1;
    assert s.nextId !in s.users;
    assert s'.users.Keys == s.users.Keys + {s.nextId};
  }

  /**
   * The birth date is lenient: text that does not parse still registers, with
   * no birth date, and so does a null or empty text.
   */
  lemma RegisterIgnoresBadBirthDate(
    s: Store, parseDate: string -> Option<Date>,
    username: string, password: string, jk: Option<string>, tanggalLahir: Option<string>)
    requires username != "" && password != "" && !UsernameTaken(s.users, username)
    requires IsMissing(tanggalLahir) || parseDate(tanggalLahir.value).None?
    ensures var (r, s') := RegisterOutcome(s, parseDate, Some(username), Some(password), jk, tanggalLahir, true);
      r.status == 200 && s'.users[s.nextId].tanggalLahir.None?
  {
  }

  /** A parsable birth date is stored as parsed. */
  lemma RegisterKeepsParsedBirthDate(
    s: Store, parseDate: string -> Option<Date>,
    username: string, password: string, jk: Option<string>, text: string, d: Date)
    requires username != "" && password != "" && !UsernameTaken(s.users, username)
    requires text != "" && parseDate(text) == Some(d)
    ensures var (r, s') := RegisterOutcome(s, parseDate, Some(username), Some(password), jk, Some(text), true);
      r.status == 200 && s'.users[s.nextId].tanggalLahir == Some(d)
  {
  }

  /** Registering a username that a first registration just took answers 409, whatever the password. */
  lemma RegisterTwiceConflicts(
    s: Store, parseDate: string -> Option<Date>,
    username: Option<string>, password: Option<string>, jk: Option<string>, tanggalLahir: Option<string>, saved: bool,
    password2: Option<string>, jk2: Option<string>, tanggalLahir2: Option<string>, saved2: bool)
    requires Invariant(s)
    requires RegisterOutcome(s, parseDate, username, password, jk, tanggalLahir, saved).0.status == 200
    requires !IsMissing(password2)
    ensures var s' := RegisterOutcome(s, parseDate, username, password, jk, tanggalLahir, saved).1;
      RegisterOutcome(s', parseDate, username, password2, jk2, tanggalLahir2, saved2)
        == (Response(409, ErrorBody(UsernameExists)), s')
  {
    var s' := RegisterOutcome(s, parseDate, username, password, jk, tanggalLahir, saved).1;
    assert s'.users[s.nextId].username == username.value;
  }

  lemma RegisterKeepsInvariant(
    s: Store, parseDate: string -> Option<Date>,
    username: Option<string>, password: Option<string>, jk: Option<string>, tanggalLahir: Option<string>, saved: bool)
    requires Invariant(s)
    ensures Invariant(RegisterOutcome(s, parseDate, username, password, jk, tanggalLahir, saved).1)
  {
  }

  // ---------------------------------------------------------------- update profile

  /**
   * The profile update's checks in order: a missing username is 400, an unknown
   * id 404, a username held by a different account 409, then a failed save 500.
   */
  lemma UpdateProfileStatus(s: Store, id: int, username: Option<string>, saved: bool)
    requires Invariant(s)
    ensures var (r, s') := UpdateProfileOutcome(s, id, username, saved);
      && (r.status == 400 <==> IsMissing(username))
      && (r.status == 404 <==> !IsMissing(username) && id !in s.users)
      && (r.status == 409 <==>
            && !IsMissing(username) && id in s.users
            && exists other :: other in s.users && other != id && s.users[other].username == username.value)
      && (r.status == 200 <==>
            && !IsMissing(username) && id in s.users && saved
            && forall other :: other in s.users && s.users[other].username == username.value ==> other == id)
      && (r.status == 500 <==>
            && !IsMissing(username) && id in s.users && !saved
            && forall other :: other in s.users && s.users[other].username == username.value ==> other == id)
      && (r.status == 500 ==> r.body == ErrorBody(ProfileUpdateFailed))
      && r.status in {200, 400, 404, 409, 500}
      && (r.status != 200 ==> s' == s)
  {
    if !IsMissing(username) && id in s.users {
      if other :| other in s.users && s.users[other].username == username.value {
        FindByUsernameUnique(s, other, username.value);
      }
    }
  }

  /** Renaming an account to its own current username succeeds and changes nothing. */
  lemma UpdateProfileSelfRename(s: Store, id: int)
    requires Invariant(s)
    requires id in s.users
    ensures UpdateProfileOutcome(s, id, Some(s.users[id].username), true)
      == (Response(200, MessageBody(ProfileUpdated)), s)
  {
    FindByUsernameUnique(s, id, s.users[id].username);
    assert s.users[id := s.users[id].(username := s.users[id].username)] == s.users;
  }

  /** A successful profile update changes that account's username and nothing else. */
  lemma UpdateProfileOnlyRenames(s: Store, id: int, username: Option<string>, saved: bool)
    requires UpdateProfileOutcome(s, id, username, saved).0.status == 200
    ensures var s' := UpdateProfileOutcome(s, id, username, saved).1;
      && s'.users.Keys == s.users.Keys
      && s'.users[id] == s.users[id].(username := username.value)
      && (forall other :: other in s.users && other != id ==> s'.users[other] == s.users[other])
      && s'.nextId == s.nextId && s'.uploads == s.uploads
  {
  }

  lemma UpdateProfileKeepsInvariant(s: Store, id: int, username: Option<string>, saved: bool)
    requires Invariant(s)
    ensures Invariant(UpdateProfileOutcome(s, id, username, saved).1)
  {
    var (r, s') := UpdateProfileOutcome(s, id, username, saved);
    if r.status == 200 {
      UpdateProfileStatus(s, id, username, saved);
      forall a, b | a in s'.users && b in s'.users && s'.users[a].username == s'.users[b].username
        ensures a == b
      {
        if a != id && b != id {
          assert s.users[a].username == s.users[b].username;
        }
      }
    }
  }

  // ---------------------------------------------------------------- update password

  /**
   * The password change's checks in order: 400, 404, then 401 when the old
   * password does not verify, then 500 when the save fails.
   */
  lemma UpdatePasswordStatus(
    s: Store, matches: (string, string) -> bool, id: int, oldPassword: Option<string>, newPassword: Option<string>,
    saved: bool)
    ensures var (r, s') := UpdatePasswordOutcome(s, matches, id, oldPassword, newPassword, saved);
      && (r.status == 400 <==> IsMissing(oldPassword) || IsMissing(newPassword))
      && (r.status == 404 <==> !IsMissing(oldPassword) && !IsMissing(newPassword) && id !in s.users)
      && (r.status == 401 <==>
            !IsMissing(oldPassword) && !IsMissing(newPassword) && id in s.users
            && !matches(oldPassword.value, s.users[id].password))
      && (r.status == 200 <==>
            !IsMissing(oldPassword) && !IsMissing(newPassword) && id in s.users
            && matches(oldPassword.value, s.users[id].password) && saved)
      && (r.status == 500 <==>
            !IsMissing(oldPassword) && !IsMissing(newPassword) && id in s.users
            && matches(oldPassword.value, s.users[id].password) && !saved)
      && (r.status == 500 ==> r.body == ErrorBody(PasswordUpdateFailed))
      && r.status in {200, 400, 401, 404, 500}
      && (r.status != 200 ==> s' == s)
  {
  }

  /** A successful password change replaces that account's password by the new one and changes nothing else. */
  lemma UpdatePasswordOnlyReplacesPassword(
    s: Store, matches: (string, string) -> bool, id: int, oldPassword: Option<string>, newPassword: Option<string>,
    saved: bool)
    requires UpdatePasswordOutcome(s, matches, id, oldPassword, newPassword, saved).0.status == 200
    ensures var s' := UpdatePasswordOutcome(s, matches, id, oldPassword, newPassword, saved).1;
      && s'.users.Keys == s.users.Keys
      && s'.users[id] == s.users[id].(password := newPassword.value)
      && (forall other :: other in s.users && other != id ==> s'.users[other] == s.users[other])
      && s'.nextId == s.nextId && s'.uploads == s.uploads
  {
  }

  /**
   * After a password change, logging in with the new password succeeds when
   * the encoder accepts it against the value stored, and with the old one it
   * fails when the encoder rejects that.
   */
  lemma PasswordChangeThenLogin(
    s: Store, matches: (string, string) -> bool, id: int, oldPassword: string, newPassword: string)
    requires Invariant(s)
    requires UpdatePasswordOutcome(s, matches, id, Some(oldPassword), Some(newPassword), true).0.status == 200
    ensures var s' := UpdatePasswordOutcome(s, matches, id, Some(oldPassword), Some(newPassword), true).1;
      var name := s.users[id].username;
      && (matches(newPassword, newPassword) ==>
            LoginOutcome(s', matches, Some(name), Some(newPassword)).status == 200)
      && (!matches(oldPassword, newPassword) && oldPassword != "" ==>
            LoginOutcome(s', matches, Some(name), Some(oldPassword)) == Response(401, ErrorBody(InvalidCredentials)))
  {
    var s' := UpdatePasswordOutcome(s, matches, id, Some(oldPassword), Some(newPassword), true).1;
    UpdatePasswordKeepsInvariant(s, matches, id, Some(oldPassword), Some(newPassword), true);
    FindByUsernameUnique(s', id, s.users[id].username);
  }

  lemma UpdatePasswordKeepsInvariant(
    s: Store, matches: (string, string) -> bool, id: int, oldPassword: Option<string>, newPassword: Option<string>,
    saved: bool)
    requires Invariant(s)
    ensures Invariant(UpdatePasswordOutcome(s, matches, id, oldPassword, newPassword, saved).1)
  {
    var (r, s') := UpdatePasswordOutcome(s, matches, id, oldPassword, newPassword, saved);
    if r.status == 200 {
      forall a, b | a in s'.users && b in s'.users && s'.users[a].username == s'.users[b].username
        ensures a == b
      {
        assert s.users[a].username == s.users[b].username;
      }
    }
  }

  // ---------------------------------------------------------------- profile picture

  /** The upload's checks in order: an empty file is 400, an unknown id 404. */
  lemma UploadStatus(
    s: Store, id: int, file: MultipartFile, uuid: string, millis: int, copyOk: bool, saved: bool, detail: string)
    ensures var (r, s') := UploadOutcome(s, id, file, uuid, millis, copyOk, saved, detail);
      && (r.status == 400 <==> |file.content| == 0)
      && (r.status == 404 <==> |file.content| > 0 && id !in s.users)
      && (r.status == 200 <==>
            && |file.content| > 0 && id in s.users && file.originalFilename.Some? && copyOk && saved
            && StoredFileName(uuid, FileExtension(file.originalFilename.value)) !in s.uploads)
      && (r.status == 400 || r.status == 404 || r.status == 200 || r.status == 500)
      && s'.users.Keys == s.users.Keys && s'.nextId == s.nextId
  {
  }

  /**
   * When the file write fails (the device refuses it, or a file of that name
   * exists) the answer is 500 and nothing changes: the account keeps its
   * picture URL, because the write comes before the save.
   */
  lemma UploadWriteFailureChangesNothing(
    s: Store, id: int, file: MultipartFile, uuid: string, millis: int, copyOk: bool, saved: bool, detail: string)
    requires |file.content| > 0 && id in s.users && file.originalFilename.Some?
    requires !copyOk || StoredFileName(uuid, FileExtension(file.originalFilename.value)) in s.uploads
    ensures UploadOutcome(s, id, file, uuid, millis, copyOk, saved, detail)
      == (Response(500, ErrorBody(UploadFailedPrefix + detail)), s)
  {
  }

  /** When the save fails after the write, the file stays in the uploads directory but the account is unchanged. */
  lemma UploadSaveFailureKeepsAccount(
    s: Store, id: int, file: MultipartFile, uuid: string, millis: int, detail: string)
    requires |file.content| > 0 && id in s.users && file.originalFilename.Some?
    requires StoredFileName(uuid, FileExtension(file.originalFilename.value)) !in s.uploads
    ensures var (r, s') := UploadOutcome(s, id, file, uuid, millis, true, false, detail);
      && r.status == 500
      && s'.users == s.users
      && s'.uploads == s.uploads[StoredFileName(uuid, FileExtension(file.originalFilename.value)) := file.content]
  {
  }

  /**
   * A successful upload stores the bytes under the UUID plus extension, sets
   * the account's picture URL to "/uploads/" + that name + "?t=" + the clock
   * reading, returns the same URL, and changes no other field or account.
   */
  lemma UploadSuccess(
    s: Store, id: int, file: MultipartFile, uuid: string, millis: int, copyOk: bool, saved: bool, detail: string)
    requires UploadOutcome(s, id, file, uuid, millis, copyOk, saved, detail).0.status == 200
    ensures var (r, s') := UploadOutcome(s, id, file, uuid, millis, copyOk, saved, detail);
      var name := uuid + FileExtension(file.originalFilename.value);
      var url := "/uploads/" + name + "?t=" + IntToDecimal(millis);
      && name !in s.uploads
      && s'.uploads == s.uploads[name := file.content]
      && s'.users == s.users[id := s.users[id].(profilePictureUrl := Some(url))]
      && r.body["profilePictureUrl"] == Text(url)
      && ParseProfilePictureUrl(url) == Some((name, millis))
  {
    var name := uuid + FileExtension(file.originalFilename.value);
    UrlRoundTrip(name, millis);
  }

  lemma UploadKeepsInvariant(
    s: Store, id: int, file: MultipartFile, uuid: string, millis: int, copyOk: bool, saved: bool, detail: string)
    requires Invariant(s)
    ensures Invariant(UploadOutcome(s, id, file, uuid, millis, copyOk, saved, detail).1)
  {
    var (r, s') := UploadOutcome(s, id, file, uuid, millis, copyOk, saved, detail);
    if r.status == 200 {
      forall a, b | a in s'.users && b in s'.users && s'.users[a].username == s'.users[b].username
        ensures a == b
      {
        assert s.users[a].username == s.users[b].username;
      }
    }
  }

  // ---------------------------------------------------------------- a session

  /**
   * Starting from an empty store: register "alice" (200), register "alice"
   * again (409), log in with the right password (200, id 1) and a wrong one
   * (401), rename account 1 to "alice2" (200); afterwards the same password
   * logs in under the new name and no longer under the old one.
   */
  lemma RenameSession(matches: (string, string) -> bool, parseDate: string -> Option<Date>)
    requires matches("pw1", "pw1") && !matches("wrong", "pw1")
    ensures
      var s0 := Store(map[], 1, map[]);
      var (r1, s1) := RegisterOutcome(s0, parseDate, Some("alice"), Some("pw1"), None, None, true);
      var (r2, s2) := RegisterOutcome(s1, parseDate, Some("alice"), Some("pw2"), None, None, true);
      var r3 := LoginOutcome(s2, matches, Some("alice"), Some("pw1"));
      var r4 := LoginOutcome(s2, matches, Some("alice"), Some("wrong"));
      var (r5, s5) := UpdateProfileOutcome(s2, 1, Some("alice2"), true);
      var r6 := LoginOutcome(s5, matches, Some("alice2"), Some("pw1"));
      var r7 := LoginOutcome(s5, matches, Some("alice"), Some("pw1"));
      && r1.status == 200 && r2.status == 409
      && r3.status == 200 && r3.body["id"] == Int(1)
      && r4 == Response(401, ErrorBody(InvalidCredentials))
      && r5.status == 200
      && r6.status == 200 && r6.body["id"] == Int(1) && r6.body["username"] == Text("alice2")
      && r7 == Response(401, ErrorBody(InvalidCredentials))
  {
    var s0 := Store(map[], 1, map[]);
    var (r1, s1) := RegisterOutcome(s0, parseDate, Some("alice"), Some("pw1"), None, None, true);
    var alice := Pengguna(1, "alice", "pw1", None, None, None, true);
    assert s1 == Store(map[1 := alice], 2, map[]);
    FindByUsernameUnique(s1, 1, "alice");
    var (r5, s5) := UpdateProfileOutcome(s1, 1, Some("alice2"), true);
    assert !UsernameTaken(s1.users, "alice2");
    assert s5.users == map[1 := alice.(username := "alice2")];
    FindByUsernameUnique(s5, 1, "alice2");
    assert !UsernameTaken(s5.users, "alice");
  }
}
