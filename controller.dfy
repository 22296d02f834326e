/**
 * `PenggunaRestController`: the REST handlers over an in-memory account store.
 * Each handler runs its checks in the source's order, returns early on the
 * first failure, and otherwise updates the fetched record and writes it back.
 */
module Controller {
  import opened Wrappers
  import opened Text
  import opened Accounts
  import opened Upload
  import opened Handlers

  class PenggunaRestController {
    /** The accounts by id, standing for the persistence behind the account service. */
    var users: map<int, Pengguna>
    /** The id the store assigns to the next account it saves. */
    var nextId: int
    /** The uploads directory: file name to bytes. */
    var uploads: map<string, seq<byte>>
    /** The password encoder's `matches(plain, stored)`. */
    const matches: (string, string) -> bool
    /** `LocalDate.parse`, None where it throws. */
    const parseDate: string -> Option<Date>

    ghost function State(): Store
      reads this
    {
      Store(users, nextId, uploads)
    }

    ghost predicate Valid()
      reads this
    {
      Invariant(State())
    }

    /**
     * A controller over an existing store (`initial`), which must already
     * satisfy the store invariant; `EmptyStore()` is a fresh deployment.
     */
    constructor(initial: Store, matches: (string, string) -> bool, parseDate: string -> Option<Date>)
      requires Invariant(initial)
      ensures Valid()
      ensures State() == initial
      ensures this.matches == matches && this.parseDate == parseDate
    {
      this.users := initial.users;
      this.nextId := initial.nextId;
      this.uploads := initial.uploads;
      this.matches := matches;
      this.parseDate := parseDate;
    }

    /** The account service's `findByUsername`. */
    method FindByUsername(username: string) returns (found: Option<Pengguna>)
      requires Valid()
      ensures found == Accounts.FindByUsername(users, username)
    {
      if id :| id in users && users[id].username == username {
        FindByUsernameUnique(State(), id, username);
        found := Some(users[id]);
      } else {
        found := None;
      }
    }

    method Login(username: Option<string>, password: Option<string>) returns (r: Response)
      requires Valid()
      ensures r == LoginOutcome(State(), matches, username, password)
    {
      if username.None? || password.None? || username.value == "" || password.value == "" {
        return Response(400, ErrorBody(UsernamePasswordRequired));
      }
      var userOptional := FindByUsername(username.value);
      if userOptional.None? {
        return Response(401, ErrorBody(InvalidCredentials));
      }
      var user := userOptional.value;
      if !matches(password.value, user.password) {
        return Response(401, ErrorBody(InvalidCredentials));
      }
      r := Response(200, ToView(user));
    }

    method Register(
      username: Option<string>, password: Option<string>, jk: Option<string>, tanggalLahirStr: Option<string>,
      saved: bool) returns (r: Response)
      requires Valid()
      modifies this
      ensures Valid()
      ensures (r, State()) == RegisterOutcome(old(State()), parseDate, username, password, jk, tanggalLahirStr, saved)
    {
      if username.None? || password.None? || username.value == "" || password.value == "" {
        return Response(400, ErrorBody(UsernamePasswordRequired));
      }
      var existingUser := FindByUsername(username.value);
      if existingUser.Some? {
        return Response(409, ErrorBody(UsernameExists));
      }
      var tanggalLahir: Option<Date> := None;
      if tanggalLahirStr.Some? && tanggalLahirStr.value != "" {
        tanggalLahir := parseDate(tanggalLahirStr.value);
      }
      var newUser := Pengguna(nextId, username.value, password.value, jk, tanggalLahir, None, true);
      if !saved {
        return Response(500, ErrorBody(RegistrationFailed));
      }
      users := users[nextId := newUser];
      nextId := nextId + 1;
      r := Response(200, MessageBody(RegisterSuccessful));
    }

    method UpdateProfile(id: int, username: Option<string>, saved: bool) returns (r: Response)
      requires Valid()
      modifies this
      ensures Valid()
      ensures (r, State()) == UpdateProfileOutcome(old(State()), id, username, saved)
    {
      if username.None? || username.value == "" {
        return Response(400, ErrorBody(UsernameRequired));
      }
      if id !in users {
        return Response(404, ErrorBody(UserNotFound));
      }
      var user := users[id];
      var existingUser := FindByUsername(username.value);
      if existingUser.Some? && existingUser.value.id != id {
        return Response(409, ErrorBody(UsernameExists));
      }
      user := user.(username := username.value);
      if !saved {
        return Response(500, ErrorBody(ProfileUpdateFailed));
      }
      users := users[id := user];
      r := Response(200, MessageBody(ProfileUpdated));
    }

    method UpdatePassword(id: int, oldPassword: Option<string>, newPassword: Option<string>, saved: bool)
      returns (r: Response)
      requires Valid()
      modifies this
      ensures Valid()
      ensures (r, State()) == UpdatePasswordOutcome(old(State()), matches, id, oldPassword, newPassword, saved)
    {
      if oldPassword.None? || newPassword.None? || oldPassword.value == "" || newPassword.value == "" {
        return Response(400, ErrorBody(PasswordsRequired));
      }
      if id !in users {
        return Response(404, ErrorBody(UserNotFound));
      }
      var user := users[id];
      if !matches(oldPassword.value, user.password) {
        return Response(401, ErrorBody(OldPasswordIncorrect));
      }
      user := user.(password := newPassword.value);
      if !saved {
        return Response(500, ErrorBody(PasswordUpdateFailed));
      }
      users := users[id := user];
      r := Response(200, MessageBody(PasswordUpdated));
    }

    /**
     * `uuid` and `millis` are the random UUID's text and the clock reading;
     * `copyOk` is the outcome of the device write, `saved` that of the store's
     * save, and `failureDetail` the message of the exception that ends a failed call.
     */
    method UploadProfilePicture(
      id: int, file: MultipartFile, uuid: string, millis: int, copyOk: bool, saved: bool, failureDetail: string)
      returns (r: Response)
      requires Valid()
      modifies this
      ensures Valid()
      ensures (r, State()) == UploadOutcome(old(State()), id, file, uuid, millis, copyOk, saved, failureDetail)
    {
      if |file.content| == 0 {
        return Response(400, ErrorBody(SelectFile));
      }
      if id !in users {
        return Response(404, ErrorBody(UserNotFound));
      }
      if file.originalFilename.None? {
        // lastIndexOf on a null name throws; the generic handler answers.
        return Response(500, ErrorBody(UnexpectedPrefix + failureDetail));
      }
      var fileExtension := FileExtension(file.originalFilename.value);
      var uniqueFileName := StoredFileName(uuid, fileExtension);
      // Files.copy refuses an existing target as well as failing on the device.
      if !copyOk || uniqueFileName in uploads {
        return Response(500, ErrorBody(UploadFailedPrefix + failureDetail));
      }
      uploads := uploads[uniqueFileName := file.content];
      var user := users[id];
      var profilePictureUrl := ProfilePictureUrl(uniqueFileName, millis);
      user := user.(profilePictureUrl := Some(profilePictureUrl));
      if !saved {
        return Response(500, ErrorBody(UnexpectedPrefix + failureDetail));
      }
      users := users[id := user];
      r := Response(200, PictureBody(profilePictureUrl));
    }

    method GetUserProfile(id: int) returns (r: Response)
      requires Valid()
      ensures r == GetUserProfileOutcome(State(), id)
    {
      if id in users {
        var user := users[id];
        r := Response(200, ToView(user));
      } else {
        r := Response(404, ErrorBody(UserNotFound));
      }
    }
  }
}
