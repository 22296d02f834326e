/**
 * What each controller handler returns and how it leaves the store, as
 * functions of the store before the call and the request. The checks run in
 * the handler's order and the first that fails decides the response.
 * `matches` is the password encoder's check of a plain password against the
 * stored value, `parseDate` is `LocalDate.parse` (None where it throws), and
 * `saved` says whether the store's save succeeded.
 */
module Handlers {
  import opened Wrappers
  import opened Text
  import opened Accounts
  import opened Upload

  const UsernamePasswordRequired := "Username and password are required"
  const InvalidCredentials := "Invalid username or password"
  const UsernameExists := "Username already exists"
  const RegisterSuccessful := "Register successful"
  const RegistrationFailed := "Registration failed due to an unexpected error"
  const UsernameRequired := "Username is required"
  const UserNotFound := "User not found"
  const ProfileUpdated := "Profile updated successfully"
  const ProfileUpdateFailed := "Error updating profile"
  const PasswordsRequired := "Old and new passwords are required"
  const OldPasswordIncorrect := "Old password is incorrect"
  const PasswordUpdated := "Password updated successfully"
  const PasswordUpdateFailed := "Error updating password"
  const SelectFile := "Please select a file to upload"
  const PictureUpdated := "Profile picture updated successfully"
  const UploadFailedPrefix := "Failed to upload image: "
  const UnexpectedPrefix := "An unexpected error occurred: "

  /** A request field that is null or the empty string. */
  predicate IsMissing(s: Option<string>)
  {
    s.None? || s.value == ""
  }

  /** An uploaded multipart file: its bytes and the name the client gave it (possibly null). */
  datatype MultipartFile = MultipartFile(content: seq<byte>, originalFilename: Option<string>)

  ghost function LoginOutcome(
    s: Store, matches: (string, string) -> bool,
    username: Option<string>, password: Option<string>): Response
  {
    if IsMissing(username) || IsMissing(password) then Response(400, ErrorBody(UsernamePasswordRequired))
    else match FindByUsername(s.users, username.value)
      case None => Response(401, ErrorBody(InvalidCredentials))
      case Some(user) =>
        if !matches(password.value, user.password) then Response(401, ErrorBody(InvalidCredentials))
        else Response(200, ToView(user))
  }

  /** The birth date stored at registration: absent when the text is null, empty or unparsable. */
  function BirthDate(parseDate: string -> Option<Date>, text: Option<string>): Option<Date>
  {
    if IsMissing(text) then None else parseDate(text.value)
  }

  ghost function RegisterOutcome(
    s: Store, parseDate: string -> Option<Date>,
    username: Option<string>, password: Option<string>, jk: Option<string>, tanggalLahir: Option<string>,
    saved: bool): (Response, Store)
  {
    if IsMissing(username) || IsMissing(password) then (Response(400, ErrorBody(UsernamePasswordRequired)), s)
    else if FindByUsername(s.users, username.value).Some? then (Response(409, ErrorBody(UsernameExists)), s)
    else if !saved then (Response(500, ErrorBody(RegistrationFailed)), s)
    else
      var user := Pengguna(s.nextId, username.value, password.value, jk, BirthDate(parseDate, tanggalLahir), None, true);
      (Response(200, MessageBody(RegisterSuccessful)),
       s.(users := s.users[s.nextId := user], nextId := s.nextId + 1))
  }

  ghost function UpdateProfileOutcome(s: Store, id: int, username: Option<string>, saved: bool): (Response, Store)
  {
    if IsMissing(username) then (Response(400, ErrorBody(UsernameRequired)), s)
    else if id !in s.users then (Response(404, ErrorBody(UserNotFound)), s)
    else
      var existing := FindByUsername(s.users, username.value);
      if existing.Some? && existing.value.id != id then (Response(409, ErrorBody(UsernameExists)), s)
      else if !saved then (Response(500, ErrorBody(ProfileUpdateFailed)), s)
      else (Response(200, MessageBody(ProfileUpdated)),
            s.(users := s.users[id := s.users[id].(username := username.value)]))
  }

  ghost function UpdatePasswordOutcome(
    s: Store, matches: (string, string) -> bool,
    id: int, oldPassword: Option<string>, newPassword: Option<string>, saved: bool): (Response, Store)
  {
    if IsMissing(oldPassword) || IsMissing(newPassword) then (Response(400, ErrorBody(PasswordsRequired)), s)
    else if id !in s.users then (Response(404, ErrorBody(UserNotFound)), s)
    else if !matches(oldPassword.value, s.users[id].password) then (Response(401, ErrorBody(OldPasswordIncorrect)), s)
    else if !saved then (Response(500, ErrorBody(PasswordUpdateFailed)), s)
    else (Response(200, MessageBody(PasswordUpdated)),
          s.(users := s.users[id := s.users[id].(password := newPassword.value)]))
  }

  /** The body of a successful upload: a message and the new picture URL. */
  function PictureBody(url: string): Json
  {
    map["message" := Text(PictureUpdated), "profilePictureUrl" := Text(url)]
  }

  /**
   * `uuid` is the text of the random UUID and `millis` the clock reading;
   * `copyOk` says whether the device accepted the write, which also fails
   * when a file of that name already exists; `failureDetail` is the message of
   * whatever exception ended the upload.
   */
  ghost function UploadOutcome(
    s: Store, id: int, file: MultipartFile, uuid: string, millis: int,
    copyOk: bool, saved: bool, failureDetail: string): (Response, Store)
  {
    if |file.content| == 0 then (Response(400, ErrorBody(SelectFile)), s)
    else if id !in s.users then (Response(404, ErrorBody(UserNotFound)), s)
    else if file.originalFilename.None? then (Response(500, ErrorBody(UnexpectedPrefix + failureDetail)), s)
    else
      var name := StoredFileName(uuid, FileExtension(file.originalFilename.value));
      if !copyOk || name in s.uploads then (Response(500, ErrorBody(UploadFailedPrefix + failureDetail)), s)
      else
        var written := s.(uploads := s.uploads[name := file.content]);
        var url := ProfilePictureUrl(name, millis);
        if !saved then (Response(500, ErrorBody(UnexpectedPrefix + failureDetail)), written)
        else (Response(200, PictureBody(url)),
              written.(users := s.users[id := s.users[id].(profilePictureUrl := Some(url))]))
  }

  function GetUserProfileOutcome(s: Store, id: int): Response
  {
    if id in s.users then Response(200, ToView(s.users[id])) else Response(404, ErrorBody(UserNotFound))
  }
}
