# Account management of the TURU REST API, in Dafny

This project models the account handlers of `PenggunaRestController` in the
TURU Java API. The store holds accounts (`Pengguna`: id, username,
password, `jk` gender, `tanggalLahir` birth date, `profilePictureUrl`,
`state`). Six handlers act on it: login, register, profile update, password
change, profile-picture upload and profile lookup. Each handler returns an
HTTP status code and a JSON-like body (`map<string, Value>`, the `Map.of` and
`HashMap` bodies of the source). It runs its checks in a fixed order, so the
first check that fails decides the status.

Layout:

- `wrappers.dfy` (`Wrappers`): `Option`, which stands for Java nulls and `Optional`.
- `text.dfy` (`Text`): the Java runtime renderings the handlers use. These are
  the decimal text of a `long` and `LocalDate.toString`. The decimal text has
  a signed parser, with round trips in both directions on canonical strings.
  The date has a reader for the fixed "yyyy-MM-dd" form, with a round trip
  for four-digit years.
- `accounts.dfy` (`Accounts`): the `Pengguna` record and the `Store` (accounts
  by id, next id, uploads directory). It also holds the store invariant
  (unique, non-empty usernames; records under their own id), the
  username lookup, and the public view `ToView`.
- `upload.dfy` (`Upload`): `lastIndexOf`, the extension rule, the stored
  file name, the picture URL and a parser for that URL.
- `handlers.dfy` (`Handlers`): one outcome function per handler
  (`LoginOutcome`, `RegisterOutcome`, `UpdateProfileOutcome`,
  `UpdatePasswordOutcome`, `UploadOutcome`, `GetUserProfileOutcome`). Each
  gives the response and the new store as a function of the old store and
  the request. Their meaning is stated by the lemmas in `properties.dfy`.
- `properties.dfy` (`Properties`): the handler properties as lemmas over
  the outcome functions.
- `controller.dfy` (`Controller`): the class `PenggunaRestController`. It
  holds the mutable store (`users`, `nextId`, `uploads`) and the two
  collaborators, passed in through its constructor: `matches` (the password
  encoder) and `parseDate` (`LocalDate.parse`). Its methods are the
  handlers, written step by step with early returns, like the source. Each
  one is proved to keep `Valid()` and to return exactly what its outcome
  function gives, leaving the store exactly as that function says.

Collaborators and nondeterminism become inputs:
- `passwordEncoder.matches` is the uninterpreted `matches(plain, stored)`.
- `LocalDate.parse` is the uninterpreted `parseDate`, which gives `None`
  where the real call throws.
- The random UUID's text and `System.currentTimeMillis()` are parameters of
  the upload.
- Whether `savePengguna` succeeds is the flag `saved`.
- Whether the device accepts the write of `Files.copy` is the flag `copyOk`.
- The text of a caught exception (`e.getMessage()`) is `failureDetail`.

Two things the code does that are easy to overlook:
- Registration and password change hand the plain password to the store
  (`setPassword(password)`, `setPassword(newPassword)`, lines 89 and 165).
  Any hashing inside the store's save is not visible, so the model stores
  the value exactly as handed over.
- The upload answers 500 when the original file name is null: `lastIndexOf`
  then throws, and the generic `catch (Exception e)` (lines 224-226) answers.
  A storage error, including `Files.copy` refusing an existing target
  (that refusal is an `IOException`), goes through the
  `catch (IOException e)` branch (lines 221-223).

## Model

| member | source | states |
|---|---|---|
| `Controller.PenggunaRestController.constructor` | turu_java_api/src/main/java/com/turu/controllers/PenggunaRestController.java:29-33 | the controller starts over a given store that satisfies the invariant, holds exactly that store, and keeps the encoder and date parser it is given |
| `Accounts.EmptyStore` | turu_java_api/src/main/java/com/turu/controllers/PenggunaRestController.java:29-33 | the store of a fresh deployment has no accounts and no files, assigns id 1 next, and satisfies the invariant |
| `Controller.PenggunaRestController.FindByUsername` | turu_java_api/src/main/java/com/turu/controllers/PenggunaRestController.java:45 | the store lookup returns the one account holding that username, or None when no account does |
| `Controller.PenggunaRestController.Login` | turu_java_api/src/main/java/com/turu/controllers/PenggunaRestController.java:35-66 | the response is exactly the login outcome for the current store; nothing is changed |
| `Controller.PenggunaRestController.Register` | turu_java_api/src/main/java/com/turu/controllers/PenggunaRestController.java:68-107 | the response and the new store are exactly the registration outcome for the old store; the invariant is kept |
| `Controller.PenggunaRestController.UpdateProfile` | turu_java_api/src/main/java/com/turu/controllers/PenggunaRestController.java:109-140 | the response and the new store are exactly the profile-update outcome; the invariant (unique usernames) is kept |
| `Controller.PenggunaRestController.UpdatePassword` | turu_java_api/src/main/java/com/turu/controllers/PenggunaRestController.java:142-173 | the response and the new store are exactly the password-change outcome; the invariant is kept |
| `Controller.PenggunaRestController.UploadProfilePicture` | turu_java_api/src/main/java/com/turu/controllers/PenggunaRestController.java:183-229 | the response, the new accounts and the new uploads directory are exactly the upload outcome; the invariant is kept |
| `Controller.PenggunaRestController.GetUserProfile` | turu_java_api/src/main/java/com/turu/controllers/PenggunaRestController.java:231-247 | the response is exactly the lookup outcome for the current store; nothing is changed |
| `Accounts.FindByUsername` | turu_java_api/src/main/java/com/turu/controllers/PenggunaRestController.java:45-47 | the lookup finds an account exactly when some account holds the username, and what it finds is a stored account with that username |
| `Accounts.FindByUsernameUnique` | turu_java_api/src/main/java/com/turu/controllers/PenggunaRestController.java:126-127 | under the invariant the lookup returns the record stored under the id that holds the name, and that record's id is that id |
| `Accounts.ToView` | turu_java_api/src/main/java/com/turu/controllers/PenggunaRestController.java:58-63 | the view has exactly the keys id, username, jk, tanggalLahir and profilePictureUrl |
| `Accounts.ViewHidesPassword` | turu_java_api/src/main/java/com/turu/controllers/PenggunaRestController.java:58-63 | the view has no password or state key, and changing an account's password or state does not change its view |
| `Accounts.ViewDeterminesPublicFields` | turu_java_api/src/main/java/com/turu/controllers/PenggunaRestController.java:236-241 | equal views mean equal id, username, gender and picture URL, and a birth date on both or on neither |
| `Upload.LastIndexOf` | turu_java_api/src/main/java/com/turu/controllers/PenggunaRestController.java:205 | the result is -1 or an index holding the character, with no occurrence after it |
| `Upload.FileExtension` | turu_java_api/src/main/java/com/turu/controllers/PenggunaRestController.java:203-208 | the extension is empty, or a proper suffix of the name that starts with its only '.' |
| `Upload.ExtensionPresentIff` | turu_java_api/src/main/java/com/turu/controllers/PenggunaRestController.java:204-208 | a name gets an extension if and only if it holds a '.' at an index greater than 0 |
| `Upload.LeadingDotOnlyHasNoExtension` | turu_java_api/src/main/java/com/turu/controllers/PenggunaRestController.java:206 | a name such as ".png", whose only '.' is the first character, gets no extension |
| `Upload.ExtensionIsLastDotSuffix` | turu_java_api/src/main/java/com/turu/controllers/PenggunaRestController.java:205-207 | when the last '.' sits at an index k > 0 the extension is the suffix from k on |
| `Upload.UrlRoundTrip` | turu_java_api/src/main/java/com/turu/controllers/PenggunaRestController.java:216 | every picture URL starts with "/uploads/" and reads back as exactly the stored file name and the clock reading, even when the name holds '?' |
| `Upload.UrlParseInverts` | turu_java_api/src/main/java/com/turu/controllers/PenggunaRestController.java:216 | a URL the parser reads as (name, millis) is that picture URL exactly when its "?t=" digits are canonical, so the digits fix the clock reading |
| `Upload.ProfilePictureUrlInjective` | turu_java_api/src/main/java/com/turu/controllers/PenggunaRestController.java:216 | two picture URLs are equal only for the same stored name and the same clock reading |
| `Text.NatToDecimal` | turu_java_api/src/main/java/com/turu/controllers/PenggunaRestController.java:216 | the rendering of the clock reading is a non-empty string of digits with no leading zero |
| `Text.DecimalRoundTrip` | turu_java_api/src/main/java/com/turu/controllers/PenggunaRestController.java:216 | decoding the decimal rendering of n gives n back |
| `Text.CanonicalDecimalRoundTrip` | turu_java_api/src/main/java/com/turu/controllers/PenggunaRestController.java:216 | rendering the value of a digit string without leading zeros gives that string back, so the rendering is a bijection |
| `Text.IntRoundTrip` | turu_java_api/src/main/java/com/turu/controllers/PenggunaRestController.java:216 | the signed rendering of any integer parses back to it |
| `Text.IntToDecimalCanonical` | turu_java_api/src/main/java/com/turu/controllers/PenggunaRestController.java:216 | the rendering of any integer has no leading zero and no "-0" |
| `Text.ParseIntCanonical` | turu_java_api/src/main/java/com/turu/controllers/PenggunaRestController.java:216 | a canonical signed digit string parses, and rendering the value gives the string back |
| `Text.TwoDigitField` | turu_java_api/src/main/java/com/turu/controllers/PenggunaRestController.java:62 | a month or day below 100 renders as '-' and two digits that decode to the value |
| `Text.DateTextFields` | turu_java_api/src/main/java/com/turu/controllers/PenggunaRestController.java:62 | a birth date with a four-digit year renders as "yyyy-MM-dd", and each field decodes to the date's component |
| `Text.DateRoundTrip` | turu_java_api/src/main/java/com/turu/controllers/PenggunaRestController.java:62 | a birth date with a four-digit year and two-digit fields reads back from its rendering as itself |
| `Text.DateToStringInjective` | turu_java_api/src/main/java/com/turu/controllers/PenggunaRestController.java:62 | two such birth dates with the same rendering in the view are the same date |
| `Properties.LoginMissingFieldsIsBadRequest` | turu_java_api/src/main/java/com/turu/controllers/PenggunaRestController.java:40-43 | a null or empty username or password gives 400, and the response is the same whatever the store holds |
| `Properties.LoginSucceedsIff` | turu_java_api/src/main/java/com/turu/controllers/PenggunaRestController.java:45-65 | with both fields present, login gives 200 if and only if an account has that username and its stored password verifies; then the body is that account's view, and otherwise the status is 401 |
| `Properties.LoginFailureIsUniform` | turu_java_api/src/main/java/com/turu/controllers/PenggunaRestController.java:47-56 | an unknown username and a failed password check give the identical 401 response with the same message |
| `Properties.GetUserProfileIff` | turu_java_api/src/main/java/com/turu/controllers/PenggunaRestController.java:233-245 | the lookup gives 404 if and only if the id is unknown; otherwise 200 with the account's view, which has no password key |
| `Properties.RegisterStatus` | turu_java_api/src/main/java/com/turu/controllers/PenggunaRestController.java:75-105 | 400 if and only if a username or password is missing, 409 if and only if the username is taken, 500 with the registration error if and only if it is free and the save fails, 200 if and only if it is free and the save succeeds; no other status, and every non-200 leaves the store unchanged |
| `Properties.RegisterAddsOneAccount` | turu_java_api/src/main/java/com/turu/controllers/PenggunaRestController.java:86-102 | success adds exactly one account, under a fresh id, holding the given username, password and gender, the parsed birth date, no picture and state true; every other account is unchanged |
| `Properties.RegisterIgnoresBadBirthDate` | turu_java_api/src/main/java/com/turu/controllers/PenggunaRestController.java:93-99 | a birth date that is null, empty or unparsable does not stop registration, and the new account has no birth date |
| `Properties.RegisterKeepsParsedBirthDate` | turu_java_api/src/main/java/com/turu/controllers/PenggunaRestController.java:93-96 | a birth date that parses is stored as parsed |
| `Properties.RegisterTwiceConflicts` | turu_java_api/src/main/java/com/turu/controllers/PenggunaRestController.java:80-84 | after a successful registration, registering the same username again gives 409 whatever the password, and changes nothing |
| `Properties.RegisterKeepsInvariant` | turu_java_api/src/main/java/com/turu/controllers/PenggunaRestController.java:80-101 | registration keeps usernames unique and non-empty and ids below the next id |
| `Properties.UpdateProfileStatus` | turu_java_api/src/main/java/com/turu/controllers/PenggunaRestController.java:113-139 | in this order: 400 if and only if the username is missing, 404 if and only if the id is unknown, 409 if and only if a different account holds the username, then 500 with the profile error if and only if the save fails and 200 if and only if it succeeds; no other status, and every non-200 leaves the store unchanged |
| `Properties.UpdateProfileSelfRename` | turu_java_api/src/main/java/com/turu/controllers/PenggunaRestController.java:126-135 | renaming an account to its own current username succeeds and leaves the store as it was |
| `Properties.UpdateProfileOnlyRenames` | turu_java_api/src/main/java/com/turu/controllers/PenggunaRestController.java:132-134 | on success only that account's username changes; other accounts, the next id and the uploads are unchanged |
| `Properties.UpdateProfileKeepsInvariant` | turu_java_api/src/main/java/com/turu/controllers/PenggunaRestController.java:126-134 | a profile update keeps usernames unique |
| `Properties.UpdatePasswordStatus` | turu_java_api/src/main/java/com/turu/controllers/PenggunaRestController.java:147-172 | in this order: 400 if and only if a password is missing, 404 if and only if the id is unknown, 401 if and only if the old password does not verify, then 500 with the password error if and only if the save fails and 200 if and only if it succeeds; no other status, and every non-200 leaves the store unchanged |
| `Properties.UpdatePasswordOnlyReplacesPassword` | turu_java_api/src/main/java/com/turu/controllers/PenggunaRestController.java:165-167 | on success only that account's password changes, and it becomes the new password as given |
| `Properties.PasswordChangeThenLogin` | turu_java_api/src/main/java/com/turu/controllers/PenggunaRestController.java:160-167 | after a change, login with the new password succeeds when the encoder accepts it against the stored value, and login with the old one gives 401 when the encoder rejects it |
| `Properties.UpdatePasswordKeepsInvariant` | turu_java_api/src/main/java/com/turu/controllers/PenggunaRestController.java:165-167 | a password change keeps the store invariant |
| `Properties.UploadStatus` | turu_java_api/src/main/java/com/turu/controllers/PenggunaRestController.java:185-194 | 400 if and only if the file is empty, 404 if and only if it is not empty and the id is unknown, 200 if and only if the name is present, the write and save succeed and the generated name is new; no other status, and no account is added or removed |
| `Properties.UploadWriteFailureChangesNothing` | turu_java_api/src/main/java/com/turu/controllers/PenggunaRestController.java:212-224 | when the file write fails, the result is 500 and the store, including the account's picture URL, is unchanged |
| `Properties.UploadSaveFailureKeepsAccount` | turu_java_api/src/main/java/com/turu/controllers/PenggunaRestController.java:212-227 | when the save fails after the write, the result is 500, the file stays written and the accounts are unchanged |
| `Properties.UploadSuccess` | turu_java_api/src/main/java/com/turu/controllers/PenggunaRestController.java:203-220 | success stores the bytes under the UUID plus extension, sets exactly that account's picture URL to "/uploads/" + name + "?t=" + millis, returns the same URL, and that URL reads back as the name and the clock reading |
| `Properties.UploadKeepsInvariant` | turu_java_api/src/main/java/com/turu/controllers/PenggunaRestController.java:217-218 | an upload keeps the store invariant |
| `Properties.RenameSession` | turu_java_api/src/main/java/com/turu/controllers/PenggunaRestController.java:35-140 | from an empty store: register, register the same name again (409), log in right (200, id 1) and wrong (401), rename; the password then logs in under the new name only |

## Left out

- HTTP plumbing is not modelled: Spring annotations, request-body maps,
  `ResponseEntity` and the `MultipartFile` stream. Requests are optional
  strings and a byte sequence; responses are a status and a body map.
- `ping` (PenggunaRestController.java:175-181) is not modelled. It is a
  constant health-check answer with no logic.
- Creating the uploads directory (PenggunaRestController.java:197-201) is not
  modelled. It is file-system I/O; its failure would be one more 500 path.
- The casts `(String) registerData.get(...)` (lines 70-73) are not modelled.
  They fail outside the `try` on a non-string field. This is input typing
  that the framework handles.
- BCrypt and the store's internals are not modelled: the encoder is the
  uninterpreted `matches`. The store's `savePengguna`, JPA and any hashing it
  does are not visible. The model keeps the password exactly as the
  controller hands it over.
- Id assignment by the persistence layer is not visible. The model assumes an
  increasing counter that starts at 1 and is not advanced by a failed save.
- Ids are unbounded integers; the 32-bit width of the `int` path variable
  is not modelled.
- The race between the uniqueness check and the write is not modelled. The
  model is sequential, one handler call at a time.
- The JDK's `LocalDate.parse` is not modelled. `UUID.randomUUID` and the clock
  are parameters, so the model does not assume that UUIDs are unique. A
  repeated name is the `Files.copy` refusal (500).
- A failed `Files.copy` leaves the uploads directory unchanged in the model.
  A partially written file is not modelled.
- Exception messages are not modelled: the text after "Failed to upload
  image: " and "An unexpected error occurred: " is the input `failureDetail`.
- Text.DateTextFields: proved only for years 1000 to 9999 and fields below
  100; so are Text.DateRoundTrip and Text.DateToStringInjective. The zero-padded and signed year forms of `LocalDate.toString` are
  defined (`YearText`) but no lemma is stated about them.
- `TuruApiApplication.java` is not part of this model (startup directory
  creation, static resource mapping, printing database settings). Neither are
  `SecurityConfig.java` (filter-chain permit list, BCrypt bean) and
  `CorsConfig.java` (origin list). All three are configuration or I/O.
