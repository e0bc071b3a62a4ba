# Account server model

A Dafny model of the account logic of a small Express server
(`server.js`): user registration, login and the user listing, over a
flat users file holding one JSON array of user records.

The file is modelled by its content only: `UserStore.UsersFile` is either
`Missing` (never written — it reads as no users) or `Stored(users)`.
Each handler is a pure function of that file and the request fields.
`Register` returns an outcome and the file as it is afterwards. `Login`
and `ListUsers` only read it. `Server.Handle` dispatches one request.
`Server.Run` handles a sequence of requests one after the other, so the
server is a sequential state machine whose state is the users file.

Modules:

- `Wrappers`: `Option`, for request fields that may be absent.
- `Js`: the JavaScript behaviour the handlers rely on. `Truthy` models
  falsiness of a request field: absent or the empty string is falsy.
  `Utf16Length` models a string's `length` in UTF-16 code units. `Find`
  models `Array.prototype.find` and `Map` models `Array.prototype.map`.
- `Users`: `UserRecord` (id, name, email, password, createdAt) and
  `PublicUser` (the same without the password). `ToPublic` is the
  projection between them. `EmailsDistinct` is the collection invariant.
- `UserStore`: `readUsers` / `writeUsers` as `ReadUsers` / `WriteUsers`.
- `Accounts`: the three handlers, their outcomes, and the HTTP status and
  JSON body each outcome is sent as (the messages are the server's own).
- `Server`: requests, one handling step, and runs of requests.
- `AccountProperties`: properties relating several calls.

The id and the creation time of a new record come from `Date.now()` and
`new Date().toISOString()`. They are plain string parameters of
`Register` (and fields of a register request).

Behaviour of the code worth noting:

- The password length check uses JavaScript's `length`, which counts
  UTF-16 code units, not characters. A password of three characters from
  outside the Basic Multilingual Plane passes the check of at least 6
  (`AccountProperties.ThreeAstralCharactersSuffice`).
- A new record's id is the current time in milliseconds. Ids are not
  promised unique, because two registrations in the same millisecond get
  the same id.
- "Missing field" means JavaScript falsiness, which for strings is
  "absent or empty".
- A failed registration does not write the file. A file that did not
  exist stays missing.

## Model

| member | source | states |
|---|---|---|
| `Js.Truthy` | server.js:39 | `!field` is true of a string request field exactly when it is absent or the empty string, the two falsy values such a field can take. |
| `Js.Utf16Length` | server.js:46 | A password's `length` lies between its character count and twice that. It equals the character count exactly when every character is in the Basic Multilingual Plane. |
| `Js.Find` | server.js:108 | `users.find(p)` yields the first position whose element satisfies `p`. It yields nothing exactly when no element does. |
| `Js.Map` | server.js:139 | `users.map(f)` has the same length as `users`, and element i is `f` of record i. |
| `Users.ToPublic` | server.js:118 | The public projection drops the password and nothing else: putting the record's password back on it gives the record again. |
| `Users.ProjectionDropsOnlyPassword` | server.js:139 | Two records have the same public projection exactly when they agree on every field but the password. |
| `UserStore.ReadUsers` | server.js:15-26 | A users file that does not exist reads as the empty collection. |
| `UserStore.ReadThenWrite` | server.js:15-31 | Writing back what was read from an existing file reproduces that file. |
| `UserStore.WriteUsers` | server.js:15-31 | After writing a collection, reading the file gives exactly that collection back. |
| `Accounts.Register` | server.js:34-89 | Missing fields iff one of name, email, password is absent or empty. Too short iff all are present and the password has fewer than 6 code units. Email taken iff those pass and some stored record has that email. Success otherwise. Every failure leaves the file unchanged. Success appends exactly one record (given id, name, email, password, createdAt) after the unchanged earlier ones. |
| `Accounts.Login` | server.js:92-132 | Missing credentials iff email or password is absent or empty. Success iff both are present and some record matches both exactly. On success the user is the first matching record without its password. |
| `Accounts.ListUsers` | server.js:135-148 | Status 200 with one entry per stored record, in file order, each the record's password-free projection. A missing file lists nobody. |
| `Accounts.RegisterResponse` | server.js:38-81 | Success flag and status 200 only for a registration. Every rejection is status 400. |
| `Accounts.LoginResponse` | server.js:96-124 | Success flag and status 200 only for a login, carrying the user. Missing fields give 400. Credentials that match nothing give 401. |
| `Server.Handle` | server.js:34-148 | Only a register request can change the users file, and only with a 200 response. Login answers 200, 400 or 401. Register answers 200 or 400. |
| `AccountProperties.RegisterPreservesDistinctEmails` | server.js:57-73 | If stored emails are pairwise distinct before a register request, they still are after it, whatever the request. |
| `AccountProperties.HandlePreservesDistinctEmails` | server.js:34-148 | No request of any of the three kinds breaks the distinct-emails invariant. |
| `AccountProperties.RunPreservesDistinctEmails` | server.js:34-148 | A whole sequence of requests, handled in order, keeps stored emails pairwise distinct. |
| `AccountProperties.FromMissingEmailsDistinct` | server.js:21-22 | Starting with no users file (read as empty), no request sequence yields two users with one email. |
| `AccountProperties.RunOnlyAppends` | server.js:54-76 | Records are never changed or deleted. The collection before a request sequence is a prefix of the one after it. |
| `AccountProperties.RegisterThenLogin` | server.js:65-118 | Right after a successful registration, login with the same email and password succeeds. It returns exactly the new record without its password. |
| `AccountProperties.WrongPasswordLooksLikeUnknownEmail` | server.js:108-115 | A known email with a wrong password and an unregistered email give the same outcome, and so the same 401 status and message. |
| `AccountProperties.LoginFindsTheOwner` | server.js:105-118 | With distinct emails, login for a stored email returns that record's user if the password matches, and invalid credentials otherwise. |
| `AccountProperties.SecondRegistrationConflicts` | server.js:57-62 | A second registration of the same email is refused as email taken, whatever its name and password, provided both pass the earlier checks (a non-empty name, a password of at least 6 code units). The file then holds exactly one record more than before the first registration. |
| `AccountProperties.ListAfterRegister` | server.js:73-140 | After a successful registration, the listing is the earlier listing with the new user appended. |
| `AccountProperties.LoginAgreesWithListing` | server.js:108-139 | The user a login returns is the listing's entry at the position of the matching record. |
| `AccountProperties.MissingFieldsIgnoreStore` | server.js:39-54 | The missing-fields check comes before the file is read. Its outcome does not depend on the file, and the file is left as it was. |
| `AccountProperties.ShortPasswordIgnoresStore` | server.js:46-54 | The password length check also comes before the file is read, so it wins over an email that is already taken. |
| `AccountProperties.RegisterResponseDeterminesOutcome` | server.js:40-80 | Two register responses are equal exactly when the outcomes are, so every rejection reason has its own message. |
| `AccountProperties.LoginResponseDeterminesOutcome` | server.js:98-123 | Two login responses are equal exactly when the outcomes are. All credential mismatches share one outcome and so look the same. |
| `AccountProperties.BmpPasswordLength` | server.js:46 | For passwords within the Basic Multilingual Plane, the length check is a plain character count. |
| `AccountProperties.ThreeAstralCharactersSuffice` | server.js:46 | A password of three emoji (6 UTF-16 code units) is long enough to register. |
| `AccountProperties.AnaScenario` | server.js:34-132 | Worked example: Ana registers with "secret1". The same email with another password is refused. Login with "secret1" returns Ana's public record. Login with "wrong" fails. |

## Left out

- HTTP plumbing: Express routing, JSON body parsing, static file serving
  and `app.listen` (server.js:1-12, 151-153).
- JSON encoding and decoding of the users file, its pretty-printing, and
  the file system calls. A file that exists but cannot be parsed is not
  modelled.
- The 500 responses and error logging when reading or writing the file
  throws (server.js:82-88, 125-131, 141-147). The model's file operations
  cannot fail.
- The clock: `Date.now()` and `toISOString()` are string parameters.
  Nothing is claimed about ids being unique or timestamps increasing.
- Concurrency: overlapping requests can interleave their read-modify-write
  of the file and lose a registration or duplicate an email. The model
  handles requests one at a time only, and its invariant holds only for
  that sequential use.
- Request bodies whose fields are not strings (a numeric password has no
  `length`, for example). Fields are absent or strings.
- Lone UTF-16 surrogates in strings: Dafny characters are Unicode scalar
  values, so such strings cannot be written down. For every other string,
  JavaScript `===` and Dafny sequence equality agree.
- Server.Handle: its own contract only says which requests may change the
  file and which statuses each endpoint answers. The full response of
  each request is that of the handler it dispatches to.
