# Chirpy core, modelled in Dafny

Chirpy is a small social-posting backend. Users register and post short
messages ("chirps"), and a billing webhook can upgrade accounts to
"Chirpy Red". This project models three sequential parts of it and proves
properties about them:

- **The user-record store** (`internal/database/users.go`). A single JSON
  document holds `Users map[int]User`. Every operation loads the document and
  searches that map. `CreateUser`, `UpdateUser` and `UpgradeChirpyRed` then
  assign into the map and write the document back; `GetUserByEmail` and
  `GetUser` only read. Here the document is
  the field `users: map<int, User>` of a `Users.DB` object. The methods assign
  into it as the Go code assigns into `dbStructure.Users`.
- **The chirp rules** (`handlers/chirps.go`):
  - the profanity filter `cleanBody`;
  - the checks `HandlePostChirp` makes before it creates a chirp;
  - the author filter and ID sort of `HandleGetChirps`;
  - the check ladder of `HandleDeleteChirp`.
- **The billing webhook** (`handlers/webhooks.go`). It checks the API key,
  decodes the body, ignores every event but `user.upgraded`, and calls the
  store's `UpgradeChirpyRed`.

Files:
- `wrappers.dfy`: `Option`, `Result` and the HTTP status codes.
- `text.dfy`: Go's `unicode.IsSpace`, `strings.Fields`, `strings.Join` and
  `strings.ToLower`, over strings as sequences of runes.
- `users.dfy`: the store.
- `chirps.dfy`: the chirp handlers.
- `webhooks.dfy`: the webhook handler.

The model keeps three behaviours of the code as written:

- User IDs are `len(Users) + 1` (users.go:53), not a persisted counter.
- A duplicate email fails with a plain `fmt.Errorf` message, not with
  `ErrAlreadyExists` (users.go:50). See the finding below.
- `UpdateUser` checks that the ID exists but not that the new email is free
  (users.go:93-100).

Collaborators outside the modelled files (`internal/auth`, bcrypt, the chirp functions of `internal/database`) become inputs:

- `auth.GetBearerToken`, `auth.GetAPIKey`, JSON decoding and `chi.URLParam` +
  `strconv.Atoi` of a URL parameter are `Option` values.
- `auth.ValidateJWT` and `strconv.Atoi` on the token's subject are function
  parameters (`string -> Option<…>`).
- `bcrypt.CompareHashAndPassword` is a parameter `compare(hash, password)`.
- The chirp table is an abstract `map<int, Chirp>`. The ID `CreateChirp` picks
  is a parameter `newId`, and `GetChirps` gives a sequence `db` in any order.

## Model

| member | source | states |
|---|---|---|
| `Users.UserExists` | internal/database/users.go:19-26 | returns a user exactly when some record has the email; the returned user has that email and is a record of the map |
| `Users.DB.GetUserByEmail` | internal/database/users.go:28-41 | succeeds exactly when some user has the email, with a stored user of that email; otherwise fails with `ErrNotExist` |
| `Users.DB.CreateUser` | internal/database/users.go:43-67 | a taken email fails with the plain "is already exists" message (never `ErrAlreadyExists`) and changes nothing; otherwise the new user has ID `len(Users)+1`, the given email and hash and is not Red, and the map is the old one plus that entry; keeps email uniqueness and the 1..n key shape, and then every old record is unchanged |
| `Users.CreateKeepsDense` | internal/database/users.go:53-59 | when the keys are exactly 1..n with matching IDs, ID n+1 is unused and afterwards the keys are exactly 1..n+1 |
| `Users.IdOfCountCanBeTaken` | internal/database/users.go:53-59 | on a document whose keys have a gap, `len(Users)+1` can be an ID already in use; the map `CreateUser` then leaves has no more records than before, and the user stored under that ID is gone |
| `Users.DB.GetUser` | internal/database/users.go:69-85 | fails with the "not found" message exactly when no user has the email; a success is a stored user with that email whose hash the check accepts; any other failure is the hash error, and then some stored user with that email has a hash the check rejects; with unique emails it succeeds exactly when the check accepts that user's hash |
| `Users.DB.UpdateUser` | internal/database/users.go:87-108 | an absent ID fails with `ErrNotExist` and changes nothing; a present one gets both email and hash replaced while keeping ID and Red flag; all other records and the key set are unchanged |
| `Users.UpdateCanDuplicateEmail` | internal/database/users.go:93-100 | without a uniqueness check, the map `UpdateUser` leaves (email and hash replaced) can hold two users with one email |
| `Users.DB.UpgradeChirpyRed` | internal/database/users.go:110-132 | an absent ID fails with `ErrNotExist` and changes nothing; a present one gets its Red flag set and nothing else changes; on an already-Red user the call changes nothing (idempotent) |
| `Users.DuplicateSignupAnswers500` | handlers/users.go:64-72 | the duplicate-email error `CreateUser` returns is answered with 500, not with the 409 reserved for `ErrAlreadyExists` |
| `Users.ConflictError` | internal/database/users.go:49-51 | the corrected duplicate-email error: the same message, wrapping `ErrAlreadyExists` |
| `Users.CorrectedDuplicateSignupAnswers409` | handlers/users.go:66-68 | with the wrapped error, a duplicate sign-up is answered with 409 |
| `Text.Fields` | handlers/chirps.go:198 | every field `strings.Fields` returns is non-empty and free of white space |
| `Text.FieldsOfSpaced` | handlers/chirps.go:198 | words separated by any runs of white space, the inner runs non-empty and the outer ones possibly empty, are exactly the fields of the string |
| `Text.FieldsSeparate` | handlers/chirps.go:198 | every string is its fields separated by such runs of white space; with `FieldsOfSpaced`, this pins `strings.Fields` down completely |
| `Text.FieldsOfJoin` | handlers/chirps.go:198-207 | splitting words joined by single spaces gives the same words back |
| `Chirps.CleanBody` | handlers/chirps.go:191-207 | the loop that overwrites profane fields returns `Clean(body)`: the censored fields of the body joined by single spaces |
| `Chirps.CensorChangesExactlyProfane` | handlers/chirps.go:192-204 | a word is changed exactly when its lower-case form is "kerfuffle", "sharbert" or "fornax", and then it becomes "****" |
| `Chirps.CensorExamples` | handlers/chirps.go:192-204 | "Sharbert!" and "fornaxes" are kept; "SHARBERT", "Kerfuffle", "fornax" and "Kerfuffle" spelt with a Kelvin sign are replaced |
| `Chirps.CleanFields` | handlers/chirps.go:198-207 | the cleaned body has as many fields as the body, and field i is "****" when field i of the body lower-cases to a listed word and is that field unchanged otherwise |
| `Chirps.CleanIsCanonical` | handlers/chirps.go:207 | the cleaned body is its fields joined by single spaces: no runs of white space, none at either end |
| `Chirps.CleanCollapsesSpace` | handlers/chirps.go:198-207 | however the words of a body are separated, by runs of any white space and with any white space at either end, the cleaned body is the censored words joined by single spaces |
| `Chirps.CleanExample` | handlers/chirps.go:191-207 | " a\t\tKerfuffle  b " is cleaned to "a **** b" |
| `Chirps.CleanIdempotent` | handlers/chirps.go:191-207 | cleaning a cleaned body changes nothing |
| `Chirps.Utf8LengthBounds` | handlers/chirps.go:68 | the byte length of a body is between its rune count and four times that |
| `Chirps.BodyLimitInRunes` | handlers/chirps.go:63-71 | every non-empty body of at most 35 runes is accepted; no body of more than 140 runes is |
| `Chirps.PostChirp` | handlers/chirps.go:31-86 | 201 exactly when the token is present and valid, its subject parses, the body decodes, is non-empty and has at most 140 bytes; then the table maps `newId` to a chirp with the cleaned body and the caller as author, and gains exactly that key when `newId` was unused; every other outcome leaves the table unchanged |
| `Chirps.PostChecksTokenFirst` | handlers/chirps.go:36-46 | a missing or invalid token is answered with 401 whatever the body is |
| `Chirps.PostRejectsBadBody` | handlers/chirps.go:63-71 | an authenticated request with an empty or over-long body is answered with 400 and creates nothing |
| `Chirps.FilterByAuthor` | handlers/chirps.go:105-116 | the loop keeps, in order, exactly the chirps whose author is the one asked for, or all of them for the sentinel -1 |
| `Chirps.KeepCounts` | handlers/chirps.go:105-116 | each chirp occurs in the filtered list as often as in the input when it matches, and not at all otherwise |
| `Chirps.KeptExactly` | handlers/chirps.go:95-116 | a list with the filtered multiset holds exactly the input chirps of that author, or all chirps when none or -1 was given |
| `Chirps.SortChirps` | handlers/chirps.go:118-126 | the list is sorted by ID, descending when asked, and is a permutation of what it was |
| `Chirps.ListChirps` | handlers/chirps.go:88-129 | a non-numeric `author_id` gives 400; otherwise 200 with a permutation of the filtered chirps, sorted by ID descending when `sort` is exactly "desc" and ascending for any other value |
| `Chirps.SortedIsStrict` | handlers/chirps.go:120-126 | with distinct IDs the sorted list is strictly ordered |
| `Chirps.SortedListIsUnique` | handlers/chirps.go:118-126 | when chirps that share an ID are equal, two sorted lists of the same chirps are equal |
| `Chirps.ListingIsOrderIndependent` | handlers/chirps.go:95-126 | when chirps that share an ID are equal, as in a table keyed by ID: for two orders of the same chirps, any two lists that `ListChirps` may answer with (sorted, with the multiset of the filtered chirps) are equal |
| `Chirps.ListInEitherOrder` | handlers/chirps.go:88-129 | when chirps that share an ID are equal, as in a table keyed by ID: `HandleGetChirps` on two orders of the same chirps answers with the same status and the same list, whatever order `GetChirps` returned |
| `Chirps.DeleteChirp` | handlers/chirps.go:147-189 | 200 exactly when the ID parses, the token is valid, its subject parses, the chirp exists and its author is the caller; then exactly that chirp is removed; every other outcome leaves the table unchanged |
| `Chirps.OnlyAuthorDeletes` | handlers/chirps.go:172-182 | whenever the table changes, the caller is the chirp's author and only that chirp is gone |
| `Chirps.DeleteCheckOrder` | handlers/chirps.go:172-180 | for an authenticated caller, a missing chirp gives 404 before any author check; another author's chirp gives 403 and stays |
| `Chirps.DeleteParsesIdFirst` | handlers/chirps.go:148-154 | an unparsable ID gives 400 whatever the token is |
| `Webhooks.Decide` | handlers/webhooks.go:30-53 | refuses exactly when the key is missing or differs from the configured one; past the key, fails on an undecodable body, ignores every event but "user.upgraded", and upgrades the body's user for that event |
| `Webhooks.KeyCheckedBeforeBody` | handlers/webhooks.go:30-42 | a missing or wrong key is refused whatever the body holds |
| `Webhooks.HandleWebhook` | handlers/webhooks.go:22-64 | 401, 500 or 200 with no change for a refused key, an undecodable body or another event; for "user.upgraded" gives 404 with no change for an unknown user, else 200 with that user's Red flag set and nothing else changed |
| `Webhooks.ReplayWebhook` | handlers/webhooks.go:53-63 | delivering the same event twice answers the same both times and leaves the state of a single delivery |

## Left out

- Loading and writing the JSON document (`loadDB`, `writeDB`), its file format and any locking are not part of this model. Every operation works on the in-memory map, which models the one load-modify-write cycle of a call; a failed read or write, and the 500 the handlers answer with for it, are not modelled.
- `Users.DB.CreateUser`: says that old records are unchanged only when the keys are exactly 1..n. On a document with a gap, `len(Users)+1` can be an ID in use, and the assignment then overwrites that user (see `Users.IdOfCountCanBeTaken`).
- The race between concurrent `CreateUser` calls that compute the same `len+1` is not modelled. Concurrency is not modelled.
- The `internal/auth` package (bcrypt hashing, JWT signing and checking, header parsing) is not part of this model. Its results are inputs.
- The refresh-token store and its revocation set are not part of this model. The code issues refresh tokens as JWTs (handlers/login.go:76).
- handlers/login.go, the rest of handlers/users.go, main.go and handlers/config.go are not modelled: auth calls, JSON shaping, routing and constructors. From handlers/users.go, only the error-to-status mapping of lines 65-72 is modelled, for the finding below.
- `HandleGetChirp` is not modelled: a lookup that answers 400 or 404.
- The chirp database functions (`CreateChirp`, `GetChirps`, `GetChirp`, `DeleteChirp`) are outside the modelled files. They are modelled only as map insertion, a given sequence, map lookup and key removal. A store error from them (500) is not modelled.
- `Chirps.SortChirps`: `sort.Slice` is modelled by an insertion sort with the same contract, sorted and a permutation. Its own algorithm (pattern-defeating quicksort) and its instability are not modelled. Instability matters only when two chirps share an ID.
- `Text.ToLower`: maps only the runes whose simple lower case is an ASCII letter: A-Z, the Kelvin sign and capital I with dot above. Every other rune is kept as is. This gives the same answer as Go's `strings.ToLower` whenever the result is compared with the ASCII word list, which is the only use here.
- The `println` debug output in `HandlePostChirp` is not modelled, and neither is the logging in `respondWithError`.

## Findings

| source | as written | input that shows it | evidently intended | confidence | as-written member | corrected member |
|---|---|---|---|---|---|---|
| internal/database/users.go:49-51 | a duplicate email fails with `fmt.Errorf("user with Email %s is already exists", email)`, which does not wrap `ErrAlreadyExists`; `HandlePostUser` (handlers/users.go:66) tests `errors.Is(err, database.ErrAlreadyExists)` and otherwise answers 500 "Couldn't create user" | a second sign-up with an email already registered | the error wraps or is `ErrAlreadyExists`, so the sign-up is answered with 409 "User already exists" | high; not executed | `Users.DuplicateSignupAnswers500` (with `Users.DB.CreateUser`) | `Users.ConflictError` (with `Users.CorrectedDuplicateSignupAnswers409`) |
