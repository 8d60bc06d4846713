# Meme service core, modelled in Dafny

This project models the request-handling core of a small meme-sharing web
service: user accounts with scope-based access control, a meme feed with
likes, image uploads to an object store, and the query schema of the feed.

- **Accounts** (`auth.dfy`, module `Auth`). The users collection is a map
  from username to record, held by the class `UserStore`. The access
  decisions are pure predicates: the `admin` scope overrides everything,
  ownership means the caller's username is the target name, and the
  `user.me` scope governs profile reads and self-deletion. Each route is a
  pure transition function over the map. Every route except login also has
  a method on `UserStore` proved equal to its function. The routes are
  login, registration, creation, profile read, update, hard or soft delete,
  and listing. Login changes no state, so it is a function only.
- **Memes and likes** (`memes.dfy`, module `Memes`). The meme and like
  collections are sequences in storage order, held by the class
  `MemeStore`. The consistency invariant is that identifiers are unique,
  there is at most one like per (user, meme) pair, every like names a
  stored meme, and each meme's counter equals its number of likes. The
  routes are the paged feed, single lookup, liking and upload. Liking and
  upload are each specified by a pure function that keeps the invariant.
- **Identifiers** (`objectids.dfy`, module `ObjectIds`). A path parameter
  becomes a document identifier by parsing 24 hexadecimal digits in either
  letter case. An identifier prints as lower-case hex.
- **Object store** (`minio.dfy`, module `Minio`). This covers POSIX
  `os.path.splitext`, the image check, the presigned-URL helper, and
  `upload_file` against a client class holding one bucket and its objects.
  Store and read failures are a `Fault` parameter naming the step that
  raises.
- **Feed schema** (`filter.dfy`, module `Filter`). This is the `Sorting`
  enumeration and the `MemesFilter` defaults and bounds.
- `outcomes.dfy` holds `Option`, `Result` and the HTTP failures. `text.dfy`
  holds ASCII lower-casing, prefix tests and `rfind`.

The routes signal success by raising an HTTP exception with status 200 or
201. Here every route returns a `Result`: `Ok` holds the success detail,
and `Err` holds the failure with its detail text. Uncaught exceptions from
the database driver (an unparsable identifier, a negative skip or length)
become `ServerError("Internal Server Error")`.

The model relies on these behaviours of libraries outside the repository:
- The MongoDB driver rejects a negative skip, a skip above 2^63-1 (skips
  travel as signed 64-bit integers) and a negative `to_list` length. It
  returns no documents for length 0, as Motor's `to_list` does; the
  model assumes `src.database` wraps Motor.
- `bson.ObjectId` accepts a text of 24 hexadecimal digits, in either case,
  and prints it in lower case. The one exception is listed under
  "Left out".
- The MinIO client refuses an expiry outside 1 second to 7 days with the
  message quoted in `Minio.ExpiryRangeMessage`.

The code behaves as follows, and the model with it:
- The upload stores the whole `{img_url, url_expire}` dictionary in the
  meme's `img_url` field.
- There is no upload size ceiling.
- There is no lazy renewal of expired URLs.
- A user's username can be changed by the update route.

## Model

| member | source | states |
|---|---|---|
| Filter.ParseSorting | src/schemas/filter.py:5-7 | exactly the two values `top` and `new` are members of the enumeration |
| Filter.SortingRoundTrip | src/schemas/filter.py:5-7 | each member's value parses back to that member, and to no other |
| Filter.ValidateFilter | src/schemas/filter.py:10-23 | a filter is accepted iff sort_by is a member, page > 0 and 0 < limit < 101; an accepted filter keeps the given values; each field breaking its bound is reported by name, once, and no other name is |
| Filter.DefaultFilter | src/schemas/filter.py:11-23 | with no fields given, the filter is sort_by = new, page 1, limit 10, and is within bounds |
| Minio.ExtStart | src/minio/minio.py:28 | where splitext cuts the name, never beyond its end; characterised by ExtStartCharacterised |
| Minio.SplitExt | src/minio/minio.py:28 | root and extension as splitext returns them; properties in SplitExtParts and SplitExtJoin |
| Minio.ExtStartCharacterised | src/minio/minio.py:28 | the extension starts at the last dot of the last path component when a non-dot precedes it there; that start is unique |
| Minio.SplitExtParts | src/minio/minio.py:28 | root and extension concatenate to the name; a non-empty extension is a dot followed by no dot or separator, after a root whose last component is not all dots |
| Minio.SplitExtJoin | src/minio/minio.py:28 | splitting such a root joined with an extension returns both parts (round trip) |
| Minio.IsImage | src/minio/minio.py:26-32 | the image check; both directions in ImageNamesAccepted and ImageNamesDecompose |
| Minio.ValidExtensionShape | src/minio/minio.py:27 | each accepted extension, in any letter case, is an extension in the sense of splitext |
| Minio.ImageNamesAccepted | src/minio/minio.py:26-32 | a named root plus .jpg/.jpeg/.png in any case, with an image/ content type, passes the image check |
| Minio.ImageNamesDecompose | src/minio/minio.py:26-32 | conversely, every name that passes is such a root plus such an extension, and its content type starts with image/ |
| Minio.IsImageIgnoresCase | src/minio/minio.py:29 | names equal up to letter case get the same verdict |
| Minio.ExtStartIgnoresCase | src/minio/minio.py:28-29 | names equal up to letter case split at the same place |
| Minio.NoExtensionNeverImage | src/minio/minio.py:28-29 | a name whose split extension is empty is never an image, whatever the content type |
| Minio.NoDotInLastComponentMeansNoExtension | src/minio/minio.py:28 | a name with no dot after its last separator (no dot at all, or `a.d/photo`) has an empty extension |
| Minio.HiddenFileNeverImage | src/minio/minio.py:28-29 | `.png` alone, or as the last component, has no extension and is refused |
| Minio.UpperCaseExtensionAccepted | src/minio/minio.py:29 | `X.PNG` with `image/png` is accepted |
| Minio.MinioClient.GeneratePresignedUrl | src/minio/minio.py:35-44 | a URL for the client's bucket and the object, valid for the duration, iff the duration is within 1 s..7 days and the store does not fail; otherwise the library's range message or the fixed presign message |
| Minio.PresignDefaultsToSevenDays | src/minio/minio.py:35 | without a duration, the URL is valid for 604800 seconds |
| Minio.FileSize | src/minio/minio.py:55 | the size checked for emptiness: the reported size unless it is missing or zero, otherwise the length read; its use is stated by UploadResult |
| Minio.UploadResult | src/minio/minio.py:47-85 | no error message iff a URL dictionary; success iff every step succeeds; each failing step yields its own message (a presign store error the fixed one, any other presign error its own text); on success url_expire = now + 604800 and the URL names the bucket and object |
| Minio.MinioClient.UploadFile | src/minio/minio.py:47-85 | returns UploadResult and never raises; afterwards the bucket exists unless checking it failed; the object is written iff the upload reached the write, even if presigning then fails |
| ObjectIds.Parse | src/routes/memes/memes.py:31 | a path text is an identifier iff it is 24 hex digits; the identifier prints as the text in lower case |
| ObjectIds.ParseStr | src/routes/memes/memes.py:38 | printing an identifier and parsing the text gives the identifier back |
| ObjectIds.ParseIgnoresCase | src/routes/memes/memes.py:31 | spellings equal up to letter case parse to the same identifier |
| Memes.FindMeme | src/routes/memes/memes.py:31 | finds a meme with the identifier, or reports none iff no meme has it |
| Memes.AddLike | src/routes/memes/memes.py:55-70 | the corrected like, keyed by the printed identifier; stated by AddLikeCountsOnce, AddLikeKeepsConsistent and AddLikeIdempotent |
| Memes.AddLikeCountsOnce | src/routes/memes/memes.py:55-70 | with unique identifiers, a first like appends exactly that like and raises exactly that meme's counter, and its like count, by one; other memes and their counts are unchanged |
| Memes.AddLikeKeepsConsistent | src/routes/memes/memes.py:55-70 | liking keeps ids unique, one like per pair, likes naming memes, and counters equal to like counts |
| Memes.AddLikeIdempotent | src/routes/memes/memes.py:55-57 | liking again after a like changes nothing |
| Memes.TwoSpellingsLikeOnce | src/routes/memes/memes.py:48-59 | with the corrected key, a second request through another spelling of the same identifier finds the same meme and the stored like, and changes nothing |
| Memes.LikeWithoutCount | src/routes/memes/memes.py:58-76 | the state after the like is written and the counter increment is not applied |
| Memes.LikeWithoutCountBreaksCounter | src/routes/memes/memes.py:68-76 | from a consistent state, that meme's counter ends one short of its likes, so the collections are inconsistent |
| Memes.RetryAfterFailureChangesNothing | src/routes/memes/memes.py:55-57 | a retry after that failure finds the like and changes nothing, so the counter stays short |
| Memes.AddLikeAsWritten | src/routes/memes/memes.py:55-70 | the like as written, keyed by the raw path text; stated by DoubleLikeAsWritten and AddLikeAsWrittenOnPrintedId |
| Memes.AddLikeAsWrittenOnPrintedId | src/routes/memes/memes.py:55-59 | for the printed identifier as path text, the as-written like equals the corrected one |
| Memes.DoubleLikeAsWritten | src/routes/memes/memes.py:55-59 | as written, two case-spellings of one identifier give the same user two likes of one meme, raise its counter by two and break consistency |
| Memes.TwoSpellingsOfOneId | src/routes/memes/memes.py:48 | two different texts exist that parse to one identifier |
| Memes.ListMemes | src/routes/memes/memes.py:17-21 | page defaults to 1 and limit to 10; a failing listing query is an internal error; a listing never holds more than limit memes |
| Memes.DefaultListing | src/routes/memes/memes.py:17-21 | a request without query parameters gets the first ten memes in storage order, or all of them when there are fewer |
| Memes.ListMemesAccepts | src/routes/memes/memes.py:20-21 | the listing query succeeds iff limit is 0, or limit is positive and page >= 1, and the skip (page-1)*limit is at most 2^63-1 |
| Memes.ListMemesSlice | src/routes/memes/memes.py:20-21 | for page >= 1 and limit >= 1: a skip beyond 2^63-1 is an internal error; otherwise the feed is the storage-order slice from (page-1)*limit, of length min(limit, remaining) |
| Memes.PagesCoverPrefix | src/routes/memes/memes.py:20-21 | consecutive pages together are exactly the first n*limit memes: none lost, none repeated |
| Memes.ObjectName | src/routes/memes/memes.py:100-101 | the fresh name followed by the split extension; stated by UploadInsertsOnSuccessOnly |
| Memes.UploadStep | src/routes/memes/memes.py:88-126 | the upload pipeline on values; stated by the four Upload lemmas and MemeStore.Upload |
| Memes.UploadValidatesFirst | src/routes/memes/memes.py:88-97 | a missing name or type, then a non-image, is refused as a bad request with its message |
| Memes.UploadInsertsOnSuccessOnly | src/routes/memes/memes.py:88-126 | a refused upload inserts nothing; an accepted one passed both checks and appends one meme with the new id, the given title and description, the file's name, the request time, no likes, the uploader as owner and object name = fresh name + extension; likes untouched |
| Memes.UploadReportsStoreFailure | src/routes/memes/memes.py:104-126 | after both checks: a store error with text fails with that text as an internal error; success iff no such error and the new identifier is free; reply and meme carry the store's URL dictionary; an empty error text counts as success without a URL |
| Memes.UploadKeepsConsistent | src/routes/memes/memes.py:111-124 | an upload keeps the collections consistent |
| Memes.MemeStore.GetMemes | src/routes/memes/memes.py:16-25 | with page 1 and limit 10 by default: the driver's failure, or the listed page with each meme's identifier printed as text, element by element |
| Memes.MemeStore.GetMeme | src/routes/memes/memes.py:28-42 | an unparsable id is an internal error; an absent id is not found; otherwise the stored meme unchanged but for its printed id, which parses back to it |
| Memes.MemeStore.UpdateMeme | src/routes/memes/memes.py:45-78 | on any collections: bad or absent id changes nothing; otherwise the collections become AddLike of the old ones, consistent if they were; if the counter increment is not applied, they become LikeWithoutCount of the old ones, the failure is reported, and a consistent state becomes inconsistent |
| Memes.MemeStore.Upload | src/routes/memes/memes.py:81-126 | on any collections: result and collections are UploadStep of the old ones, consistent if they were; the object store is untouched unless both checks pass, and then the object is written iff the upload reached the write and the bucket exists unless checking it failed |
| Auth.MayReadProfile | src/routes/auth/auth.py:166-167 | a profile read is allowed iff the caller is authorized for user.me and is admin or the owner |
| Auth.MayUpdate | src/routes/auth/auth.py:198 | an update is allowed iff the caller is admin or the owner |
| Auth.DeleteDecision | src/routes/auth/auth.py:230-250 | hard delete iff admin; soft delete iff not admin, holding user.me and the owner; refused otherwise |
| Auth.AdminBypassesEverything | src/routes/auth/auth.py:166-230 | an admin may read, update and hard-delete any record |
| Auth.OthersRecordsAreOffLimits | src/routes/auth/auth.py:166-250 | a non-admin may not read, update or delete another user's record |
| Auth.Register | src/routes/auth/auth.py:88-114 | fails iff the name exists, leaving the map as it was; otherwise adds exactly that key, holding the given name, email and full name, the hash of the password, enabled, with the default scopes; other records untouched |
| Auth.RegisterKeepsKeyedByName | src/routes/auth/auth.py:88-114 | registration keeps every record under its own username |
| Auth.RecordOf | src/routes/auth/auth.py:145-147 | the record stored for a form: its fields, with the hash of the password in place of the password; stated by Create and Update |
| Auth.Create | src/routes/auth/auth.py:138-150 | fails iff the name exists, leaving the map as it was; otherwise adds the form's record under its name with the hash of its password; other records untouched |
| Auth.CreateKeepsKeyedByName | src/routes/auth/auth.py:138-150 | creation keeps every record under its own username |
| Auth.ReadProfile | src/routes/auth/auth.py:166-179 | forbidden iff not allowed; not found iff allowed and absent; otherwise the record without its hash |
| Auth.ReadRefusalIgnoresStore | src/routes/auth/auth.py:166-179 | whether a read is forbidden does not depend on the collection |
| Auth.Update | src/routes/auth/auth.py:198-211 | refused callers change nothing; a permitted update of an absent name answers "User updated" and changes nothing; a rename onto another existing name is refused with no change; otherwise the record is replaced by the form's, hash included, under the form's name; no other record changes |
| Auth.UpdateKeepsKeyedByName | src/routes/auth/auth.py:198-208 | an update never leaves two records sharing a username |
| Auth.UpdateOne | src/routes/auth/auth.py:201-208 | the document update keeps the number of documents and leaves documents with other names unchanged |
| Auth.UpdateAsWritten | src/routes/auth/auth.py:198-211 | as written: refused callers change nothing; permitted ones get "User updated" with the same number of documents |
| Auth.RenameOntoExistingDuplicates | src/routes/auth/auth.py:198-208 | as written, renaming onto another user's name leaves two documents with that username |
| Auth.UpdateAsWrittenWithFreeName | src/routes/auth/auth.py:198-208 | when the new name is free or unchanged, the as-written update also keeps usernames unique: the two versions differ only in the reported case |
| Auth.Delete | src/routes/auth/auth.py:229-250 | admin: removes the record, or not found with no change; owner with user.me: record kept but disabled; others refused with no change; no other record changes |
| Auth.DeleteKeepsKeyedByName | src/routes/auth/auth.py:229-250 | a delete keeps every record under its own username |
| Auth.SoftDeleteKeepsRecord | src/routes/auth/auth.py:246-248 | after a self-delete the record stays stored, disabled and otherwise unchanged, with the same set of usernames, and an administrator reads it back disabled |
| Auth.AllUsers | src/routes/auth/auth.py:265-270 | not found iff there are no users; otherwise every user, each without the hash |
| Auth.Login | src/routes/auth/auth.py:47-64 | unauthorized iff the credentials do not authenticate; otherwise a bearer token for that user with the requested scopes, expires = minutes * 60 |
| Auth.LoginGrantsRequestedScopes | src/routes/auth/auth.py:56-58 | the token's scopes are not limited to the account's: a freshly registered account, stored without the admin scope, obtains a token naming admin |
| Auth.UserStore.RegisterUser | src/routes/auth/auth.py:67-114 | result and new map are Register of the old map; records stay keyed by name |
| Auth.UserStore.CreateUser | src/routes/auth/auth.py:117-150 | result and new map are Create of the old map; records stay keyed by name |
| Auth.UserStore.GetUserByUsername | src/routes/auth/auth.py:153-179 | the result is ReadProfile of the map |
| Auth.UserStore.UpdateUser | src/routes/auth/auth.py:182-211 | result and new map are Update of the old map; records stay keyed by name |
| Auth.UserStore.DeleteUser | src/routes/auth/auth.py:214-250 | result and new map are Delete of the old map; records stay keyed by name |
| Auth.UserStore.GetAllUsers | src/routes/auth/auth.py:253-270 | the result is AllUsers of the map |

## Left out

- `src/auth` is not part of this model. This covers password hashing,
  token signing and verification, `authenticate_user`,
  `current_active_user`, `get_user`, and the `UserCreate` and `UserInDB`
  schemas.
  - Hashing is a parameter `hash`.
  - A token is represented by its claims.
  - Authentication is a parameter giving the authenticated username, if
    any.
  - `get_user` is a map lookup.
  - The form is assumed to carry username, password, email, full name,
    disabled and scopes.
- The `Security(..., scopes=[...])` dependency is not modelled. Handlers
  take the caller as a parameter and decide exactly as their own bodies do.
  Whether a requested-scope token such as the one in
  `LoginGrantsRequestedScopes` passes that dependency is decided in
  `src/auth`.
- `src/config` is not part of this model. The token lifetime in minutes and
  the bucket name are parameters.
- `datetime.now()`, `uuid4()` and the identifier the database assigns are
  parameters (`now`, `uuid`, `newId`). Timestamps are integers in seconds.
  An upload reads the clock twice, once for the URL's expiry and once for
  `created_at`; the model uses one `now` for both.
- ObjectIds.Parse refuses a 24-character text with ASCII whitespace
  between digit pairs. The library's hex decoding skips such whitespace
  and accepts the text as a shorter identifier, and what the driver then
  does with it is not modelled.
- Memes.MemeStore.UpdateMeme keys the like by the identifier's printed
  text. This is the correction of the first finding below; the code as
  written is `Memes.AddLikeAsWritten`.
- Auth.UserStore.UpdateUser refuses a rename onto a taken username with
  `Forbidden("User already exists")`. This is the correction of the second
  finding below, and the message is the model's own; the code as written
  is `Auth.UpdateAsWritten`.
- Memes.MemeStore.UpdateMeme does not model a like insert that reports no
  inserted identifier: the driver either inserts or raises. The
  counter-increment outcome is a parameter.
- Memes.MemeStore.Upload does not model the driver refusing an insert other
  than for an identifier already in use.
- The memes and likes are sequences, not maps, because the feed's order is
  storage order.
- `get_all_users` returns a list in storage order. The model returns a map
  keyed by username, so that order is not captured.
- Minio.MinioClient.UploadFile stores the bytes read. A reported size that
  differs from the bytes read, which would make the write fail or truncate
  it, is not modelled beyond the emptiness check.
- URLs are represented by what they grant (bucket, object, expiry), not by
  their signed text.
- Python's `str.lower` is modelled on ASCII letters. The only non-ASCII
  characters it lowers to ASCII are the Kelvin sign and the dotted capital
  I, and neither can change a `.jpg`, `.jpeg` or `.png` verdict.
- `os.path.splitext` is modelled for POSIX paths only.
- Concurrency and races between simultaneous requests are not modelled.
  Each request runs alone.
- Logging, HTTP status codes, response-model filtering and CORS are not
  modelled.
- `download_file`, `src/routes/files/files.py`, `src/routes/posts/posts.py`
  and `src/app.py` are not modelled. They are thin wrappers, a passthrough
  query and process bootstrap.
- Feed sorting by `top`/`new`, renewal of expired URLs, an unlike branch and
  the use of `MemesFilter` by the feed route are absent from the code, so
  they are absent from the model.

## Findings

| source | as written | input that shows it | evidently intended | confidence | as-written member | corrected member |
|---|---|---|---|---|---|---|
| src/routes/memes/memes.py:55-59 | the like is looked up and stored under the identifier text exactly as it appears in the path | one user likes `a00000000000000000000000` and then `A00000000000000000000000`: both find the same meme, neither finds the other's like | one like per user and meme, so the counter rises once | high that the double like occurs; not executed | Memes.DoubleLikeAsWritten | Memes.TwoSpellingsLikeOnce |
| src/routes/auth/auth.py:198-208 | the update sets every form field, the username included, with no check that the new name is free | `alice` updates `alice` with a form whose username is `bob` while `bob` exists | a username cannot be taken twice | medium: it holds only if the users collection has no unique index on username; not executed | Auth.RenameOntoExistingDuplicates | Auth.Update |
