# Bucket list API — a Dafny model

The bucket list service is a small REST API. A user registers with a username
and a password, logs in for a signed token, and with that token creates, lists,
searches, pages through, renames and deletes *bucket lists*, and adds, renames,
marks as done and deletes the *items* in them. This project models the core of
that service:

- the request handlers in `bucketlist_api/resources.py`:
  - the token guard;
  - registration and login;
  - the bucket-list resource: create, list with search and paging, get one, rename and delete;
  - the item resource: create, update and delete;
- the three models in `bucketlist_api/models.py`, with their `as_dict`
  renderings and token verification;
- the request field contracts and the `save` helper in `bucketlist_api/utils.py`.

The Dafny modules follow that structure:

| module | file | models |
|---|---|---|
| `Options` | `options.dfy` | the `Option` type |
| `Text` | `text.dfy` | Python's `str.strip`, `str.title`, case-insensitive containment (`ILIKE`), `str(int)` and its inverse |
| `Query` | `query.dfy` | the query shapes the handlers use: `.first()`, filtering, bulk `update`, and SQLite's choice of the next row id |
| `Models` | `models.dfy` | `User`, `BucketList` and `BucketListItem`, their constructors, their `as_dict` output, and token issue and verification |
| `Utils` | `utils.dfy` | the field contracts, the response shapes, the database session and `save` |
| `Pagination` | `pagination.dfy` | the listing's page arithmetic, its page links and its `Bucketlist<id>` labels |
| `Resources` | `resources.dfy` | every handler, the checks they call, and a dispatcher over the routes of `app.py` |

The database is modelled as three tables held by a `Session` object, which the
handlers update in place. Each table is a sequence of rows in rowid order:

- `.first()` without an ordering returns the row stored earliest, so the model
  keeps the order.
- SQLite gives a new row an id one above the largest id present. `NextId`
  models this, and `Session.Save` keeps every table in ascending id order and
  usernames unique.

The handlers follow the code as written, also where it departs from the
service's design. Where the code evidently falls short of its own intent, the
"## Findings" table names two members: the as-written one, which the handlers
use, and a corrected one, proved beside it but not used by them. The lemmas
named below state each difference:

- Login never compares the password (`LoginIgnoresPassword`).
- An expired token is answered 401 "You have supplied an Invalid TOKEN", never
  "TOKEN Supplied Expired" (`ExpiredTokenReportedInvalid`). The "Expired"
  answer comes only for a valid token whose user is not stored.
- A search that matches none of the principal's bucket lists answers 200 with
  an empty page, not 404 (`SearchMissAsWritten`).
- A bucket-list name is rejected as a duplicate only when the *first* stored
  bucket list of that name belongs to the same owner. A foreign bucket list
  stored earlier hides the owner's own duplicate
  (`EarlierForeignNameHidesDuplicate`). Item names follow the same rule.
- Deleting a bucket list is a bulk query, which skips the ORM's cascade: its
  items stay in the table. A bucket list created later under the reused id
  shows them again (`OrphansReappear`).
- The bucket-list name check is `> 9` stripped characters, while its message
  says "at least 8".
- A failed commit answers 400 "Request cannot be handled now".
- An item whose name matches the first-stored item of an orphaned item makes
  the duplicate check dereference a missing bucket list, which the model
  answers as a 500 (`ItemNameTakenIff`, `CheckValidItem`).

Inputs outside the program are parameters:

- the current time `now`;
- whether the database accepts a commit (`commitOk`);
- the outcome of decoding a token header (`Decoded`);
- the URL root of the request.

## Model

| member | source | states |
|---|---|---|
| `Text.Strip` | bucketlist_api/resources.py:58-64 | the result is the input with its leading and trailing whitespace cut off: a slice of the input with only blanks before and after it, empty exactly when the input is all blanks, and otherwise starting and ending with a non-blank |
| `Text.StripIdempotent` | bucketlist_api/resources.py:212-214 | stripping twice is stripping once |
| `Text.StripPadding` | bucketlist_api/resources.py:58-64 | blank padding around a string does not change its stripped form |
| `Text.TitleStripCommute` | bucketlist_api/resources.py:66-75 | `title().strip()` (how registration stores a name) equals `strip().title()` (how lookups search for it) |
| `Text.TitleIdempotent` | bucketlist_api/resources.py:273-277 | title-casing an already title-cased string changes nothing |
| `Text.FoldTitle` | bucketlist_api/resources.py:273-277 | title-casing the search term does not change what a case-insensitive match finds |
| `Text.NormalizeIgnoresCaseAndPadding` | bucketlist_api/resources.py:109-112 | two spellings of a name that differ only in ASCII case and blank padding normalise to the same stored name |
| `Text.NatToStringValue` | bucketlist_api/models.py:95-105 | the decimal digits `str` writes for a natural number read back as that number |
| `Text.IntToStringRoundTrip` | bucketlist_api/models.py:95-105 | `str(n)` parses back to `n` for every integer, negatives included |
| `Text.IntToStringInjective` | bucketlist_api/resources.py:249-251 | distinct integers render as distinct strings |
| `Query.FindFirst` | bucketlist_api/resources.py:216-220 | the index of the earliest row satisfying the filter, with no earlier row satisfying it; none only if no row does |
| `Query.First` | bucketlist_api/resources.py:72-75 | `.first()` returns the earliest row in table order that passes the filter (no row before it passes), and returns nothing exactly when no row passes it |
| `Query.FirstAppended` | bucketlist_api/resources.py:109-112 | a row appended after rows that all fail the filter is the first row found |
| `Query.Filter` | bucketlist_api/resources.py:222-227 | a row is kept exactly when it is in the table and passes the filter |
| `Query.FilterAppend` | bucketlist_api/resources.py:222-227 | filtering distributes over concatenated tables |
| `Query.FilterAscending` | bucketlist_api/resources.py:222-227 | deleting rows by a filter keeps the ids ascending |
| `Query.AppendNextId` | bucketlist_api/utils.py:29-37 | a row stored under the next id is above every existing id and keeps the table ascending |
| `Query.AscendingUnique` | bucketlist_api/models.py:10-24 | in a table with ascending ids, two rows with the same id are the same row |
| `Query.UpdateWhere` | bucketlist_api/resources.py:229-235 | a bulk update rewrites exactly the rows passing the filter and leaves every other row as it was |
| `Query.UpdateAscending` | bucketlist_api/resources.py:384-394 | an update that never rewrites the id keeps the ids ascending |
| `Models.NewUser` | bucketlist_api/models.py:40-42 | a new user carries the username it was given |
| `Models.NewBucketList` | bucketlist_api/models.py:91-93 | a new bucket list carries the given name and owner |
| `Models.NewItem` | bucketlist_api/models.py:116-123 | a new item carries the given name and bucket list and is not done (the column default) |
| `Models.UserAsDict` | bucketlist_api/models.py:70-72 | the greeting followed by the username and one trailing blank |
| `Models.UserAsDictReadBack` | bucketlist_api/models.py:70-72 | the username can be read back out of the greeting |
| `Models.ItemAsDict` | bucketlist_api/models.py:125-128 | an object with the item's columns other than `bucketlist_id`, in column order |
| `Models.ItemAsDictReadBack` | bucketlist_api/models.py:125-128 | `id` parses back to the item's id, `done` reads `True` or `False`, `name` is the name, and no `bucketlist_id` key exists |
| `Models.ItemAsDictInjective` | bucketlist_api/models.py:125-128 | two items render alike exactly when they differ at most in their bucket list |
| `Models.ItemDicts` | bucketlist_api/models.py:97 | one rendering per item, each the item's own `as_dict` |
| `Models.BucketListAsDict` | bucketlist_api/models.py:95-105 | an object with keys `id`, `name`, `items`, `date_created`, `date_modified`, `created_by`, in that order |
| `Models.BucketListAsDictReadBack` | bucketlist_api/models.py:95-105 | `id` and `created_by` parse back to the row's values, `name` is the name, `items` renders the items whose `bucketlist_id` is the row's id |
| `Models.ChildrenRendered` | bucketlist_api/models.py:87-89 | an item's rendering is among a bucket list's items exactly when some item of that bucket list renders so |
| `Models.VerifyAuthToken` | bucketlist_api/models.py:58-68 | raises `ValueError` exactly for a bad signature or an expired token, since the expiry error is a kind of bad-signature error and the first `except` catches it; a loaded token gives the stored user whose id it carries, and one exists exactly when such a user is stored |
| `Models.VerifyAuthTokenIntended` | bucketlist_api/models.py:58-68 | with the two `except` clauses in the intended order: `ValueError` exactly for a bad signature, no user for an expired token, and otherwise the same as the code as written |
| `Utils.ArgOr` | bucketlist_api/resources.py:153-155 | `args.get(key, default)`: the given value when present, otherwise the default |
| `Utils.ContractCountsPadding` | bucketlist_api/utils.py:13-15 | a name padded with blanks to ten characters passes the field contract, although stripping removes the padding |
| `Utils.Assigned` | bucketlist_api/utils.py:29-37 | a stored row takes the next id of its own table and the commit time for both timestamps; the other columns are unchanged |
| `Utils.InsertKeepsValid` | bucketlist_api/models.py:32-33 | storing a row that violates no constraint keeps ids ascending and usernames unique, and gives the row an id above all others |
| `Utils.Session.Save` | bucketlist_api/utils.py:29-37 | the row is stored under its assigned id exactly when the commit succeeds and no username clashes; otherwise 400 "Request cannot be handled now" with the tables as before |
| `Pagination.EffectiveLimit` | bucketlist_api/resources.py:153 | the requested limit, capped at 100 |
| `Pagination.PageCountSpec` | bucketlist_api/resources.py:240-241 | page `p` (counting from 0) lies below the page count exactly when some row starts on it |
| `Pagination.WindowNonEmpty` | bucketlist_api/resources.py:240-241 | a page holds rows exactly when its number is between 1 and the page count |
| `Pagination.WindowsPrefix` | bucketlist_api/resources.py:240-241 | the first `k` pages together are the first `k * limit` rows |
| `Pagination.PagesCoverAll` | bucketlist_api/resources.py:240-241 | all pages together, in order, are the whole listing, each row once |
| `Pagination.QueryRoundTrip` | bucketlist_api/resources.py:242-248 | the query string `limit=<l>&page=<p>` parses back to `l` and `p` |
| `Pagination.PageLinkRoundTrip` | bucketlist_api/resources.py:242-248 | a previous or next link parses back to the limit and page it names |
| `Pagination.LabelInjective` | bucketlist_api/resources.py:249-251 | distinct bucket lists get distinct `Bucketlist<id>` labels |
| `Pagination.WindowAscending` | bucketlist_api/resources.py:249-251 | a page of an ascending listing is ascending |
| `Pagination.PageDataByLabel` | bucketlist_api/resources.py:249-252 | looking up a row's label in the page's data yields that row's `as_dict` |
| `Pagination.PreviousLink` | bucketlist_api/resources.py:242-244 | a previous link exists exactly when the page is above 1, and it names page − 1 at the same limit |
| `Pagination.NextLink` | bucketlist_api/resources.py:245-248 | a next link exists exactly when the following page holds rows, and it names page + 1 at the same limit |
| `Pagination.TwentyFiveByTen` | bucketlist_api/resources.py:237-252 | 25 bucket lists at limit 10 make 3 pages; page 1 has only a next link, and page 3 has only a previous link and 5 entries |
| `Resources.VerifyToken` | bucketlist_api/resources.py:17-29 | 401 "Token is required" exactly when the header is missing or empty; otherwise 401 "Invalid TOKEN" exactly for a bad signature or an expired token; 401 "Expired" exactly for a valid token that names no stored user; otherwise the principal is the stored user the token names |
| `Resources.VerifyTokenIntended` | bucketlist_api/resources.py:17-29 | with the intended `verify_auth_token`: "Invalid TOKEN" exactly for a bad signature; "Expired" exactly for an expired token or one naming no stored user; the same as `VerifyToken` whenever the token has not expired |
| `Resources.ExpiredTokenReportedInvalid` | bucketlist_api/models.py:62-67 | a correctly signed but expired token is refused as "Invalid TOKEN", not "Expired", while the intended guard answers "Expired" |
| `Resources.IssuedTokenBindsOwner` | bucketlist_api/models.py:53-56 | a token issued to a stored user, when presented, binds that user |
| `Resources.UserNamed` | bucketlist_api/resources.py:72-75 | a user is found exactly when one is stored under the stripped, title-cased name, and it is that user |
| `Resources.ValidateRegistration` | bucketlist_api/resources.py:50-64 | 400 "already exists" exactly when the normalised name is stored, checked first; otherwise 400 "invalid" exactly when the stripped username has at most 4 or the stripped password at most 7 characters |
| `Resources.RegistrationRejectsVariants` | bucketlist_api/resources.py:72-75 | once a name is stored, registering any spelling of it that differs in case or padding is refused as existing |
| `Resources.Register` | bucketlist_api/resources.py:40-48 | 422 when the contract fails; the validation error when it applies; otherwise the user is stored under the normalised name and the next id and greeted with 201, or 400 with nothing stored when the commit fails |
| `Resources.Login` | bucketlist_api/resources.py:87-112 | 422 when the contract fails; a token for the stored user of the normalised name, valid for a day, exactly when one exists; otherwise 404 |
| `Resources.LoginIgnoresPassword` | bucketlist_api/resources.py:96-102 | the answer is the same whatever password comes with the username |
| `Resources.LoginAfterRegister` | bucketlist_api/resources.py:66-112 | after a registration, logging in with any case or padding variant of the name yields a token that binds the new user |
| `Resources.AppendedUserNamed` | bucketlist_api/resources.py:72-75 | a user appended under a name no stored user has is the one found for any spelling that normalises to that name |
| `Resources.BucketListNameTakenIff` | bucketlist_api/resources.py:216-220 | the name counts as taken exactly when the first stored bucket list of the normalised name belongs to the principal |
| `Resources.EarlierForeignNameHidesDuplicate` | bucketlist_api/resources.py:216-220 | when another owner's bucket list of that name was stored first, the principal's own duplicate is not detected |
| `Resources.SecondCreateRejectedOnlyForSameOwner` | bucketlist_api/resources.py:216-220 | after a bucket list is stored under a fresh name, that name counts as taken exactly for its owner |
| `Resources.CheckValidBucketList` | bucketlist_api/resources.py:204-214 | 400 "must be at least 8" exactly when the stripped name has at most 9 characters; 400 "already exists" exactly when it is long enough and taken; no error otherwise |
| `Resources.RenameToOwnNameRejected` | bucketlist_api/resources.py:168-179 | renaming the principal's first-stored bucket list of a name to that same name is refused as existing |
| `Resources.OwnsBucketListIff` | bucketlist_api/resources.py:362-366 | the ownership check holds exactly when a stored bucket list has that id and the principal as its owner |
| `Resources.SearchIgnoresTitleCase` | bucketlist_api/resources.py:273-277 | a bucket list matches the search exactly when its name contains the term, ignoring ASCII case |
| `Resources.Shown` | bucketlist_api/resources.py:260-277 | the listed rows are exactly the principal's bucket lists, narrowed to the matching names when a non-empty term is given |
| `Resources.ListAsWritten` | bucketlist_api/resources.py:260-271 | as the code is written: 404 "You don't have any bucketlist yet!" exactly when the principal owns no bucket list; otherwise 200 with the requested page of the shown rows at limit min(limit, 100), even when the search matches nothing |
| `Resources.SearchMissAsWritten` | bucketlist_api/resources.py:264-269 | as written, a search that matches none of the principal's bucket lists answers 200 with an empty page, never 404 |
| `Resources.List` | bucketlist_api/resources.py:144-166 | 404 "no bucketlist yet" exactly when the principal owns none; otherwise 404 naming the term exactly when a search matches nothing; otherwise 200 with the requested page of the shown rows at limit min(limit, 100); this is the listing as intended, not called by the handler |
| `Resources.GetBucketList` | bucketlist_api/resources.py:254-258 | 422 when the contract fails; with an id, the principal's bucket list of that id rendered with 200, or 404 when it is not the principal's; without one, the listing as written (`ListAsWritten`) |
| `Resources.PostBucketList` | bucketlist_api/resources.py:134-142 | 422, 405 with an id, the name check's 400, or the bucket list stored under the normalised name, the principal and the next id, answered with 201 and its `as_dict` |
| `Resources.RenamedRow` | bucketlist_api/resources.py:229-235 | the rename rewrites only the principal's row of that id, to the normalised name and the new time, and keeps ids ascending |
| `Resources.PutBucketList` | bucketlist_api/resources.py:168-184 | 422, 405 without an id, 404 unless the principal owns it, the name check's 400; otherwise only that row is renamed and its new `as_dict` returned with 200 |
| `Resources.DeleteBucketList` | bucketlist_api/resources.py:186-195 | 405 without an id; otherwise the principal's row of that id is removed and every other row kept; 200 exactly when such a row existed, else 404; items are left in place |
| `Resources.OrphansReappear` | bucketlist_api/resources.py:222-227 | after the newest bucket list is deleted, the next one created takes its id and renders its left-behind items |
| `Resources.ItemNameTakenIff` | bucketlist_api/resources.py:375-382 | the item name counts as taken exactly when the first stored item of that name lies in a bucket list of the principal; the check fails with 500 exactly when that bucket list is gone |
| `Resources.CheckValidItem` | bucketlist_api/resources.py:308-316 | 404 exactly when the principal does not own the bucket list; then 400 "at least 10" exactly when the stripped name is too short; then 400 "exists" or 500 as the name check says; no error otherwise |
| `Resources.ItemDuplicateAcrossBucketLists` | bucketlist_api/resources.py:375-382 | an item name is refused in any of the principal's bucket lists once it is first used in one of them |
| `Resources.PostItem` | bucketlist_api/resources.py:296-321 | 422, 405 with an item id, the item check's error, or the item stored under the normalised name, the bucket list and the next id, not done, answered with 201 and its `as_dict` |
| `Resources.UpdatedItem` | bucketlist_api/resources.py:384-394 | a non-empty name replaces the stored name, normalised; `done` can only be set to true, never cleared; the id, the bucket list and the creation time are kept, and the modification time moves to `now` when anything was set |
| `Resources.DoneIsFinal` | bucketlist_api/resources.py:390-393 | once an item is done, no sequence of updates makes it not done |
| `Resources.UpdatedRow` | bucketlist_api/resources.py:384-394 | the update rewrites only the row of that id and keeps ids ascending |
| `Resources.CheckItemUpdate` | bucketlist_api/resources.py:333-338 | 400 "already exists" or 500 as the name check says, checked first; then 400 "invalid item name" exactly when a given name is empty or at most 10 stripped characters |
| `Resources.UpdateItem` | bucketlist_api/resources.py:384-394 | only the item of that id changes, and it becomes its updated form |
| `Resources.PutItem` | bucketlist_api/resources.py:323-340 | 422, 405 without an item id, 404 unless the item is in the principal's bucket list, the update check's error; otherwise the item is updated and its `as_dict` returned with 201 |
| `Resources.DeleteItem` | bucketlist_api/resources.py:342-356 | 405 without an item id, 404 unless the item is in the principal's bucket list; otherwise the item alone is removed and 200 answered |
| `Resources.Serve` | bucketlist_api/app.py:21-29 | a bucket-list or item request with a refused token gets the guard's 401 and changes nothing; only registration adds users; login and reads change nothing |

## Left out

- Password hashing (`User.hash_password`, `User.verify_password`): these are library calls. The model keeps no password, and login never checks one.
- Token signing, encoding and expiry: the outcome of decoding a header is a parameter (`Decoded`), and the issued token is its payload and lifetime.
- The clock: `now` is a parameter, and timestamps are opaque strings. Registration passes an empty stamp, because user timestamps are never rendered.
- Commits outside `save`: the commits after a rename, an item update and a delete are taken to succeed, and their failure (an uncaught 500) is not modelled.
- The argument parser's and the framework's own error texts: these are `LibraryError(code)` carrying only the status. A value that is not a string, integer or boolean is `Malformed`.
- The 400 "Could not update bucketlist" branch of `BucketListAPI.put` (resources.py:183-184) and the 501 branch of `BucketListItemAPI.delete` (resources.py:355-356) are left out. Within one request, the row just found always exists, so neither branch can be reached without a concurrent writer.
- Concurrency between requests: requests are served one at a time.
- `Text.Title`, `Text.Fold`: case mapping covers ASCII letters only; other Unicode cases are not modelled.
- `Resources.SearchIgnoresTitleCase`: `%` and `_` inside the search term are taken literally, whereas `ILIKE` reads them as wildcards.
- `Pagination.Window`: a page below 1 or a limit below 1 gives an empty page. The paginating library may instead correct such values, depending on its version.
- The column length limit (256) is not modelled, because SQLite does not enforce it.
- The home page, the 404 handler and the application set-up in `app.py` are not modelled; only the routes feed `Resources.Serve`.
- `UserRegAPI.save_user` and `UserLoginAPI.generate_auth_token` are one-line wrappers, modelled through what they call.
- The user-to-bucket-list cascade: users are never deleted, so it never runs.

## Findings

| source | as written | input that shows it | evidently intended | confidence | as-written member | corrected member |
|---|---|---|---|---|---|---|
| bucketlist_api/resources.py:264-269 | `if not bucketlists` tests a query object, which is always true, so the "no bucketlist containing q" 404 never fires | a principal who owns one bucket list named "Learn To Dive" searches `q=zzz`: the answer is 200 with an empty page (`SearchMissAsWritten`) | 404 "no bucketlist containing zzz" whenever the search matches none of the principal's bucket lists | high that the branch is dead; not executed | `Resources.ListAsWritten` | `Resources.List` |
| bucketlist_api/models.py:62-67 | `except BadSignature` comes before `except SignatureExpired`, and the expiry error is a subclass of the bad-signature error, so an expired token raises `ValueError` and the `return None` clause never runs | a correctly signed token issued more than 86400 seconds earlier: the guard answers 401 "You have supplied an Invalid TOKEN" (`ExpiredTokenReportedInvalid`) | 401 "TOKEN Supplied Expired" for an expired token | high, from the exception hierarchy of the signing library; not executed | `Resources.VerifyToken` | `Resources.VerifyTokenIntended` |
