/**
 * The service's endpoints: the token guard, registration and login, the
 * bucket list resource and the item resource. Every check is a function of the
 * tables; every endpoint that writes is a method on the session, proved to
 * answer what the first failing check dictates and to leave the tables
 * unchanged whenever it aborts.
 *
 * The principal the guard binds is passed to the handlers explicitly. Route
 * ids are `Option<nat>`: the integer converter of the routes only yields
 * non-negative ids, and an id counts as supplied when it is present and not 0
 * (`if bucketlist_id:`).
 */
module Resources {
  import opened Options
  import opened Text
  import opened Query
  import opened Models
  import opened Utils
  import opened Pagination

  const TOKEN_REQUIRED := "Token is required in the Request Header!"
  const TOKEN_INVALID := "You have supplied an Invalid TOKEN"
  const TOKEN_EXPIRED := "TOKEN Supplied Expired"
  const USERNAME_EXISTS := "username already exists"
  const BAD_CREDENTIALS := "You supplied an invalid username or password username/password must have a minimum length of 4/8"
  const LOGIN_FAILED := "Invalid username/password"
  const BUCKETLIST_METHOD := "method not supported for the URL"
  const BUCKETLIST_PUT_METHOD := "method not supported for the URL."
  const BUCKETLIST_URL := "invalid url"
  const BUCKETLIST_NAME_SHORT := "Bucketlist name must be at least 8 characters"
  const BUCKETLIST_NAME_EXISTS := "Bucket List name already exists"
  const NO_BUCKETLISTS := "You don't have any bucketlist yet!"
  const ITEM_METHOD := "The method is not supported for the requested URL"
  const ITEM_URL := "invalid URL check bucketlist id or item id"
  const ITEM_NAME_SHORT := "item name required and must have at least 10 characters"
  const ITEM_NAME_EXISTS := "item name already exists"
  const ITEM_PUT_URL := "invalid bucketlist/item id in URL"
  const ITEM_NAME_INVALID := "invalid item name"
  const ITEM_DELETE_URL := "Invalid URL"
  const ITEM_DELETED := "Successfully deleted Item"

  function BucketListDeleted(id: int): string {
    "successfully deleted bucketlist " + IntToString(id)
  }

  function BucketListMissing(id: int): string {
    "Bucketlist " + IntToString(id) + " does not exist"
  }

  function NoMatch(q: string): string {
    "no bucketlist containing " + q
  }

  /** `if bucketlist_id:` / `if item_id:` — present and not 0. */
  predicate Supplied(id: Option<nat>) {
    id.Some? && id.value != 0
  }

  // ---------------------------------------------------------------- the token guard

  /** The guard either binds a principal or answers the request itself. */
  datatype Guarded = Bound(principal: User) | Denied(response: Response)

  /** What `verify_token` answers once `verify_auth_token` has raised or returned. */
  function Guard(header: Option<string>, v: Verified): Guarded {
    if header.None? || header.value == "" then Denied(Abort(401, TOKEN_REQUIRED))
    else match v
      case RaisesValueError => Denied(Abort(401, TOKEN_INVALID))
      case Returns(None) => Denied(Abort(401, TOKEN_EXPIRED))
      case Returns(Some(u)) => Bound(u)
  }

  /**
   * `verify_token` as written: `header` is the request's `Token` header,
   * `decoded` what the serializer makes of it. A missing or empty header ends
   * the request with 401 "required"; a bad signature and an expired token both
   * with 401 "Invalid TOKEN"; a token naming no user with 401 "Expired";
   * otherwise the user the token names becomes the principal.
   */
  function VerifyToken(header: Option<string>, decoded: Decoded, users: seq<User>): (g: Guarded)
    ensures g.Denied? ==> StatusOf(g.response) == 401
    ensures g == Denied(Abort(401, TOKEN_REQUIRED)) <==> header.None? || header.value == ""
    ensures g == Denied(Abort(401, TOKEN_INVALID)) <==>
              header.Some? && header.value != "" && (decoded.BadSignature? || decoded.SignatureExpired?)
    ensures g == Denied(Abort(401, TOKEN_EXPIRED)) <==>
              header.Some? && header.value != "" && decoded.Loaded? && forall u :: u in users ==> u.id != decoded.payload.id
    ensures g.Bound? <==>
              header.Some? && header.value != "" && decoded.Loaded? && exists u :: u in users && u.id == decoded.payload.id
    ensures g.Bound? ==> g.principal in users && g.principal.id == decoded.payload.id
  {
    Guard(header, VerifyAuthToken(decoded, users))
  }

  /**
   * `verify_token` over `verify_auth_token` as intended: an expired token is
   * answered with 401 "TOKEN Supplied Expired", and everything else as before.
   */
  function VerifyTokenIntended(header: Option<string>, decoded: Decoded, users: seq<User>): (g: Guarded)
    ensures g == Denied(Abort(401, TOKEN_INVALID)) <==> header.Some? && header.value != "" && decoded.BadSignature?
    ensures g == Denied(Abort(401, TOKEN_EXPIRED)) <==>
              header.Some? && header.value != "" &&
              (decoded.SignatureExpired? || (decoded.Loaded? && forall u :: u in users ==> u.id != decoded.payload.id))
    ensures !decoded.SignatureExpired? || header.None? || header.value == "" ==> g == VerifyToken(header, decoded, users)
  {
    Guard(header, VerifyAuthTokenIntended(decoded, users))
  }

  /** An expired token is reported as invalid, never as expired; the intended guard reports it as expired. */
  lemma ExpiredTokenReportedInvalid(header: string, users: seq<User>)
    requires header != ""
    ensures VerifyToken(Some(header), SignatureExpired, users) == Denied(Abort(401, TOKEN_INVALID))
    ensures VerifyToken(Some(header), SignatureExpired, users) != Denied(Abort(401, TOKEN_EXPIRED))
    ensures VerifyTokenIntended(Some(header), SignatureExpired, users) == Denied(Abort(401, TOKEN_EXPIRED))
  {
  }

  /** A token issued to a stored user, presented unexpired and untampered, binds exactly that user. */
  lemma IssuedTokenBindsOwner(users: seq<User>, user: User, expiration: int, header: string)
    requires IdsAscending(users, UserId) && user in users && header != ""
    ensures VerifyToken(Some(header), Loaded(GenerateAuthToken(user, expiration).payload), users) == Bound(user)
  {
    var g := VerifyToken(Some(header), Loaded(GenerateAuthToken(user, expiration).payload), users);
    var i :| 0 <= i < |users| && users[i] == user;
    var j :| 0 <= j < |users| && users[j] == g.principal;
    AscendingUnique(users, UserId, i, j);
  }

  // ---------------------------------------------------------------- registration and login

  function HasUsername(name: string): User -> bool {
    (u: User) => u.username == name
  }

  /** `__check_user_exists` / `__get_user`: the user stored under the normal form of `username`. */
  function UserNamed(users: seq<User>, username: string): (r: Option<User>)
    ensures r.Some? <==> exists u :: u in users && u.username == Normalize(username)
    ensures r.Some? ==> r.value in users && r.value.username == Normalize(username)
  {
    First(users, HasUsername(Normalize(username)))
  }

  /** `__validate_username`: more than 4 characters once stripped. */
  predicate UsernameValid(username: string) {
    |Strip(username)| > 4
  }

  /** `__validate_password`: more than 7 characters once stripped. */
  predicate PasswordValid(password: string) {
    |Strip(password)| > 7
  }

  /**
   * `__validate_data`: the abort registration ends with, if any. The existence
   * check comes first, so a taken username is reported as taken whatever the
   * lengths.
   */
  function ValidateRegistration(users: seq<User>, username: string, password: string): (r: Option<Response>)
    ensures r == Some(Abort(400, USERNAME_EXISTS)) <==> exists u :: u in users && u.username == Normalize(username)
    ensures r == Some(Abort(400, BAD_CREDENTIALS)) <==>
              (forall u :: u in users ==> u.username != Normalize(username)) &&
              !(UsernameValid(username) && PasswordValid(password))
    ensures r.None? <==>
              (forall u :: u in users ==> u.username != Normalize(username)) &&
              UsernameValid(username) && PasswordValid(password)
  {
    if UserNamed(users, username).Some? then Some(Abort(400, USERNAME_EXISTS))
    else if !(UsernameValid(username) && PasswordValid(password)) then Some(Abort(400, BAD_CREDENTIALS))
    else None
  }

  /**
   * Once a username is stored, registering any spelling of it that differs
   * only in letter case and surrounding whitespace is refused as taken.
   */
  lemma RegistrationRejectsVariants(users: seq<User>, stored: string, spelling: string, pre: string, post: string, password: string)
    requires exists u :: u in users && u.username == Normalize(stored)
    requires Fold(spelling) == Fold(stored)
    requires forall i :: 0 <= i < |pre| ==> IsSpace(pre[i])
    requires forall i :: 0 <= i < |post| ==> IsSpace(post[i])
    ensures ValidateRegistration(users, pre + spelling + post, password) == Some(Abort(400, USERNAME_EXISTS))
  {
    NormalizeIgnoresCaseAndPadding(stored, spelling, pre, post);
  }

  /**
   * `UserRegAPI.post`: after the field contract, the checks of
   * `__validate_data`; then the user is stored under `username.title().strip()`,
   * which is the same normal form the existence check looked for.
   */
  method Register(s: Session, username: Arg<string>, password: Arg<string>, commitOk: bool) returns (r: Response)
    requires s.Valid()
    modifies s
    ensures s.Valid()
    ensures !UserRegLoginField(username, password) ==> r == LibraryError(422) && s.State() == old(s.State())
    ensures UserRegLoginField(username, password) &&
            ValidateRegistration(old(s.users), username.value, password.value).Some? ==>
              r == ValidateRegistration(old(s.users), username.value, password.value).value &&
              s.State() == old(s.State())
    ensures r.Reply? <==>
              UserRegLoginField(username, password) &&
              ValidateRegistration(old(s.users), username.value, password.value).None? && commitOk
    ensures r.Reply? ==>
              var u := User(NextId(old(s.users), UserId), Normalize(username.value));
              r == Reply(201, Text(UserAsDict(u))) && s.State() == old(s.State()).(users := old(s.users) + [u])
    ensures UserRegLoginField(username, password) &&
            ValidateRegistration(old(s.users), username.value, password.value).None? && !commitOk ==>
              r == Abort(400, SAVE_FAILED) && s.State() == old(s.State())
  {
    if !UserRegLoginField(username, password) {
      return LibraryError(422);
    }
    var check := ValidateRegistration(s.users, username.value, password.value);
    if check.Some? {
      return check.value;
    }
    TitleStripCommute(username.value);
    var saved := s.Save(UserRow(NewUser(Strip(Title(username.value)))), "", commitOk);
    if saved.Aborted? {
      return saved.response;
    }
    r := Reply(201, Text(UserAsDict(saved.row.user)));
  }

  /**
   * `UserLoginAPI.post`: a token for the user stored under the normal form of
   * the username, or 404. The password is required by the field contract but
   * never compared with anything.
   */
  function Login(users: seq<User>, username: Arg<string>, password: Arg<string>): (r: Response)
    ensures !UserRegLoginField(username, password) ==> r == LibraryError(422)
    ensures r.Reply? <==>
              UserRegLoginField(username, password) && exists u :: u in users && u.username == Normalize(username.value)
    ensures r.Reply? ==>
              r.status == 200 && r.body.Token? && r.body.token.expiresIn == DEFAULT_EXPIRATION &&
              exists u :: u in users && u.username == Normalize(username.value) && r.body.token.payload == TokenPayload(u.id)
    ensures UserRegLoginField(username, password) && !r.Reply? ==> r == Abort(404, LOGIN_FAILED)
  {
    if !UserRegLoginField(username, password) then LibraryError(422)
    else match UserNamed(users, username.value)
      case None => Abort(404, LOGIN_FAILED)
      case Some(u) => Reply(200, Token(GenerateAuthToken(u, DEFAULT_EXPIRATION)))
  }

  /** Login answers the same whatever password accompanies the username. */
  lemma LoginIgnoresPassword(users: seq<User>, username: Arg<string>, p1: string, p2: string)
    requires |p1| >= 8 && |p2| >= 8
    ensures Login(users, username, Given(p1)) == Login(users, username, Given(p2))
  {
  }

  /**
   * After a registration succeeds, logging in with any spelling of the name
   * that differs in case and padding yields a token for the new user's id,
   * and presenting that token binds the new user.
   */
  lemma LoginAfterRegister(users: seq<User>, username: string, password: string, spelling: string, pre: string, post: string, other: string, header: string)
    requires ValidTables(Tables(users, [], []))
    requires ValidateRegistration(users, username, password).None?
    requires Fold(spelling) == Fold(username)
    requires forall i :: 0 <= i < |pre| ==> IsSpace(pre[i])
    requires forall i :: 0 <= i < |post| ==> IsSpace(post[i])
    requires |pre + spelling + post| >= 4 && |other| >= 8 && header != ""
    ensures var u := User(NextId(users, UserId), Normalize(username));
            var r := Login(users + [u], Given(pre + spelling + post), Given(other));
            && r == Reply(200, Token(GenerateAuthToken(u, DEFAULT_EXPIRATION)))
            && VerifyToken(Some(header), Loaded(r.body.token.payload), users + [u]) == Bound(u)
  {
    var u := User(NextId(users, UserId), Normalize(username));
    var all := users + [u];
    NormalizeIgnoresCaseAndPadding(username, spelling, pre, post);
    AppendedUserNamed(users, u, pre + spelling + post);
    AppendNextId(users, UserId, u);
    IssuedTokenBindsOwner(all, u, DEFAULT_EXPIRATION, header);
  }

  /** A user appended under a name no stored user has is the one any spelling of that name finds. */
  lemma AppendedUserNamed(users: seq<User>, u: User, name: string)
    requires Normalize(name) == u.username
    requires forall x :: x in users ==> x.username != u.username
    ensures UserNamed(users + [u], name) == Some(u)
  {
    FirstAppended(users, u, HasUsername(u.username));
  }

  // ---------------------------------------------------------------- bucket lists

  function HasName(name: string): BucketList -> bool {
    (b: BucketList) => b.name == name
  }

  function CreatedBy(owner: int): BucketList -> bool {
    (b: BucketList) => b.createdBy == owner
  }

  /** The filter `created_by == owner AND id == id`. */
  function OwnedWithId(owner: int, id: int): BucketList -> bool {
    (b: BucketList) => b.createdBy == owner && b.id == id
  }

  function NotOwnedWithId(owner: int, id: int): BucketList -> bool {
    (b: BucketList) => !(b.createdBy == owner && b.id == id)
  }

  /** `__check_bucketlist_name`: more than 9 characters once stripped. */
  predicate BucketListNameValid(name: string) {
    |Strip(name)| > 9
  }

  /**
   * `__bucketlist_name_exists`: the first stored bucket list carrying the
   * normal form of `name`, whoever owns it, is the only one consulted; the name
   * counts as taken when that one belongs to `owner`.
   */
  predicate BucketListNameTaken(bucketlists: seq<BucketList>, name: string, owner: int) {
    match First(bucketlists, HasName(Normalize(name)))
    case None => false
    case Some(b) => b.createdBy == owner
  }

  /** The name is taken exactly when the earliest row with that name is the owner's. */
  lemma BucketListNameTakenIff(bucketlists: seq<BucketList>, name: string, owner: int)
    ensures BucketListNameTaken(bucketlists, name, owner) <==>
              exists k :: 0 <= k < |bucketlists| && bucketlists[k].name == Normalize(name) &&
                          bucketlists[k].createdBy == owner &&
                          forall j :: 0 <= j < k ==> bucketlists[j].name != Normalize(name)
  {
    var p := HasName(Normalize(name));
    var r := FindFirst(bucketlists, p);
    if r.Some? {
      forall k | 0 <= k < |bucketlists| && bucketlists[k].name == Normalize(name) &&
                 forall j :: 0 <= j < k ==> bucketlists[j].name != Normalize(name)
        ensures k == r.value
      {
        assert p(bucketlists[k]) && p(bucketlists[r.value]);
      }
    }
  }

  /**
   * The first-row rule hides duplicates: when another owner's bucket list with
   * the same name comes first, `owner` may store the name a second time.
   */
  lemma EarlierForeignNameHidesDuplicate(bucketlists: seq<BucketList>, name: string, owner: int, k: nat)
    requires k < |bucketlists| && bucketlists[k].name == Normalize(name) && bucketlists[k].createdBy != owner
    requires forall j :: 0 <= j < k ==> bucketlists[j].name != Normalize(name)
    ensures !BucketListNameTaken(bucketlists, name, owner)
  {
    FindFirstAt(bucketlists, HasName(Normalize(name)), k);
  }

  /**
   * A name new to the table, once stored by one owner, is refused to that
   * owner a second time in any spelling that normalises alike, and stays free
   * for every other owner.
   */
  lemma SecondCreateRejectedOnlyForSameOwner(bucketlists: seq<BucketList>, b: BucketList, name: string, owner: int)
    requires forall x :: x in bucketlists ==> x.name != b.name
    requires Normalize(name) == b.name
    ensures BucketListNameTaken(bucketlists + [b], name, owner) <==> b.createdBy == owner
  {
    var p := HasName(Normalize(name));
    assert forall x :: x in bucketlists ==> !p(x);
    FirstAppended(bucketlists, b, p);
  }

  /** `__check_valid_bucketlist`: the abort a new bucket list name ends with, if any. */
  function CheckValidBucketList(bucketlists: seq<BucketList>, name: string, owner: int): (r: Option<Response>)
    ensures r == Some(Abort(400, BUCKETLIST_NAME_SHORT)) <==> !BucketListNameValid(name)
    ensures r == Some(Abort(400, BUCKETLIST_NAME_EXISTS)) <==> BucketListNameValid(name) && BucketListNameTaken(bucketlists, name, owner)
    ensures r.None? <==> BucketListNameValid(name) && !BucketListNameTaken(bucketlists, name, owner)
  {
    if !BucketListNameValid(name) then Some(Abort(400, BUCKETLIST_NAME_SHORT))
    else if BucketListNameTaken(bucketlists, name, owner) then Some(Abort(400, BUCKETLIST_NAME_EXISTS))
    else None
  }

  /**
   * Renaming a bucket list to its own current name is refused as a duplicate
   * when it is the first row with that name.
   */
  lemma RenameToOwnNameRejected(bucketlists: seq<BucketList>, k: nat, name: string)
    requires k < |bucketlists| && Normalize(name) == bucketlists[k].name && BucketListNameValid(name)
    requires forall j :: 0 <= j < k ==> bucketlists[j].name != bucketlists[k].name
    ensures CheckValidBucketList(bucketlists, name, bucketlists[k].createdBy) == Some(Abort(400, BUCKETLIST_NAME_EXISTS))
  {
    FindFirstAt(bucketlists, HasName(Normalize(name)), k);
  }

  /**
   * `check_bucket_list_with_user`, and the test PUT makes: the bucket list
   * with primary key `id` exists and belongs to `owner`.
   */
  predicate OwnsBucketList(bucketlists: seq<BucketList>, id: int, owner: int) {
    match BucketListById(bucketlists, id)
    case None => false
    case Some(b) => b.createdBy == owner
  }

  /** With ids unique, ownership means a row with that id and owner exists. */
  lemma OwnsBucketListIff(bucketlists: seq<BucketList>, id: int, owner: int)
    requires IdsAscending(bucketlists, BucketListId)
    ensures OwnsBucketList(bucketlists, id, owner) <==> exists b :: b in bucketlists && b.id == id && b.createdBy == owner
  {
    var r := BucketListById(bucketlists, id);
    if b :| b in bucketlists && b.id == id && b.createdBy == owner {
      var i :| 0 <= i < |bucketlists| && bucketlists[i] == b;
      var j :| 0 <= j < |bucketlists| && bucketlists[j] == r.value;
      AscendingUnique(bucketlists, BucketListId, i, j);
    }
  }

  /** `g.user.bucketlists`: the principal's bucket lists in table order. */
  function OwnedBy(bucketlists: seq<BucketList>, owner: int): seq<BucketList> {
    Filter(bucketlists, CreatedBy(owner))
  }

  function NameMatches(q: string): BucketList -> bool {
    (b: BucketList) => ContainsIgnoringCase(b.name, Title(q))
  }

  /** `__get_bucketlists_with_name`: names containing `q.title()`, compared without regard to case. */
  function SearchByName(bucketlists: seq<BucketList>, q: string): seq<BucketList> {
    Filter(bucketlists, NameMatches(q))
  }

  /** Title-casing the search term changes nothing, since the comparison folds case anyway. */
  lemma SearchIgnoresTitleCase(b: BucketList, q: string)
    ensures NameMatches(q)(b) <==> ContainsIgnoringCase(b.name, q)
  {
    FoldTitle(q);
  }

  lemma SearchIgnoresTitleCaseAll(q: string)
    ensures forall b :: NameMatches(q)(b) <==> ContainsIgnoringCase(b.name, q)
  {
    FoldTitle(q);
  }

  /** Whether a search term was given: `q` present and non-empty. */
  predicate Searching(q: Arg<string>) {
    q.Given? && q.value != ""
  }

  /** The bucket lists a listing pages through: the principal's, narrowed by the search term when there is one. */
  function Shown(bucketlists: seq<BucketList>, owner: int, q: Arg<string>): (r: seq<BucketList>)
    ensures forall b :: b in r <==>
              b in bucketlists && b.createdBy == owner && (Searching(q) ==> ContainsIgnoringCase(b.name, q.value))
  {
    var owned := OwnedBy(bucketlists, owner);
    if Searching(q) then
      SearchIgnoresTitleCaseAll(q.value);
      SearchByName(owned, q.value)
    else owned
  }

  /**
   * The listing branch of `BucketListAPI.get` as written: `if not bucketlists`
   * tests a query object, which is always true, so a search without match
   * answers 200 with an empty page instead of the intended 404.
   */
  function ListAsWritten(bucketlists: seq<BucketList>, items: seq<Item>, owner: int, limit: Arg<int>, page: Arg<int>, q: Arg<string>, urlRoot: string): (r: Response)
    ensures r == Abort(404, NO_BUCKETLISTS) <==> forall b :: b in bucketlists ==> b.createdBy != owner
    ensures r.Reply? <==> exists b :: b in bucketlists && b.createdBy == owner
    ensures r.Reply? ==>
              r == Reply(200, Doc(PageDoc(Paginate(Shown(bucketlists, owner, q), items, ArgOr(page, DEFAULT_PAGE),
                                                   EffectiveLimit(ArgOr(limit, DEFAULT_LIMIT)), urlRoot))))
  {
    var owned := OwnedBy(bucketlists, owner);
    if owned == [] then Abort(404, NO_BUCKETLISTS)
    else
      assert owned[0] in owned;
      var p := Paginate(Shown(bucketlists, owner, q), items, ArgOr(page, DEFAULT_PAGE), EffectiveLimit(ArgOr(limit, DEFAULT_LIMIT)), urlRoot);
      Reply(200, Doc(PageDoc(p)))
  }

  /** A search that matches none of the principal's bucket lists gets an empty page, never the 404 written for it. */
  lemma SearchMissAsWritten(bucketlists: seq<BucketList>, items: seq<Item>, owner: int, limit: Arg<int>, page: Arg<int>, q: string, urlRoot: string, b: BucketList)
    requires b in bucketlists && b.createdBy == owner && q != ""
    requires forall x :: x in bucketlists && x.createdBy == owner ==> !ContainsIgnoringCase(x.name, q)
    ensures ListAsWritten(bucketlists, items, owner, limit, page, Given(q), urlRoot).Reply?
    ensures ListAsWritten(bucketlists, items, owner, limit, page, Given(q), urlRoot) != Abort(404, NoMatch(q))
  {
    assert b in OwnedBy(bucketlists, owner);
  }

  /**
   * The listing branch of `BucketListAPI.get` as intended, beside the handler
   * rather than inside it: 404 when the
   * principal owns nothing, checked before any search; 404 naming the term
   * when a search matches nothing; otherwise the requested page.
   */
  function List(bucketlists: seq<BucketList>, items: seq<Item>, owner: int, limit: Arg<int>, page: Arg<int>, q: Arg<string>, urlRoot: string): (r: Response)
    ensures r == Abort(404, NO_BUCKETLISTS) <==> forall b :: b in bucketlists ==> b.createdBy != owner
    ensures r.Abort? && r != Abort(404, NO_BUCKETLISTS) ==>
              Searching(q) && r == Abort(404, NoMatch(q.value)) && Shown(bucketlists, owner, q) == [] &&
              exists b :: b in bucketlists && b.createdBy == owner
    ensures r.Reply? ==>
              && Shown(bucketlists, owner, q) != []
              && r == Reply(200, Doc(PageDoc(Paginate(Shown(bucketlists, owner, q), items, ArgOr(page, DEFAULT_PAGE),
                                                      EffectiveLimit(ArgOr(limit, DEFAULT_LIMIT)), urlRoot))))
  {
    var owned := OwnedBy(bucketlists, owner);
    if owned == [] then Abort(404, NO_BUCKETLISTS)
    else
      assert owned[0] in owned;
      var shown := Shown(bucketlists, owner, q);
      if shown == [] then
        assert Searching(q);
        assert NoMatch(q.value)[0] != NO_BUCKETLISTS[0];
        Abort(404, NoMatch(q.value))
      else
        Reply(200, Doc(PageDoc(Paginate(shown, items, ArgOr(page, DEFAULT_PAGE), EffectiveLimit(ArgOr(limit, DEFAULT_LIMIT)), urlRoot))))
  }

  /**
   * `BucketListAPI.get`: with an id, the bucket list with that id and owner or
   * the framework's 404, so absence and another owner's row look alike;
   * without one, the listing as written (`ListAsWritten`).
   */
  function GetBucketList(bucketlists: seq<BucketList>, items: seq<Item>, owner: int, bucketlistId: Option<nat>,
                         limit: Arg<int>, page: Arg<int>, q: Arg<string>, urlRoot: string): (r: Response)
    ensures !LimitField(limit, page, q) ==> r == LibraryError(422)
    ensures LimitField(limit, page, q) && Supplied(bucketlistId) ==>
              (r.Reply? <==> exists b :: b in bucketlists && b.id == bucketlistId.value && b.createdBy == owner)
    ensures LimitField(limit, page, q) && Supplied(bucketlistId) && r.Reply? ==>
              exists b :: b in bucketlists && b.id == bucketlistId.value && b.createdBy == owner &&
                          r == Reply(200, Doc(BucketListAsDict(b, items)))
    ensures LimitField(limit, page, q) && Supplied(bucketlistId) && !r.Reply? ==> r == LibraryError(404)
    ensures LimitField(limit, page, q) && !Supplied(bucketlistId) ==> r == ListAsWritten(bucketlists, items, owner, limit, page, q, urlRoot)
  {
    if !LimitField(limit, page, q) then LibraryError(422)
    else if Supplied(bucketlistId) then
      match First(bucketlists, OwnedWithId(owner, bucketlistId.value))
      case None => LibraryError(404)
      case Some(b) => Reply(200, Doc(BucketListAsDict(b, items)))
    else ListAsWritten(bucketlists, items, owner, limit, page, q, urlRoot)
  }

  /**
   * `BucketListAPI.post`: 405 on a singleton URL, then the name checks, then
   * the normalised name is saved as a new bucket list of the principal.
   */
  method PostBucketList(s: Session, principal: User, bucketlistId: Option<nat>, name: Arg<string>, now: Stamp, commitOk: bool)
    returns (r: Response)
    requires s.Valid()
    modifies s
    ensures s.Valid()
    ensures !NameField(name) ==> r == LibraryError(422) && s.State() == old(s.State())
    ensures NameField(name) && Supplied(bucketlistId) ==> r == Abort(405, BUCKETLIST_METHOD) && s.State() == old(s.State())
    ensures NameField(name) && !Supplied(bucketlistId) && CheckValidBucketList(old(s.bucketlists), name.value, principal.id).Some? ==>
              r == CheckValidBucketList(old(s.bucketlists), name.value, principal.id).value && s.State() == old(s.State())
    ensures r.Reply? <==>
              NameField(name) && !Supplied(bucketlistId) &&
              CheckValidBucketList(old(s.bucketlists), name.value, principal.id).None? && commitOk
    ensures r.Reply? ==>
              var b := BucketList(NextId(old(s.bucketlists), BucketListId), Normalize(name.value), principal.id, now, now);
              r == Reply(201, Doc(BucketListAsDict(b, s.items))) &&
              s.State() == old(s.State()).(bucketlists := old(s.bucketlists) + [b])
    ensures NameField(name) && !Supplied(bucketlistId) &&
            CheckValidBucketList(old(s.bucketlists), name.value, principal.id).None? && !commitOk ==>
              r == Abort(400, SAVE_FAILED) && s.State() == old(s.State())
  {
    if !NameField(name) {
      return LibraryError(422);
    }
    if Supplied(bucketlistId) {
      return Abort(405, BUCKETLIST_METHOD);
    }
    var check := CheckValidBucketList(s.bucketlists, name.value, principal.id);
    if check.Some? {
      return check.value;
    }
    var saved := s.Save(BucketListRow(NewBucketList(Normalize(name.value), principal.id)), now, commitOk);
    if saved.Aborted? {
      return saved.response;
    }
    r := Reply(201, Doc(BucketListAsDict(saved.row.bucketlist, s.items)));
  }

  /** `__update_bucketlist`: the principal's row with that id renamed, its modification time set; every other row kept. */
  function Renamed(bucketlists: seq<BucketList>, owner: int, id: int, name: string, now: Stamp): seq<BucketList> {
    UpdateWhere(bucketlists, OwnedWithId(owner, id), (b: BucketList) => b.(name := name, dateModified := now))
  }

  /** After a rename the row is found under its id, renamed, and every other row is as it was. */
  lemma RenamedRow(bucketlists: seq<BucketList>, owner: int, id: int, name: string, now: Stamp)
    requires IdsAscending(bucketlists, BucketListId) && OwnsBucketList(bucketlists, id, owner)
    ensures IdsAscending(Renamed(bucketlists, owner, id, name, now), BucketListId)
    ensures BucketListById(Renamed(bucketlists, owner, id, name, now), id) ==
              Some(BucketListById(bucketlists, id).value.(name := name, dateModified := now))
    ensures forall k :: 0 <= k < |bucketlists| && bucketlists[k].id != id ==>
              Renamed(bucketlists, owner, id, name, now)[k] == bucketlists[k]
  {
    var f := (b: BucketList) => b.(name := name, dateModified := now);
    var rows := Renamed(bucketlists, owner, id, name, now);
    UpdateAscending(bucketlists, BucketListId, OwnedWithId(owner, id), f);
    var k := FindFirst(bucketlists, (b: BucketList) => b.id == id).value;
    FindFirstAt(rows, (b: BucketList) => b.id == id, k);
  }

  /**
   * `BucketListAPI.put`: 405 without an id, 404 unless the row exists and is
   * the principal's, then the name checks of POST; then the row is renamed to
   * the normalised name and rendered.
   */
  method PutBucketList(s: Session, principal: User, bucketlistId: Option<nat>, name: Arg<string>, now: Stamp)
    returns (r: Response)
    requires s.Valid()
    modifies s
    ensures s.Valid()
    ensures !NameField(name) ==> r == LibraryError(422) && s.State() == old(s.State())
    ensures NameField(name) && !Supplied(bucketlistId) ==> r == Abort(405, BUCKETLIST_PUT_METHOD) && s.State() == old(s.State())
    ensures NameField(name) && Supplied(bucketlistId) && !OwnsBucketList(old(s.bucketlists), bucketlistId.value, principal.id) ==>
              r == Abort(404, BUCKETLIST_URL) && s.State() == old(s.State())
    ensures NameField(name) && Supplied(bucketlistId) && OwnsBucketList(old(s.bucketlists), bucketlistId.value, principal.id) &&
            CheckValidBucketList(old(s.bucketlists), name.value, principal.id).Some? ==>
              r == CheckValidBucketList(old(s.bucketlists), name.value, principal.id).value && s.State() == old(s.State())
    ensures r.Reply? <==>
              NameField(name) && Supplied(bucketlistId) && OwnsBucketList(old(s.bucketlists), bucketlistId.value, principal.id) &&
              CheckValidBucketList(old(s.bucketlists), name.value, principal.id).None?
    ensures r.Reply? ==>
              var b := BucketListById(old(s.bucketlists), bucketlistId.value).value.(name := Normalize(name.value), dateModified := now);
              r == Reply(200, Doc(BucketListAsDict(b, s.items))) &&
              s.State() == old(s.State()).(bucketlists := Renamed(old(s.bucketlists), principal.id, bucketlistId.value, Normalize(name.value), now))
  {
    if !NameField(name) {
      return LibraryError(422);
    }
    if !Supplied(bucketlistId) {
      return Abort(405, BUCKETLIST_PUT_METHOD);
    }
    var id := bucketlistId.value;
    if !OwnsBucketList(s.bucketlists, id, principal.id) {
      return Abort(404, BUCKETLIST_URL);
    }
    var check := CheckValidBucketList(s.bucketlists, name.value, principal.id);
    if check.Some? {
      return check.value;
    }
    var newName := Normalize(name.value);
    RenamedRow(s.bucketlists, principal.id, id, newName, now);
    s.bucketlists := Renamed(s.bucketlists, principal.id, id, newName, now);
    r := Reply(200, Doc(BucketListAsDict(BucketListById(s.bucketlists, id).value, s.items)));
  }

  /**
   * `BucketListAPI.delete`: 405 without an id; otherwise the principal's row
   * with that id is deleted, 404 when there is none. The delete is a bulk
   * query, which bypasses the declared cascade: the items are left in place.
   */
  method DeleteBucketList(s: Session, principal: User, bucketlistId: Option<nat>) returns (r: Response)
    requires s.Valid()
    modifies s
    ensures s.Valid()
    ensures !Supplied(bucketlistId) ==> r == Abort(405, BUCKETLIST_METHOD) && s.State() == old(s.State())
    ensures Supplied(bucketlistId) ==>
              s.State() == old(s.State()).(bucketlists := Filter(old(s.bucketlists), NotOwnedWithId(principal.id, bucketlistId.value)))
    ensures Supplied(bucketlistId) ==>
              (r == Reply(200, Text(BucketListDeleted(bucketlistId.value))) <==>
               exists b :: b in old(s.bucketlists) && b.id == bucketlistId.value && b.createdBy == principal.id)
    ensures Supplied(bucketlistId) && r != Reply(200, Text(BucketListDeleted(bucketlistId.value))) ==>
              r == Abort(404, BucketListMissing(bucketlistId.value)) && s.State() == old(s.State())
  {
    if !Supplied(bucketlistId) {
      return Abort(405, BUCKETLIST_METHOD);
    }
    var id := bucketlistId.value;
    var deleted := Filter(s.bucketlists, OwnedWithId(principal.id, id));
    FilterAscending(s.bucketlists, BucketListId, NotOwnedWithId(principal.id, id));
    var kept := Filter(s.bucketlists, NotOwnedWithId(principal.id, id));
    if deleted == [] {
      assert kept == s.bucketlists by { FilterNone(s.bucketlists, principal.id, id); }
    }
    s.bucketlists := kept;
    if |deleted| > 0 {
      assert deleted[0] in deleted;
      r := Reply(200, Text(BucketListDeleted(id)));
    } else {
      r := Abort(404, BucketListMissing(id));
    }
  }

  /** A filter every row passes keeps the table as it is. */
  lemma {:induction false} FilterNone(bucketlists: seq<BucketList>, owner: int, id: int)
    requires forall b :: b in bucketlists ==> !(b.createdBy == owner && b.id == id)
    ensures Filter(bucketlists, NotOwnedWithId(owner, id)) == bucketlists
  {
    if bucketlists != [] {
      FilterNone(bucketlists[1..], owner, id);
    }
  }

  /**
   * The bulk delete leaves a bucket list's items behind, and SQLite numbers a
   * new row one above the largest remaining id: when the newest bucket list is
   * deleted, the next one created takes its id and shows its items.
   */
  lemma OrphansReappear(bucketlists: seq<BucketList>, items: seq<Item>, item: Item, owner: int, name: string, now: Stamp)
    requires IdsAscending(bucketlists, BucketListId) && bucketlists != []
    requires bucketlists[|bucketlists| - 1].createdBy == owner
    requires NextId(bucketlists[..|bucketlists| - 1], BucketListId) == bucketlists[|bucketlists| - 1].id
    requires item in items && item.bucketlistId == bucketlists[|bucketlists| - 1].id
    ensures var last := bucketlists[|bucketlists| - 1];
            var kept := Filter(bucketlists, NotOwnedWithId(owner, last.id));
            var created := Assigned(Tables([], kept, items), BucketListRow(NewBucketList(name, owner)), now).bucketlist;
            created.id == last.id && ItemAsDict(item) in ItemDicts(ItemsOf(items, created.id))
  {
    var last := bucketlists[|bucketlists| - 1];
    DeleteNewest(bucketlists, owner);
    ChildrenRendered(items, last.id);
  }

  /** Deleting the newest bucket list leaves the rows before it. */
  lemma DeleteNewest(bucketlists: seq<BucketList>, owner: int)
    requires IdsAscending(bucketlists, BucketListId) && bucketlists != []
    requires bucketlists[|bucketlists| - 1].createdBy == owner
    ensures Filter(bucketlists, NotOwnedWithId(owner, bucketlists[|bucketlists| - 1].id)) == bucketlists[..|bucketlists| - 1]
  {
    var n := |bucketlists| - 1;
    var front := bucketlists[..n];
    var last := bucketlists[n];
    var p := NotOwnedWithId(owner, last.id);
    assert bucketlists == front + [last];
    FilterAppend(front, [last], p);
    LastFiltered(last, p);
    OlderKept(bucketlists, owner);
    FilterNone(front, owner, last.id);
  }

  lemma LastFiltered(last: BucketList, p: BucketList -> bool)
    requires !p(last)
    ensures Filter([last], p) == []
  {
    assert [last][1..] == [];
  }

  lemma OlderKept(bucketlists: seq<BucketList>, owner: int)
    requires IdsAscending(bucketlists, BucketListId) && bucketlists != []
    ensures forall b :: b in bucketlists[..|bucketlists| - 1] ==>
              !(b.createdBy == owner && b.id == bucketlists[|bucketlists| - 1].id)
  {
    var n := |bucketlists| - 1;
    forall j | 0 <= j < n ensures bucketlists[j].id < bucketlists[n].id {
      assert BucketListId(bucketlists[j]) < BucketListId(bucketlists[n]);
    }
  }

  // ---------------------------------------------------------------- items

  function HasItemName(name: string): Item -> bool {
    (i: Item) => i.name == name
  }

  function HasItemId(id: int): Item -> bool {
    (i: Item) => i.id == id
  }

  function NotItemId(id: int): Item -> bool {
    (i: Item) => i.id != id
  }

  /** `check_item_name`: a name that is given, non-empty and more than 10 characters once stripped. */
  predicate ItemNameValid(name: Option<string>) {
    name.Some? && name.value != "" && |Strip(name.value)| > 10
  }

  /** `check_item_id_with_bucketlist`: the item with primary key `itemId` exists and belongs to that bucket list. */
  predicate ItemInBucketList(items: seq<Item>, itemId: int, bucketlistId: int) {
    match ItemById(items, itemId)
    case None => false
    case Some(i) => i.bucketlistId == bucketlistId
  }

  /** What the item duplicate check can come to: free, taken, or a crash on an item whose bucket list is gone. */
  datatype NameCheck = Free | Taken | Crashes

  /**
   * `check_item_name_with_user`: the first item anywhere carrying the normal
   * form of the name is the only one consulted; the name is taken when that
   * item's bucket list belongs to `owner`, whichever of the owner's bucket lists
   * it is. When that bucket list no longer exists the lookup of its owner fails.
   */
  function CheckItemNameWithUser(bucketlists: seq<BucketList>, items: seq<Item>, name: Option<string>, owner: int): NameCheck {
    if name.None? || name.value == "" then Free
    else match First(items, HasItemName(Normalize(name.value)))
      case None => Free
      case Some(i) =>
        match BucketListById(bucketlists, i.bucketlistId)
        case None => Crashes
        case Some(b) => if b.createdBy == owner then Taken else Free
  }

  /**
   * A name is taken exactly when the earliest item with it lies in one of the
   * owner's bucket lists; it crashes exactly when that item's bucket list is gone.
   */
  lemma ItemNameTakenIff(bucketlists: seq<BucketList>, items: seq<Item>, name: string, owner: int, k: nat)
    requires IdsAscending(bucketlists, BucketListId) && name != ""
    requires k < |items| && items[k].name == Normalize(name)
    requires forall j :: 0 <= j < k ==> items[j].name != Normalize(name)
    ensures CheckItemNameWithUser(bucketlists, items, Some(name), owner) == Taken <==>
              OwnsBucketList(bucketlists, items[k].bucketlistId, owner)
    ensures CheckItemNameWithUser(bucketlists, items, Some(name), owner) == Crashes <==>
              forall b :: b in bucketlists ==> b.id != items[k].bucketlistId
    ensures OwnsBucketList(bucketlists, items[k].bucketlistId, owner) <==>
              exists b :: b in bucketlists && b.id == items[k].bucketlistId && b.createdBy == owner
  {
    FindFirstAt(items, HasItemName(Normalize(name)), k);
    OwnsBucketListIff(bucketlists, items[k].bucketlistId, owner);
  }

  /** `__check_valid_item`: the abort an item POST ends with, if any, in the order the checks run. */
  function CheckValidItem(bucketlists: seq<BucketList>, items: seq<Item>, bucketlistId: int, name: string, owner: int): (r: Option<Response>)
    ensures r == Some(Abort(404, ITEM_URL)) <==> !OwnsBucketList(bucketlists, bucketlistId, owner)
    ensures r == Some(Abort(400, ITEM_NAME_SHORT)) <==> OwnsBucketList(bucketlists, bucketlistId, owner) && !ItemNameValid(Some(name))
    ensures r == Some(Abort(400, ITEM_NAME_EXISTS)) <==>
              OwnsBucketList(bucketlists, bucketlistId, owner) && ItemNameValid(Some(name)) &&
              CheckItemNameWithUser(bucketlists, items, Some(name), owner) == Taken
    ensures r == Some(LibraryError(500)) <==>
              OwnsBucketList(bucketlists, bucketlistId, owner) && ItemNameValid(Some(name)) &&
              CheckItemNameWithUser(bucketlists, items, Some(name), owner) == Crashes
    ensures r.None? <==>
              OwnsBucketList(bucketlists, bucketlistId, owner) && ItemNameValid(Some(name)) &&
              CheckItemNameWithUser(bucketlists, items, Some(name), owner) == Free
  {
    if !OwnsBucketList(bucketlists, bucketlistId, owner) then Some(Abort(404, ITEM_URL))
    else if !ItemNameValid(Some(name)) then Some(Abort(400, ITEM_NAME_SHORT))
    else match CheckItemNameWithUser(bucketlists, items, Some(name), owner)
      case Taken => Some(Abort(400, ITEM_NAME_EXISTS))
      case Crashes => Some(LibraryError(500))
      case Free => None
  }

  /**
   * An item name used in one of the principal's bucket lists is refused in
   * every other bucket list of the principal.
   */
  lemma ItemDuplicateAcrossBucketLists(bucketlists: seq<BucketList>, items: seq<Item>, k: nat, target: int, name: string, owner: int)
    requires IdsAscending(bucketlists, BucketListId)
    requires k < |items| && items[k].name == Normalize(name)
    requires forall j :: 0 <= j < k ==> items[j].name != Normalize(name)
    requires exists b :: b in bucketlists && b.id == items[k].bucketlistId && b.createdBy == owner
    requires OwnsBucketList(bucketlists, target, owner) && ItemNameValid(Some(name))
    ensures CheckValidItem(bucketlists, items, target, name, owner) == Some(Abort(400, ITEM_NAME_EXISTS))
  {
    ItemNameTakenIff(bucketlists, items, name, owner, k);
  }

  /**
   * `BucketListItemAPI.post`: 405 on an item URL, then the checks of
   * `__check_valid_item`; then the normalised name is saved as a new item of
   * the bucket list, not done.
   */
  method PostItem(s: Session, principal: User, bucketlistId: nat, itemId: Option<nat>, name: Arg<string>, now: Stamp, commitOk: bool)
    returns (r: Response)
    requires s.Valid()
    modifies s
    ensures s.Valid()
    ensures !NameField(name) ==> r == LibraryError(422) && s.State() == old(s.State())
    ensures NameField(name) && Supplied(itemId) ==> r == Abort(405, ITEM_METHOD) && s.State() == old(s.State())
    ensures NameField(name) && !Supplied(itemId) &&
            CheckValidItem(old(s.bucketlists), old(s.items), bucketlistId, name.value, principal.id).Some? ==>
              r == CheckValidItem(old(s.bucketlists), old(s.items), bucketlistId, name.value, principal.id).value &&
              s.State() == old(s.State())
    ensures r.Reply? <==>
              NameField(name) && !Supplied(itemId) &&
              CheckValidItem(old(s.bucketlists), old(s.items), bucketlistId, name.value, principal.id).None? && commitOk
    ensures r.Reply? ==>
              var i := Item(NextId(old(s.items), ItemId), Normalize(name.value), false, bucketlistId, now, now);
              r == Reply(201, Doc(ItemAsDict(i))) && s.State() == old(s.State()).(items := old(s.items) + [i])
    ensures NameField(name) && !Supplied(itemId) &&
            CheckValidItem(old(s.bucketlists), old(s.items), bucketlistId, name.value, principal.id).None? && !commitOk ==>
              r == Abort(400, SAVE_FAILED) && s.State() == old(s.State())
  {
    if !NameField(name) {
      return LibraryError(422);
    }
    if Supplied(itemId) {
      return Abort(405, ITEM_METHOD);
    }
    var check := CheckValidItem(s.bucketlists, s.items, bucketlistId, name.value, principal.id);
    if check.Some? {
      return check.value;
    }
    var saved := s.Save(ItemRow(NewItem(Normalize(name.value), bucketlistId)), now, commitOk);
    if saved.Aborted? {
      return saved.response;
    }
    r := Reply(201, Doc(ItemAsDict(saved.row.item)));
  }

  /**
   * `update_item`: a given non-empty name replaces the item's name in normal
   * form; a true `done` marks it done. Each update that runs sets the
   * modification time. Nothing here can clear `done`.
   */
  function UpdatedItem(item: Item, name: Option<string>, done: Arg<bool>, now: Stamp): (r: Item)
    ensures r.id == item.id && r.bucketlistId == item.bucketlistId && r.dateCreated == item.dateCreated
    ensures r.name == if name.Some? && name.value != "" then Normalize(name.value) else item.name
    ensures r.done <==> item.done || done == Given(true)
    ensures r.dateModified == if (name.Some? && name.value != "") || done == Given(true) then now else item.dateModified
  {
    var named := if name.Some? && name.value != "" then item.(name := Normalize(name.value), dateModified := now) else item;
    if done == Given(true) then named.(done := true, dateModified := now) else named
  }

  /** The row update `update_item` applies to the item it names. */
  function ItemUpdate(name: Option<string>, done: Arg<bool>, now: Stamp): Item -> Item {
    (i: Item) => UpdatedItem(i, name, done, now)
  }

  /** Once done, an item stays done through any sequence of updates. */
  lemma {:induction false} DoneIsFinal(item: Item, updates: seq<(Option<string>, Arg<bool>, Stamp)>)
    requires item.done
    ensures ApplyUpdates(item, updates).done
    decreases |updates|
  {
    if updates != [] {
      var (name, done, now) := updates[0];
      DoneIsFinal(UpdatedItem(item, name, done, now), updates[1..]);
    }
  }

  /** A sequence of updates applied in turn. */
  function ApplyUpdates(item: Item, updates: seq<(Option<string>, Arg<bool>, Stamp)>): Item
    decreases |updates|
  {
    if updates == [] then item
    else ApplyUpdates(UpdatedItem(item, updates[0].0, updates[0].1, updates[0].2), updates[1..])
  }

  /** The item's name as PUT supplies it: `args.get('name')`. */
  function GivenName(name: Arg<string>): Option<string> {
    if name.Given? then Some(name.value) else None
  }

  /** The URL check of item PUT and DELETE: the bucket list is the principal's and the item is in it. */
  predicate ItemUrlValid(bucketlists: seq<BucketList>, items: seq<Item>, bucketlistId: int, itemId: int, owner: int) {
    OwnsBucketList(bucketlists, bucketlistId, owner) && ItemInBucketList(items, itemId, bucketlistId)
  }

  /** After an update by id the item is found under its id, updated, and every other item is as it was. */
  lemma UpdatedRow(items: seq<Item>, itemId: int, name: Option<string>, done: Arg<bool>, now: Stamp)
    requires IdsAscending(items, ItemId) && ItemById(items, itemId).Some?
    ensures IdsAscending(UpdateWhere(items, HasItemId(itemId), ItemUpdate(name, done, now)), ItemId)
    ensures ItemById(UpdateWhere(items, HasItemId(itemId), ItemUpdate(name, done, now)), itemId) ==
              Some(UpdatedItem(ItemById(items, itemId).value, name, done, now))
  {
    var f := ItemUpdate(name, done, now);
    var rows := UpdateWhere(items, HasItemId(itemId), f);
    UpdateAscending(items, ItemId, HasItemId(itemId), f);
    var k := FindFirst(items, (i: Item) => i.id == itemId).value;
    FindFirstAt(rows, (i: Item) => i.id == itemId, k);
  }

  /**
   * The checks item PUT makes once the URL is valid, in order: the duplicate
   * check first (on the name as given, before its validity), then the
   * validity of a name that was given.
   */
  function CheckItemUpdate(bucketlists: seq<BucketList>, items: seq<Item>, name: Option<string>, owner: int): (r: Option<Response>)
    ensures r == Some(Abort(400, ITEM_NAME_EXISTS)) <==> CheckItemNameWithUser(bucketlists, items, name, owner) == Taken
    ensures r == Some(LibraryError(500)) <==> CheckItemNameWithUser(bucketlists, items, name, owner) == Crashes
    ensures r == Some(Abort(400, ITEM_NAME_INVALID)) <==>
              CheckItemNameWithUser(bucketlists, items, name, owner) == Free && name.Some? && !ItemNameValid(name)
    ensures r.None? <==>
              CheckItemNameWithUser(bucketlists, items, name, owner) == Free && (name.Some? ==> ItemNameValid(name))
  {
    match CheckItemNameWithUser(bucketlists, items, name, owner)
    case Taken => Some(Abort(400, ITEM_NAME_EXISTS))
    case Crashes => Some(LibraryError(500))
    case Free => if name.Some? && !ItemNameValid(name) then Some(Abort(400, ITEM_NAME_INVALID)) else None
  }

  /**
   * `BucketListItemAPI.put`: 405 without an item id, 404 unless the URL names
   * an item of one of the principal's bucket lists, then the checks of
   * `CheckItemUpdate`; then the item is updated and rendered with 201.
   */
  method PutItem(s: Session, principal: User, bucketlistId: nat, itemId: Option<nat>, name: Arg<string>, done: Arg<bool>, now: Stamp)
    returns (r: Response)
    requires s.Valid()
    modifies s
    ensures s.Valid()
    ensures !NameDoneField(name, done) ==> r == LibraryError(422) && s.State() == old(s.State())
    ensures NameDoneField(name, done) && !Supplied(itemId) ==> r == Abort(405, ITEM_METHOD) && s.State() == old(s.State())
    ensures NameDoneField(name, done) && Supplied(itemId) &&
            !ItemUrlValid(old(s.bucketlists), old(s.items), bucketlistId, itemId.value, principal.id) ==>
              r == Abort(404, ITEM_PUT_URL) && s.State() == old(s.State())
    ensures NameDoneField(name, done) && Supplied(itemId) &&
            ItemUrlValid(old(s.bucketlists), old(s.items), bucketlistId, itemId.value, principal.id) &&
            CheckItemUpdate(old(s.bucketlists), old(s.items), GivenName(name), principal.id).Some? ==>
              r == CheckItemUpdate(old(s.bucketlists), old(s.items), GivenName(name), principal.id).value &&
              s.State() == old(s.State())
    ensures r.Reply? <==>
              NameDoneField(name, done) && Supplied(itemId) &&
              ItemUrlValid(old(s.bucketlists), old(s.items), bucketlistId, itemId.value, principal.id) &&
              CheckItemUpdate(old(s.bucketlists), old(s.items), GivenName(name), principal.id).None?
    ensures r.Reply? ==>
              && r == Reply(201, Doc(ItemAsDict(UpdatedItem(ItemById(old(s.items), itemId.value).value, GivenName(name), done, now))))
              && s.State() == old(s.State()).(items := UpdateWhere(old(s.items), HasItemId(itemId.value), ItemUpdate(GivenName(name), done, now)))
  {
    if !NameDoneField(name, done) {
      return LibraryError(422);
    }
    if !Supplied(itemId) {
      return Abort(405, ITEM_METHOD);
    }
    var id := itemId.value;
    if !ItemUrlValid(s.bucketlists, s.items, bucketlistId, id, principal.id) {
      return Abort(404, ITEM_PUT_URL);
    }
    var itemName := GivenName(name);
    var check := CheckItemUpdate(s.bucketlists, s.items, itemName, principal.id);
    if check.Some? {
      return check.value;
    }
    var updated := UpdateItem(s, id, itemName, done, now);
    r := Reply(201, Doc(ItemAsDict(updated)));
  }

  /**
   * `update_item`: the item with that id gets a given non-empty name, in
   * normal form, and is marked done when `done` is true; the updated row is
   * what `BucketListItem.query.get(item_id)` then returns.
   */
  method UpdateItem(s: Session, itemId: int, name: Option<string>, done: Arg<bool>, now: Stamp) returns (updated: Item)
    requires s.Valid() && ItemById(s.items, itemId).Some?
    modifies s
    ensures s.Valid()
    ensures s.State() == old(s.State()).(items := UpdateWhere(old(s.items), HasItemId(itemId), ItemUpdate(name, done, now)))
    ensures updated == UpdatedItem(ItemById(old(s.items), itemId).value, name, done, now)
    ensures ItemById(s.items, itemId) == Some(updated)
  {
    UpdatedRow(s.items, itemId, name, done, now);
    s.items := UpdateWhere(s.items, HasItemId(itemId), ItemUpdate(name, done, now));
    updated := ItemById(s.items, itemId).value;
  }

  /**
   * `BucketListItemAPI.delete`: 405 without an item id, 404 unless the URL
   * names an item of one of the principal's bucket lists; then that item is
   * deleted and nothing else.
   */
  method DeleteItem(s: Session, principal: User, bucketlistId: nat, itemId: Option<nat>) returns (r: Response)
    requires s.Valid()
    modifies s
    ensures s.Valid()
    ensures !Supplied(itemId) ==> r == Abort(405, ITEM_METHOD) && s.State() == old(s.State())
    ensures Supplied(itemId) && !ItemUrlValid(old(s.bucketlists), old(s.items), bucketlistId, itemId.value, principal.id) ==>
              r == Abort(404, ITEM_DELETE_URL) && s.State() == old(s.State())
    ensures Supplied(itemId) && ItemUrlValid(old(s.bucketlists), old(s.items), bucketlistId, itemId.value, principal.id) ==>
              r == Reply(200, Text(ITEM_DELETED)) &&
              s.State() == old(s.State()).(items := Filter(old(s.items), NotItemId(itemId.value)))
  {
    if !Supplied(itemId) {
      return Abort(405, ITEM_METHOD);
    }
    var id := itemId.value;
    if !ItemUrlValid(s.bucketlists, s.items, bucketlistId, id, principal.id) {
      return Abort(404, ITEM_DELETE_URL);
    }
    FilterAscending(s.items, ItemId, NotItemId(id));
    s.items := Filter(s.items, NotItemId(id));
    r := Reply(200, Text(ITEM_DELETED));
  }

  // ---------------------------------------------------------------- dispatch

  /** A request to one of the routes, with its route ids and its parsed arguments. */
  datatype Request =
    | RegisterRequest(username: Arg<string>, password: Arg<string>)
    | LoginRequest(username: Arg<string>, password: Arg<string>)
    | PostBucketListRequest(bucketlistId: Option<nat>, name: Arg<string>)
    | GetBucketListRequest(bucketlistId: Option<nat>, limit: Arg<int>, page: Arg<int>, q: Arg<string>)
    | PutBucketListRequest(bucketlistId: Option<nat>, name: Arg<string>)
    | DeleteBucketListRequest(bucketlistId: Option<nat>)
    | PostItemRequest(parent: nat, itemId: Option<nat>, name: Arg<string>)
    | PutItemRequest(parent: nat, itemId: Option<nat>, name: Arg<string>, done: Arg<bool>)
    | DeleteItemRequest(parent: nat, itemId: Option<nat>)

  /** The bucket list and item resources sit behind `auth.login_required`; registration and login do not. */
  predicate NeedsToken(req: Request) {
    !(req.RegisterRequest? || req.LoginRequest?)
  }

  /**
   * One request end to end. `header` is the `Token` header and `decoded` what
   * the serializer makes of it; `urlRoot`, `now` and `commitOk` stand for the
   * request's URL root, the database clock and whether the database accepts
   * the commit. The guard runs before any handler, so a request it denies
   * changes nothing; only registration adds users.
   */
  method Serve(s: Session, req: Request, header: Option<string>, decoded: Decoded, urlRoot: string, now: Stamp, commitOk: bool)
    returns (r: Response)
    requires s.Valid()
    modifies s
    ensures s.Valid()
    ensures NeedsToken(req) && VerifyToken(header, decoded, old(s.users)).Denied? ==>
              r == VerifyToken(header, decoded, old(s.users)).response && s.State() == old(s.State())
    ensures !req.RegisterRequest? ==> s.users == old(s.users)
    ensures req.LoginRequest? || req.GetBucketListRequest? ==> s.State() == old(s.State())
  {
    if !NeedsToken(req) {
      if req.RegisterRequest? {
        r := Register(s, req.username, req.password, commitOk);
      } else {
        r := Login(s.users, req.username, req.password);
      }
      return;
    }
    var g := VerifyToken(header, decoded, s.users);
    if g.Denied? {
      return g.response;
    }
    var principal := g.principal;
    match req {
      case PostBucketListRequest(id, name) =>
        r := PostBucketList(s, principal, id, name, now, commitOk);
      case GetBucketListRequest(id, limit, page, q) =>
        r := GetBucketList(s.bucketlists, s.items, principal.id, id, limit, page, q, urlRoot);
      case PutBucketListRequest(id, name) =>
        r := PutBucketList(s, principal, id, name, now);
      case DeleteBucketListRequest(id) =>
        r := DeleteBucketList(s, principal, id);
      case PostItemRequest(parent, itemId, name) =>
        r := PostItem(s, principal, parent, itemId, name, now, commitOk);
      case PutItemRequest(parent, itemId, name, done) =>
        r := PutItem(s, principal, parent, itemId, name, done, now);
      case DeleteItemRequest(parent, itemId) =>
        r := DeleteItem(s, principal, parent, itemId);
    }
  }
}
