/**
 * The request field contracts the argument parser enforces before a handler
 * runs, the responses a handler produces, and the database session with its
 * `save` rule: add one row and commit, or roll back and abort with 400.
 */
module Utils {
  import opened Options
  import opened Text
  import opened Query
  import opened Models

  // ---------------------------------------------------------------- field contracts

  /**
   * A request argument as the parser sees it: absent, present with a value of
   * the declared type, or present but not of that type (or null).
   */
  datatype Arg<T> = Missing | Given(value: T) | Malformed

  /** `fields.Str(required=True, validate=validate.Length(min))`: the length is that of the raw string. */
  predicate RequiredStr(a: Arg<string>, min: nat) {
    a.Given? && |a.value| >= min
  }

  /** `fields.Str(validate=validate.Length(min))`: may be absent, and is long enough when present. */
  predicate OptionalStr(a: Arg<string>, min: nat) {
    a.Missing? || (a.Given? && |a.value| >= min)
  }

  /** An optional field without a validator: anything of the declared type, or nothing. */
  predicate Optional<T>(a: Arg<T>) {
    !a.Malformed?
  }

  /** `user_reg_login_field`: a username of at least 4 and a password of at least 8 characters, both required. */
  predicate UserRegLoginField(username: Arg<string>, password: Arg<string>) {
    RequiredStr(username, 4) && RequiredStr(password, 8)
  }

  /** `name_field`: a required name of at least 10 characters. */
  predicate NameField(name: Arg<string>) {
    RequiredStr(name, 10)
  }

  /** `name_done_field`: an optional name of at least 10 characters and an optional boolean `done`. */
  predicate NameDoneField(name: Arg<string>, done: Arg<bool>) {
    OptionalStr(name, 10) && Optional(done)
  }

  /** `limit_field`: optional integers `limit` and `page` and an optional string `q`. */
  predicate LimitField(limit: Arg<int>, page: Arg<int>, q: Arg<string>) {
    Optional(limit) && Optional(page) && Optional(q)
  }

  /** `args.get(key, default)`. */
  function ArgOr<T>(a: Arg<T>, default: T): (v: T)
    ensures a.Given? ==> v == a.value
    ensures !a.Given? ==> v == default
  {
    if a.Given? then a.value else default
  }

  /**
   * The contracts measure the raw string, so blank padding counts towards the
   * minimum length although `strip()` later removes it: a name padded out to
   * ten characters passes the contract with its stripped length unchanged.
   */
  lemma ContractCountsPadding(pre: string, s: string, post: string)
    requires forall i :: 0 <= i < |pre| ==> IsSpace(pre[i])
    requires forall i :: 0 <= i < |post| ==> IsSpace(post[i])
    requires |pre| + |s| + |post| >= 10
    ensures NameField(Given(pre + s + post))
    ensures |Strip(pre + s + post)| == |Strip(s)|
  {
    StripPadding(pre, s, post);
  }

  // ---------------------------------------------------------------- responses

  /** A response body: text, a JSON document, or a login token. */
  datatype Body = Text(text: string) | Doc(doc: Json) | Token(token: AuthToken)

  /**
   * What a handler answers: a body with a status, `abort(code, message=...)`,
   * or an error whose text a library writes (the argument parser's 422,
   * `first_or_404`'s 404, the 500 of an uncaught exception).
   */
  datatype Response =
    | Reply(status: int, body: Body)
    | Abort(code: int, message: string)
    | LibraryError(code: int)

  function StatusOf(r: Response): int {
    match r
    case Reply(status, _) => status
    case Abort(code, _) => code
    case LibraryError(code) => code
  }

  const SAVE_FAILED := "Request cannot be handled now"

  // ---------------------------------------------------------------- the session

  /** The three tables at one moment. */
  datatype Tables = Tables(users: seq<User>, bucketlists: seq<BucketList>, items: seq<Item>)

  /** A new row handed to `save`. */
  datatype Row = UserRow(user: User) | BucketListRow(bucketlist: BucketList) | ItemRow(item: Item)

  /** `username` is declared `unique=True`. */
  ghost predicate UsernamesUnique(users: seq<User>) {
    forall i, j :: 0 <= i < j < |users| ==> users[i].username != users[j].username
  }

  /** What the database guarantees of the tables: ascending row ids and unique usernames. */
  ghost predicate ValidTables(t: Tables) {
    && IdsAscending(t.users, UserId)
    && IdsAscending(t.bucketlists, BucketListId)
    && IdsAscending(t.items, ItemId)
    && UsernamesUnique(t.users)
  }

  /** Whether committing `row` breaks a constraint of its table: only the unique username can. */
  predicate Violates(t: Tables, row: Row) {
    row.UserRow? && exists u :: u in t.users && u.username == row.user.username
  }

  /** The row as the database stores it: the next id of its table and `now` for both timestamps. */
  function Assigned(t: Tables, row: Row, now: Stamp): (r: Row)
    ensures r.UserRow? == row.UserRow? && r.BucketListRow? == row.BucketListRow? && r.ItemRow? == row.ItemRow?
    ensures r.UserRow? ==> r.user == row.user.(id := NextId(t.users, UserId))
    ensures r.BucketListRow? ==>
              r.bucketlist == row.bucketlist.(id := NextId(t.bucketlists, BucketListId), dateCreated := now, dateModified := now)
    ensures r.ItemRow? ==>
              r.item == row.item.(id := NextId(t.items, ItemId), dateCreated := now, dateModified := now)
  {
    match row
    case UserRow(u) => UserRow(u.(id := NextId(t.users, UserId)))
    case BucketListRow(b) =>
      BucketListRow(b.(id := NextId(t.bucketlists, BucketListId), dateCreated := now, dateModified := now))
    case ItemRow(i) => ItemRow(i.(id := NextId(t.items, ItemId), dateCreated := now, dateModified := now))
  }

  /** The tables with `row` appended to its own table. */
  function Insert(t: Tables, row: Row): Tables {
    match row
    case UserRow(u) => t.(users := t.users + [u])
    case BucketListRow(b) => t.(bucketlists := t.bucketlists + [b])
    case ItemRow(i) => t.(items := t.items + [i])
  }

  /** A row that violates no constraint, stored under its assigned id, keeps the tables valid, and its id is fresh. */
  lemma InsertKeepsValid(t: Tables, row: Row, now: Stamp)
    requires ValidTables(t) && !Violates(t, row)
    ensures ValidTables(Insert(t, Assigned(t, row, now)))
    ensures Assigned(t, row, now).UserRow? ==> forall u :: u in t.users ==> u.id < Assigned(t, row, now).user.id
    ensures Assigned(t, row, now).BucketListRow? ==>
              forall b :: b in t.bucketlists ==> b.id < Assigned(t, row, now).bucketlist.id
    ensures Assigned(t, row, now).ItemRow? ==> forall i :: i in t.items ==> i.id < Assigned(t, row, now).item.id
  {
    var r := Assigned(t, row, now);
    match r
    case UserRow(u) =>
      AppendNextId(t.users, UserId, u);
      var us := t.users + [u];
      forall i, j | 0 <= i < j < |us| ensures us[i].username != us[j].username {
        if j == |t.users| {
          assert us[i] in t.users;
        }
      }
    case BucketListRow(b) =>
      AppendNextId(t.bucketlists, BucketListId, b);
    case ItemRow(i) =>
      AppendNextId(t.items, ItemId, i);
  }

  /** The outcome of `save`: the row as stored, or the abort that follows the rollback. */
  datatype Saved = Stored(row: Row) | Aborted(response: Response)

  /** `db.session`: the tables as the current transaction sees them. */
  class Session {
    var users: seq<User>
    var bucketlists: seq<BucketList>
    var items: seq<Item>

    function State(): Tables
      reads this
    {
      Tables(users, bucketlists, items)
    }

    ghost predicate Valid()
      reads this
    {
      ValidTables(State())
    }

    constructor()
      ensures Valid() && users == [] && bucketlists == [] && items == []
    {
      users := [];
      bucketlists := [];
      items := [];
    }

    /**
     * `save(obj)`: add the row and commit. The commit fails when the row breaks
     * a constraint or when the database refuses it for a reason outside the
     * model (`commitOk` false); then the session rolls back and the request is
     * aborted with 400.
     */
    method Save(row: Row, now: Stamp, commitOk: bool) returns (saved: Saved)
      requires Valid()
      modifies this
      ensures Valid()
      ensures saved.Stored? <==> commitOk && !Violates(old(State()), row)
      ensures saved.Stored? ==>
                saved.row == Assigned(old(State()), row, now) && State() == Insert(old(State()), saved.row)
      ensures saved.Aborted? ==> saved.response == Abort(400, SAVE_FAILED) && State() == old(State())
    {
      var t := State();
      if !commitOk || Violates(t, row) {
        return Aborted(Abort(400, SAVE_FAILED));
      }
      var r := Assigned(t, row, now);
      InsertKeepsValid(t, row, now);
      match r {
        case UserRow(u) => users := users + [u];
        case BucketListRow(b) => bucketlists := bucketlists + [b];
        case ItemRow(i) => items := items + [i];
      }
      saved := Stored(r);
    }
  }
}
