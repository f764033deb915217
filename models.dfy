/**
 * The three tables of the service (users, bucket lists, items), their JSON
 * renderings (`as_dict`), and the session token a user is issued and the
 * classification of what verifying one yields.
 */
module Models {
  import opened Options
  import opened Text
  import opened Query

  /** A timestamp maintained by the database, kept as the text `str()` renders it as. */
  type Stamp = string

  /** A row of the user table; the password hash is not modelled. */
  datatype User = User(id: int, username: string)

  /** A row of the bucket list table; `createdBy` is the owner's user id. */
  datatype BucketList = BucketList(id: int, name: string, createdBy: int, dateCreated: Stamp, dateModified: Stamp)

  /** A row of the item table; `bucketlistId` is the parent bucket list's id. */
  datatype Item = Item(id: int, name: string, done: bool, bucketlistId: int, dateCreated: Stamp, dateModified: Stamp)

  function UserId(u: User): int { u.id }
  function BucketListId(b: BucketList): int { b.id }
  function ItemId(i: Item): int { i.id }

  /**
   * `User(username, password)` as constructed, before `save` assigns its id:
   * the username is stored as given (the password only as a hash, not modelled).
   */
  function NewUser(username: string): (u: User)
    ensures u.username == username
  {
    User(0, username)
  }

  /**
   * `BucketList(name, created_by)` as constructed: both values stored verbatim
   * (normalising the name is the caller's job); id and timestamps come from `save`.
   */
  function NewBucketList(name: string, createdBy: int): (b: BucketList)
    ensures b.name == name && b.createdBy == createdBy
  {
    BucketList(0, name, createdBy, "", "")
  }

  /**
   * `BucketListItem(name, bucketlist_id)` as constructed: both values stored
   * verbatim and `done` at its column default, false.
   */
  function NewItem(name: string, bucketlistId: int): (i: Item)
    ensures i.name == name && i.bucketlistId == bucketlistId && !i.done
  {
    Item(0, name, false, bucketlistId, "", "")
  }

  /** `User.query.get(id)`. */
  function UserById(users: seq<User>, id: int): Option<User> {
    First(users, (u: User) => u.id == id)
  }

  /** `BucketList.query.get(id)`. */
  function BucketListById(bucketlists: seq<BucketList>, id: int): Option<BucketList> {
    First(bucketlists, (b: BucketList) => b.id == id)
  }

  /** `BucketListItem.query.get(id)`. */
  function ItemById(items: seq<Item>, id: int): Option<Item> {
    First(items, (i: Item) => i.id == id)
  }

  /** `bucketlist.items.all()`: the items whose parent id is `bucketlistId`, in table order. */
  function ItemsOf(items: seq<Item>, bucketlistId: int): seq<Item> {
    Filter(items, (i: Item) => i.bucketlistId == bucketlistId)
  }

  // ---------------------------------------------------------------- as_dict

  /** A JSON value as the service renders it; objects keep their key order. */
  datatype Json =
    | JStr(s: string)
    | JInt(i: int)
    | JNull
    | JList(elems: seq<Json>)
    | JObject(entries: seq<(string, Json)>)

  function Keys(entries: seq<(string, Json)>): seq<string> {
    seq(|entries|, i requires 0 <= i < |entries| => entries[i].0)
  }

  /** The value stored under `key`, if any. */
  function Lookup(doc: Json, key: string): Option<Json> {
    if !doc.JObject? then None
    else match FindFirst(doc.entries, (e: (string, Json)) => e.0 == key)
      case None => None
      case Some(k) => Some(doc.entries[k].1)
  }

  /** The value under the first occurrence of a key is what `Lookup` finds. */
  lemma LookupAt(doc: Json, key: string, k: nat)
    requires doc.JObject? && k < |doc.entries| && doc.entries[k].0 == key
    requires forall j :: 0 <= j < k ==> doc.entries[j].0 != key
    ensures Lookup(doc, key) == Some(doc.entries[k].1)
  {
  }

  /** A key no entry carries is not found. */
  lemma LookupMissing(doc: Json, key: string)
    requires doc.JObject? && key !in Keys(doc.entries)
    ensures Lookup(doc, key) == None
  {
    forall j | 0 <= j < |doc.entries| ensures doc.entries[j].0 != key {
      assert Keys(doc.entries)[j] == doc.entries[j].0;
    }
  }

  const GREETING := "Hello your username is "

  /** `User.as_dict()`: a greeting naming the user, with a trailing blank. */
  function UserAsDict(u: User): (t: string)
    ensures GREETING <= t && |t| == |GREETING| + |u.username| + 1 && t[|t| - 1] == ' '
  {
    GREETING + u.username + " "
  }

  /** The username can be cut back out of the greeting. */
  lemma UserAsDictReadBack(u: User)
    ensures UserAsDict(u)[|GREETING|..|UserAsDict(u)| - 1] == u.username
  {
    var t := UserAsDict(u);
    assert t == GREETING + u.username + " ";
  }

  /** Python's `str(b)` for a boolean. */
  function BoolToString(b: bool): string {
    if b then "True" else "False"
  }

  /**
   * `BucketListItem.as_dict()`: every column but `bucketlist_id`, in column
   * order, each value passed through `str()`.
   */
  function ItemAsDict(item: Item): (d: Json)
    ensures d.JObject? && Keys(d.entries) == ["id", "date_created", "date_modified", "done", "name"]
  {
    JObject([
      ("id", JStr(IntToString(item.id))),
      ("date_created", JStr(item.dateCreated)),
      ("date_modified", JStr(item.dateModified)),
      ("done", JStr(BoolToString(item.done))),
      ("name", JStr(item.name))])
  }

  /** The id, flag and name of an item can be read back from its rendering. */
  lemma ItemAsDictReadBack(item: Item)
    ensures Lookup(ItemAsDict(item), "id").Some? && Lookup(ItemAsDict(item), "id").value.JStr?
    ensures ParseInt(Lookup(ItemAsDict(item), "id").value.s) == Some(item.id)
    ensures Lookup(ItemAsDict(item), "done") == Some(JStr(if item.done then "True" else "False"))
    ensures Lookup(ItemAsDict(item), "name") == Some(JStr(item.name))
    ensures Lookup(ItemAsDict(item), "bucketlist_id") == None
  {
    var d := ItemAsDict(item);
    var e := d.entries;
    assert e[0] == ("id", JStr(IntToString(item.id)));
    assert e[3] == ("done", JStr(BoolToString(item.done)));
    assert e[4] == ("name", JStr(item.name));
    assert "done"[0] != "name"[0];
    LookupAt(d, "id", 0);
    LookupAt(d, "done", 3);
    LookupAt(d, "name", 4);
    LookupMissing(d, "bucketlist_id");
    IntToStringRoundTrip(item.id);
  }

  /** Two items render alike exactly when they differ at most in their parent. */
  lemma ItemAsDictInjective(a: Item, b: Item)
    ensures ItemAsDict(a) == ItemAsDict(b) <==> a == b.(bucketlistId := a.bucketlistId)
  {
    if ItemAsDict(a) == ItemAsDict(b) {
      assert ItemAsDict(a).entries[0] == ItemAsDict(b).entries[0];
      IntToStringInjective(a.id, b.id);
      assert ItemAsDict(a).entries[3] == ItemAsDict(b).entries[3];
    }
  }

  function ItemDicts(items: seq<Item>): (ds: seq<Json>)
    ensures |ds| == |items|
    ensures forall i :: 0 <= i < |items| ==> ds[i] == ItemAsDict(items[i])
  {
    if items == [] then [] else [ItemAsDict(items[0])] + ItemDicts(items[1..])
  }

  /**
   * `BucketList.as_dict()`: id, name, the bucket list's items, the two
   * timestamps and the owner's id, in that order, scalars passed through `str()`.
   * `items` is the whole item table.
   */
  function BucketListAsDict(b: BucketList, items: seq<Item>): (d: Json)
    ensures d.JObject?
    ensures Keys(d.entries) == ["id", "name", "items", "date_created", "date_modified", "created_by"]
  {
    JObject([
      ("id", JStr(IntToString(b.id))),
      ("name", JStr(b.name)),
      ("items", JList(ItemDicts(ItemsOf(items, b.id)))),
      ("date_created", JStr(b.dateCreated)),
      ("date_modified", JStr(b.dateModified)),
      ("created_by", JStr(IntToString(b.createdBy)))])
  }

  /** The owner and id of a bucket list, its name and its children can be read back from its rendering. */
  lemma BucketListAsDictReadBack(b: BucketList, items: seq<Item>)
    ensures Lookup(BucketListAsDict(b, items), "created_by").Some?
    ensures Lookup(BucketListAsDict(b, items), "created_by").value.JStr?
    ensures ParseInt(Lookup(BucketListAsDict(b, items), "created_by").value.s) == Some(b.createdBy)
    ensures Lookup(BucketListAsDict(b, items), "id").Some?
    ensures Lookup(BucketListAsDict(b, items), "id").value.JStr?
    ensures ParseInt(Lookup(BucketListAsDict(b, items), "id").value.s) == Some(b.id)
    ensures Lookup(BucketListAsDict(b, items), "name") == Some(JStr(b.name))
    ensures Lookup(BucketListAsDict(b, items), "items") == Some(JList(ItemDicts(ItemsOf(items, b.id))))
  {
    var d := BucketListAsDict(b, items);
    LookupAt(d, "id", 0);
    LookupAt(d, "name", 1);
    LookupAt(d, "items", 2);
    LookupAt(d, "created_by", 5);
    assert Lookup(d, "created_by") == Some(JStr(IntToString(b.createdBy)));
    assert Lookup(d, "id") == Some(JStr(IntToString(b.id)));
    IntToStringRoundTrip(b.createdBy);
    IntToStringRoundTrip(b.id);
  }

  /** The `items` of a rendered bucket list are the renderings of exactly the items whose parent it is. */
  lemma ChildrenRendered(items: seq<Item>, bucketlistId: int)
    ensures forall e :: e in ItemDicts(ItemsOf(items, bucketlistId)) <==>
              exists i :: i in items && i.bucketlistId == bucketlistId && e == ItemAsDict(i)
  {
    var children := ItemsOf(items, bucketlistId);
    var ds := ItemDicts(children);
    forall e ensures e in ds <==> exists i :: i in items && i.bucketlistId == bucketlistId && e == ItemAsDict(i) {
      if e in ds {
        var k :| 0 <= k < |ds| && ds[k] == e;
        assert children[k] in children;
      }
      if exists i :: i in items && i.bucketlistId == bucketlistId && e == ItemAsDict(i) {
        var i :| i in items && i.bucketlistId == bucketlistId && e == ItemAsDict(i);
        assert i in children;
        var k :| 0 <= k < |children| && children[k] == i;
        assert ds[k] == e;
      }
    }
  }

  // ---------------------------------------------------------------- tokens

  /** Lifetime in seconds of a token issued at login. */
  const DEFAULT_EXPIRATION := 86400

  /** What a token signs: exactly `{'id': user.id}`. */
  datatype TokenPayload = TokenPayload(id: int)

  /** A token as issued: its payload and its lifetime; the signature itself is not modelled. */
  datatype AuthToken = AuthToken(payload: TokenPayload, expiresIn: int)

  /** `user.generate_auth_token(expiration)`. */
  function GenerateAuthToken(user: User, expiration: int): AuthToken {
    AuthToken(TokenPayload(user.id), expiration)
  }

  /**
   * What the token serializer makes of a presented token: a bad signature, a
   * good but expired one, or a good one carrying its payload.
   */
  datatype Decoded = BadSignature | SignatureExpired | Loaded(payload: TokenPayload)

  /** The outcome of `User.verify_auth_token`: it raises `ValueError` or returns a user or `None`. */
  datatype Verified = RaisesValueError | Returns(user: Option<User>)

  /**
   * `User.verify_auth_token(token)` as written, given how the serializer
   * decoded the token. The serializer's expiry error is a subclass of its
   * bad-signature error, so the first `except` clause catches an expired token
   * as well and `ValueError` is raised; the clause for expiry is never reached.
   * A token that loads returns the user it names, or `None`.
   */
  function VerifyAuthToken(decoded: Decoded, users: seq<User>): (v: Verified)
    ensures v.RaisesValueError? <==> decoded.BadSignature? || decoded.SignatureExpired?
    ensures v.Returns? && v.user.Some? ==>
              decoded.Loaded? && v.user.value in users && v.user.value.id == decoded.payload.id
    ensures decoded.Loaded? && (exists u :: u in users && u.id == decoded.payload.id) ==>
              v.Returns? && v.user.Some?
  {
    match decoded
    case Loaded(payload) => Returns(UserById(users, payload.id))
    case _ => RaisesValueError
  }

  /**
   * `User.verify_auth_token` as its `except SignatureExpired: return None`
   * clause means it: an expired token returns `None` instead of raising.
   */
  function VerifyAuthTokenIntended(decoded: Decoded, users: seq<User>): (v: Verified)
    ensures v.RaisesValueError? <==> decoded.BadSignature?
    ensures decoded.SignatureExpired? ==> v == Returns(None)
    ensures !decoded.SignatureExpired? ==> v == VerifyAuthToken(decoded, users)
  {
    if decoded.SignatureExpired? then Returns(None) else VerifyAuthToken(decoded, users)
  }
}
