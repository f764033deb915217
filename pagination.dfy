/**
 * Listing bucket lists a page at a time: the limit clamp, the page window the
 * database's paginator cuts, the previous/next links, and the labels the page's
 * entries are keyed by.
 *
 * The paginator is taken to behave as follows: with `per_page` rows a page,
 * `pages` is the ceiling of the row count over `per_page` (0 when `per_page`
 * is not positive), page `p` holds rows `(p-1)*per_page` up to
 * `p*per_page`, there is a previous page when `p > 1` and a next page when
 * `p < pages`.
 */
module Pagination {
  import opened Options
  import opened Text
  import opened Query
  import opened Models

  const DEFAULT_LIMIT := 20
  const MAX_LIMIT := 100
  const DEFAULT_PAGE := 1

  /** `min(args.get('limit', 20), 100)`, given what `args.get` produced. */
  function EffectiveLimit(requested: int): (l: int)
    ensures l <= MAX_LIMIT
    ensures requested <= MAX_LIMIT ==> l == requested
    ensures requested > MAX_LIMIT ==> l == MAX_LIMIT
  {
    if requested < MAX_LIMIT then requested else MAX_LIMIT
  }

  // ---------------------------------------------------------------- page window

  /** The paginator's `pages`. */
  function PageCount(n: nat, limit: int): nat {
    if limit <= 0 then 0 else (n + limit - 1) / limit
  }

  lemma {:induction false} MulMonotone(a: int, b: int, c: nat)
    requires a <= b
    ensures a * c <= b * c
  {
    if c > 0 {
      MulMonotone(a, b, c - 1);
      assert a * c == a * (c - 1) + a;
      assert b * c == b * (c - 1) + b;
    }
  }

  /** Page `p + 1` starts inside the table exactly when `p` is below the page count. */
  lemma PageCountSpec(n: nat, limit: int, p: nat)
    requires limit >= 1
    ensures p < PageCount(n, limit) <==> p * limit < n
  {
    var q := (n + limit - 1) / limit;
    var r := (n + limit - 1) % limit;
    assert n + limit - 1 == q * limit + r && 0 <= r < limit;
    if p < q {
      MulMonotone(p + 1, q, limit);
      assert (p + 1) * limit == p * limit + limit;
    } else {
      MulMonotone(q, p, limit);
    }
  }

  /** The rows of page `page`: `paginate(page, per_page).items`. */
  function Window<T>(rows: seq<T>, page: int, limit: int): (w: seq<T>)
    ensures |w| <= |rows|
  {
    if limit <= 0 || page < 1 then []
    else
      var lo := if (page - 1) * limit < |rows| then (page - 1) * limit else |rows|;
      var hi := if page * limit < |rows| then page * limit else |rows|;
      MulMonotone(page - 1, page, limit);
      rows[lo..hi]
  }

  /** A page holds rows exactly when it lies between the first and the last page. */
  lemma WindowNonEmpty<T>(rows: seq<T>, page: int, limit: int)
    requires limit >= 1
    ensures Window(rows, page, limit) != [] <==> 1 <= page <= PageCount(|rows|, limit)
  {
    if page >= 1 {
      PageCountSpec(|rows|, limit, page - 1);
      assert page * limit == (page - 1) * limit + limit;
    }
  }

  /** Pages `1..k` laid end to end. */
  function Windows<T>(rows: seq<T>, limit: int, k: nat): seq<T> {
    if k == 0 then [] else Windows(rows, limit, k - 1) + Window(rows, k, limit)
  }

  lemma {:induction false} WindowsPrefix<T>(rows: seq<T>, limit: int, k: nat)
    requires limit >= 1
    ensures k * limit < |rows| ==> Windows(rows, limit, k) == rows[..k * limit]
    ensures k * limit >= |rows| ==> Windows(rows, limit, k) == rows
  {
    if k > 0 {
      WindowsPrefix(rows, limit, k - 1);
      var lo, hi := PageBounds(rows, limit, k);
      var prev := Windows(rows, limit, k - 1);
      assert Windows(rows, limit, k) == prev + Window(rows, k, limit);
      if lo < |rows| {
        if hi < |rows| {
          assert rows[..hi] == rows[..lo] + rows[lo..hi];
        } else {
          assert rows == rows[..lo] + rows[lo..];
        }
      }
    }
  }

  /** Page `k` is the slice from `(k - 1) * limit` to `k * limit`, cut off at the end of the rows. */
  lemma PageBounds<T>(rows: seq<T>, limit: int, k: nat) returns (lo: int, hi: int)
    requires limit >= 1 && k >= 1
    ensures lo == (k - 1) * limit && hi == k * limit
    ensures 0 <= lo < hi && hi == lo + limit
    ensures lo < |rows| && hi < |rows| ==> Window(rows, k, limit) == rows[lo..hi]
    ensures lo < |rows| && hi >= |rows| ==> Window(rows, k, limit) == rows[lo..]
    ensures lo >= |rows| ==> Window(rows, k, limit) == []
  {
    lo, hi := (k - 1) * limit, k * limit;
    MulMonotone(0, k - 1, limit);
  }

  /** The pages together hold every row once, in table order. */
  lemma PagesCoverAll<T>(rows: seq<T>, limit: int)
    requires limit >= 1
    ensures Windows(rows, limit, PageCount(|rows|, limit)) == rows
  {
    var pages := PageCount(|rows|, limit);
    PageCountSpec(|rows|, limit, pages);
    WindowsPrefix(rows, limit, pages);
  }

  // ---------------------------------------------------------------- links

  const LIST_QUERY := "api/v1/bucketlists?limit="
  const PAGE_QUERY := "&page="

  /** The URL of page `page` of the listing: only `limit` and `page` are carried, never `q`. */
  function PageLink(urlRoot: string, limit: int, page: int): string {
    urlRoot + LIST_QUERY + PageQuery(limit, page)
  }

  /** What follows `limit=` in a page link. */
  function PageQuery(limit: int, page: int): string {
    IntToString(limit) + PAGE_QUERY + IntToString(page)
  }

  predicate IsAmpersand(c: char) {
    c == '&'
  }

  /** Reads `limit` and `page` back out of the query string that follows `limit=`. */
  function ParseQuery(rest: string): Option<(int, int)> {
    match FindFirst(rest, IsAmpersand)
    case None => None
    case Some(k) =>
      if !(PAGE_QUERY <= rest[k..]) then None
      else match (ParseInt(rest[..k]), ParseInt(rest[k + |PAGE_QUERY|..]))
        case (Some(limit), Some(page)) => Some((limit, page))
        case _ => None
  }

  /** Reads `limit` and `page` back out of a listing URL under `urlRoot`. */
  function ParsePageLink(urlRoot: string, link: string): Option<(int, int)> {
    var prefix := urlRoot + LIST_QUERY;
    if prefix <= link then ParseQuery(link[|prefix|..]) else None
  }

  lemma QueryRoundTrip(limit: int, page: int)
    ensures ParseQuery(PageQuery(limit, page)) == Some((limit, page))
  {
    var l := IntToString(limit);
    var p := IntToString(page);
    var rest := l + PAGE_QUERY + p;
    IntToStringChars(limit);
    forall j | 0 <= j < |l| ensures !IsAmpersand(rest[j]) {
      assert rest[j] == l[j];
    }
    assert rest[|l|] == '&';
    FindFirstAt(rest, IsAmpersand, |l|);
    assert rest[..|l|] == l;
    assert rest[|l|..] == PAGE_QUERY + p;
    assert rest[|l| + |PAGE_QUERY|..] == p;
    IntToStringRoundTrip(limit);
    IntToStringRoundTrip(page);
  }

  /** A page link names the limit and the page it was built from. */
  lemma PageLinkRoundTrip(urlRoot: string, limit: int, page: int)
    ensures ParsePageLink(urlRoot, PageLink(urlRoot, limit, page)) == Some((limit, page))
  {
    var prefix := urlRoot + LIST_QUERY;
    var rest := PageQuery(limit, page);
    assert prefix <= prefix + rest;
    assert (prefix + rest)[|prefix|..] == rest;
    QueryRoundTrip(limit, page);
  }

  /** `previous_page`: a link to `page - 1` when the paginator has a previous page. */
  function PreviousPage(urlRoot: string, limit: int, page: int): Option<string> {
    if page > 1 then Some(PageLink(urlRoot, limit, page - 1)) else None
  }

  /** `next_page`: a link to `page + 1` when the paginator has a next page. */
  function NextPage(urlRoot: string, limit: int, page: int, pages: nat): Option<string> {
    if page < pages then Some(PageLink(urlRoot, limit, page + 1)) else None
  }

  // ---------------------------------------------------------------- the page

  /** `'Bucketlist{}'.format(id)`: the key a bucket list is listed under. */
  function Label(id: int): string {
    "Bucketlist" + IntToString(id)
  }

  /** Distinct bucket lists get distinct labels. */
  lemma LabelInjective(a: int, b: int)
    requires Label(a) == Label(b)
    ensures a == b
  {
    assert IntToString(a) == Label(a)[|"Bucketlist"|..];
    assert IntToString(b) == Label(b)[|"Bucketlist"|..];
    IntToStringInjective(a, b);
  }

  /** The ordered dictionary of a page: each bucket list's rendering under its label, in table order. */
  function LabelledDicts(bucketlists: seq<BucketList>, items: seq<Item>): (entries: seq<(string, Json)>)
    ensures |entries| == |bucketlists|
  {
    seq(|bucketlists|, i requires 0 <= i < |bucketlists| => (Label(bucketlists[i].id), BucketListAsDict(bucketlists[i], items)))
  }

  /** One page of a listing. */
  datatype Page = Page(data: seq<(string, Json)>, pages: nat, previous: Option<string>, next: Option<string>)

  /** `__paginate(bucketlists, page, limit, url_root)`. */
  function Paginate(bucketlists: seq<BucketList>, items: seq<Item>, page: int, limit: int, urlRoot: string): Page {
    var pages := PageCount(|bucketlists|, limit);
    Page(LabelledDicts(Window(bucketlists, page, limit), items), pages,
         PreviousPage(urlRoot, limit, page), NextPage(urlRoot, limit, page, pages))
  }

  function OptionalText(s: Option<string>): Json {
    if s.Some? then JStr(s.value) else JNull
  }

  /** The listing's JSON body: data, pages, previous_page, next_page. */
  function PageDoc(p: Page): Json {
    JObject([("data", JObject(p.data)), ("pages", JInt(p.pages)),
             ("previous_page", OptionalText(p.previous)), ("next_page", OptionalText(p.next))])
  }

  /** A page is a contiguous run of the table. */
  lemma WindowSlice<T>(rows: seq<T>, page: int, limit: int) returns (lo: nat)
    ensures lo + |Window(rows, page, limit)| <= |rows|
    ensures Window(rows, page, limit) == rows[lo..lo + |Window(rows, page, limit)|]
  {
    if limit <= 0 || page < 1 {
      lo := 0;
    } else {
      lo := if (page - 1) * limit < |rows| then (page - 1) * limit else |rows|;
    }
  }

  /** A page of a table with ascending ids has ascending ids. */
  lemma WindowAscending(rows: seq<BucketList>, page: int, limit: int)
    requires IdsAscending(rows, BucketListId)
    ensures IdsAscending(Window(rows, page, limit), BucketListId)
  {
    var lo := WindowSlice(rows, page, limit);
    var w := Window(rows, page, limit);
    forall i, j | 0 <= i < j < |w| ensures BucketListId(w[i]) < BucketListId(w[j]) {
      assert w[i] == rows[lo + i] && w[j] == rows[lo + j];
    }
    forall i | 0 <= i < |w| ensures 0 < BucketListId(w[i]) {
      assert w[i] == rows[lo + i];
    }
  }

  /**
   * Every bucket list of the page can be found under its label with its own
   * rendering, and the entries follow the page in table order.
   */
  lemma PageDataByLabel(bucketlists: seq<BucketList>, items: seq<Item>, page: int, limit: int, urlRoot: string, k: nat)
    requires IdsAscending(bucketlists, BucketListId)
    requires k < |Window(bucketlists, page, limit)|
    ensures Lookup(JObject(Paginate(bucketlists, items, page, limit, urlRoot).data), Label(Window(bucketlists, page, limit)[k].id))
            == Some(BucketListAsDict(Window(bucketlists, page, limit)[k], items))
  {
    var w := Window(bucketlists, page, limit);
    var data := LabelledDicts(w, items);
    WindowAscending(bucketlists, page, limit);
    forall j | 0 <= j < k ensures data[j].0 != Label(w[k].id) {
      assert data[j].0 == Label(w[j].id);
      assert BucketListId(w[j]) < BucketListId(w[k]);
      if Label(w[j].id) == Label(w[k].id) {
        LabelInjective(w[j].id, w[k].id);
      }
    }
    assert data[k] == (Label(w[k].id), BucketListAsDict(w[k], items));
    LookupAt(JObject(data), Label(w[k].id), k);
  }

  /** There is a previous-page link exactly from page 2 on, and it leads to the page before. */
  lemma PreviousLink(bucketlists: seq<BucketList>, items: seq<Item>, page: int, limit: int, urlRoot: string)
    ensures Paginate(bucketlists, items, page, limit, urlRoot).previous.Some? <==> page > 1
    ensures Paginate(bucketlists, items, page, limit, urlRoot).previous.Some? ==>
              ParsePageLink(urlRoot, Paginate(bucketlists, items, page, limit, urlRoot).previous.value) == Some((limit, page - 1))
  {
    PageLinkRoundTrip(urlRoot, limit, page - 1);
  }

  /** There is a next-page link exactly when the next page holds rows, and it leads to that page. */
  lemma NextLink(bucketlists: seq<BucketList>, items: seq<Item>, page: int, limit: int, urlRoot: string)
    requires page >= 1 && limit >= 1
    ensures Paginate(bucketlists, items, page, limit, urlRoot).next.Some? <==> Window(bucketlists, page + 1, limit) != []
    ensures Paginate(bucketlists, items, page, limit, urlRoot).next.Some? ==>
              ParsePageLink(urlRoot, Paginate(bucketlists, items, page, limit, urlRoot).next.value) == Some((limit, page + 1))
  {
    WindowNonEmpty(bucketlists, page + 1, limit);
    PageLinkRoundTrip(urlRoot, limit, page + 1);
  }

  /** 25 bucket lists ten to a page make three pages: the first without a previous link, the last without a next one. */
  lemma TwentyFiveByTen(bucketlists: seq<BucketList>, items: seq<Item>, urlRoot: string)
    requires |bucketlists| == 25
    ensures Paginate(bucketlists, items, 1, 10, urlRoot).pages == 3
    ensures Paginate(bucketlists, items, 1, 10, urlRoot).previous.None?
    ensures Paginate(bucketlists, items, 1, 10, urlRoot).next.Some?
    ensures Paginate(bucketlists, items, 3, 10, urlRoot).previous.Some?
    ensures Paginate(bucketlists, items, 3, 10, urlRoot).next.None?
    ensures |Paginate(bucketlists, items, 3, 10, urlRoot).data| == 5
  {
  }
}
