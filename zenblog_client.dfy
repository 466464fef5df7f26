/**
 * The Zenblog SDK (packages/zenblog/dist/index.js): `createZenblogClient`
 * builds a fetcher bound to one blog and the `posts`, `categories`, `tags` and
 * `authors` endpoints on top of it. The fetcher shapes the request (URL,
 * headers), and classifies what comes back: parse failure, HTTP failure, or
 * the parsed body.
 *
 * `fetch` itself is a foreign call: it is the parameter `send`, from the
 * request issued to what the network answers.
 */
module Zenblog {
  import opened Wrappers
  import opened Text
  import FormUrlEncoded

  const DefaultBaseUrl := "https://zenblog.com/api/public"
  const ContentType := "Content-Type"
  const JsonMediaType := "application/json"
  const ParseFailedMessage := "Failed to parse JSON response from API"
  const FetchFailedMessage := "Error fetching data from API"

  // ---------------------------------------------------------------------------
  // plain objects with string values
  // ---------------------------------------------------------------------------

  predicate UniqueKeys(entries: seq<(string, string)>) {
    forall i, j :: 0 <= i < j < |entries| ==> entries[i].0 != entries[j].0
  }

  /** A plain object's own properties in insertion order; a key occurs once. */
  type Obj = entries: seq<(string, string)> | UniqueKeys(entries)

  function Keys(o: Obj): (ks: seq<string>)
    ensures |ks| == |o| && forall i :: 0 <= i < |o| ==> ks[i] == o[i].0
  {
    seq(|o|, i requires 0 <= i < |o| => o[i].0)
  }

  /** `o[k]`, absent as `None`. */
  function Lookup(o: seq<(string, string)>, k: string): Option<string>
    decreases |o|
  {
    if o == [] then None
    else if o[0].0 == k then Some(o[0].1)
    else Lookup(o[1..], k)
  }

  lemma {:induction false} LookupFindsKeys(o: Obj, k: string)
    ensures Lookup(o, k).Some? <==> k in Keys(o)
    ensures forall i :: 0 <= i < |o| && o[i].0 == k ==> Lookup(o, k) == Some(o[i].1)
    decreases |o|
  {
    if o != [] {
      var tail: Obj := o[1..];
      LookupFindsKeys(tail, k);
      assert Keys(o) == [o[0].0] + Keys(tail);
    }
  }

  /** Where key `k` stands in `o`. */
  function KeyIndex(o: seq<(string, string)>, k: string): (i: nat)
    requires exists j :: 0 <= j < |o| && o[j].0 == k
    ensures i < |o| && o[i].0 == k
    decreases |o|
  {
    if o[0].0 == k then 0
    else
      assert exists j :: 0 <= j < |o[1..]| && o[1..][j].0 == k by {
        var j :| 0 <= j < |o| && o[j].0 == k;
        assert o[1..][j - 1] == o[j];
      }
      1 + KeyIndex(o[1..], k)
  }

  /** Two objects with the same properties at the same places look up alike. */
  lemma SameLookup(o: Obj, r: Obj, k: string)
    requires |o| == |r| && forall i :: 0 <= i < |o| ==> o[i].0 == r[i].0 && (o[i].0 == k ==> o[i].1 == r[i].1)
    ensures Lookup(r, k) == Lookup(o, k)
  {
    LookupFindsKeys(o, k);
    LookupFindsKeys(r, k);
    if k in Keys(o) {
      var i :| 0 <= i < |o| && Keys(o)[i] == k;
    } else {
      assert k !in Keys(r);
    }
  }

  /** Looking up in an object extended by one new property. */
  lemma LookupExtended(o: Obj, k: string, v: string, k': string)
    requires k !in Keys(o)
    requires UniqueKeys(o + [(k, v)])
    ensures Lookup(o + [(k, v)], k') == if k' == k then Some(v) else Lookup(o, k')
  {
    var r: Obj := o + [(k, v)];
    LookupFindsKeys(r, k');
    LookupFindsKeys(o, k');
    if k' == k {
      assert r[|o|].0 == k;
    } else if k' in Keys(o) {
      var i :| 0 <= i < |o| && Keys(o)[i] == k';
      assert r[i] == o[i];
    } else {
      assert k' !in Keys(r) by {
        assert forall i :: 0 <= i < |r| ==> r[i].0 == if i < |o| then o[i].0 else k;
      }
    }
  }

  /**
   * `o[k] = v`: an existing property is overwritten where it stands, a new
   * one is appended.
   */
  function Put(o: Obj, k: string, v: string): (r: Obj)
    ensures Lookup(r, k) == Some(v)
    ensures forall k' :: k' != k ==> Lookup(r, k') == Lookup(o, k')
    ensures |r| >= |o| && forall i :: 0 <= i < |o| ==> r[i].0 == o[i].0
    ensures k !in Keys(o) ==> r == o + [(k, v)]
  {
    if k in Keys(o) then
      var i := KeyIndex(o, k);
      var r: Obj := o[i := (k, v)];
      LookupFindsKeys(r, k);
      assert r[i] == (k, v);
      assert forall k' :: k' != k ==> Lookup(r, k') == Lookup(o, k') by {
        forall k' | k' != k ensures Lookup(r, k') == Lookup(o, k') {
          SameLookup(o, r, k');
        }
      }
      r
    else
      var r: Obj := o + [(k, v)];
      assert forall k' :: Lookup(r, k') == if k' == k then Some(v) else Lookup(o, k') by {
        forall k' ensures Lookup(r, k') == if k' == k then Some(v) else Lookup(o, k') {
          LookupExtended(o, k, v, k');
        }
      }
      LookupExtended(o, k, v, k);
      r
  }

  /** `{ ...target, ...source }`: the source's properties put one by one, in order. */
  function Spread(target: Obj, source: Obj): (r: Obj)
    ensures |r| >= |target| && forall i :: 0 <= i < |target| ==> r[i].0 == target[i].0
    decreases |source|
  {
    if source == [] then target
    else
      var tail: Obj := source[1..];
      Spread(Put(target, source[0].0, source[0].1), tail)
  }

  /** A property of the spread comes from the source when the source has it, else from the target. */
  lemma {:induction false} LookupSpread(target: Obj, source: Obj, k: string)
    ensures Lookup(Spread(target, source), k) == if k in Keys(source) then Lookup(source, k) else Lookup(target, k)
    decreases |source|
  {
    if source != [] {
      var tail: Obj := source[1..];
      var next := Put(target, source[0].0, source[0].1);
      LookupSpread(next, tail, k);
      LookupHead(source, k);
    }
  }

  /** Lookup and key membership of an object, told by its first property. */
  lemma LookupHead(o: Obj, k: string)
    requires o != []
    ensures var tail: Obj := o[1..];
      && (k in Keys(o) <==> k == o[0].0 || k in Keys(tail))
      && (k == o[0].0 ==> k !in Keys(tail) && Lookup(o, k) == Some(o[0].1))
      && (k != o[0].0 ==> Lookup(o, k) == Lookup(tail, k))
  {
    var tail: Obj := o[1..];
    assert Keys(o) == [o[0].0] + Keys(tail);
  }

  /** Spreading properties the target does not have appends them, in order. */
  lemma {:induction false} SpreadAppends(target: Obj, source: Obj)
    requires forall i :: 0 <= i < |source| ==> source[i].0 !in Keys(target)
    ensures Spread(target, source) == target + source
    decreases |source|
  {
    if source != [] {
      var tail: Obj := source[1..];
      var next := Put(target, source[0].0, source[0].1);
      AppendedKeys(target, source);
      SpreadAppends(next, tail);
      ConsAppend(target, source);
    }
  }

  /** After the first new property is appended, the remaining ones are still new. */
  lemma AppendedKeys(target: Obj, source: Obj)
    requires source != []
    requires forall i :: 0 <= i < |source| ==> source[i].0 !in Keys(target)
    ensures Put(target, source[0].0, source[0].1) == target + [source[0]]
    ensures var tail: Obj := source[1..];
            forall i :: 0 <= i < |tail| ==> tail[i].0 !in Keys(Put(target, source[0].0, source[0].1))
  {
    var next: Obj := target + [source[0]];
    assert Keys(next) == Keys(target) + [source[0].0];
    var tail: Obj := source[1..];
    assert forall i :: 0 <= i < |tail| ==> tail[i] == source[i + 1];
  }

  lemma ConsAppend(x: seq<(string, string)>, y: seq<(string, string)>)
    requires y != []
    ensures x + [y[0]] + y[1..] == x + y
  {
  }

  // ---------------------------------------------------------------------------
  // requests
  // ---------------------------------------------------------------------------

  /** The `fetch` options the SDK passes; `headers` is a plain object when present. */
  datatype FetchOptions = FetchOptions(httpMethod: Option<string>, cache: Option<string>, headers: Option<Obj>)

  datatype Request = Request(url: string, options: FetchOptions)

  /** The fetcher's configuration: base URL and blog id. */
  datatype Config = Config(url: string, blogId: string)

  /** `{ "Content-Type": "application/json", ...opts.headers }`. */
  function MergeHeaders(callerHeaders: Option<Obj>): (h: Obj)
    ensures Lookup(h, ContentType) == if ContentType in Keys(callerHeaders.GetOr([]))
                                      then Lookup(callerHeaders.GetOr([]), ContentType)
                                      else Some(JsonMediaType)
    ensures forall k :: k != ContentType ==> Lookup(h, k) == Lookup(callerHeaders.GetOr([]), k)
    ensures |h| >= 1 && h[0].0 == ContentType
  {
    var defaults: Obj := [(ContentType, JsonMediaType)];
    var h := Spread(defaults, callerHeaders.GetOr([]));
    forall k ensures Lookup(h, k) == if k in Keys(callerHeaders.GetOr([])) then Lookup(callerHeaders.GetOr([]), k) else Lookup(defaults, k) {
      LookupSpread(defaults, callerHeaders.GetOr([]), k);
    }
    forall k | k != ContentType && k !in Keys(callerHeaders.GetOr([]))
      ensures Lookup(callerHeaders.GetOr([]), k) == None && Lookup(defaults, k) == None
    {
      LookupFindsKeys(callerHeaders.GetOr([]), k);
      assert defaults[1..] == [];
    }
    h
  }

  /**
   * The request the fetcher issues for `path`: URL
   * `<base>/blogs/<blogId>/<path>`, the caller's options with the merged headers.
   */
  function MakeRequest(config: Config, path: string, opts: FetchOptions): (req: Request)
    ensures req.url == config.url + "/blogs/" + config.blogId + "/" + path
    ensures req.options.httpMethod == opts.httpMethod && req.options.cache == opts.cache
    ensures req.options.headers == Some(MergeHeaders(opts.headers))
  {
    Request(config.url + "/blogs/" + config.blogId + "/" + path,
            opts.(headers := Some(MergeHeaders(opts.headers))))
  }

  /**
   * The URL's `/`-separated segments are the base's, then `blogs` and the
   * blog id, then the path's: the blog id and the path can be read back.
   */
  lemma UrlSegments(config: Config, path: string)
    requires '/' !in config.blogId
    ensures Split(MakeRequest(config, path, FetchOptions(None, None, None)).url, '/') ==
            Split(config.url, '/') + ["blogs", config.blogId] + Split(path, '/')
  {
    var fromBlogs := "blogs" + ['/'] + (config.blogId + ['/'] + path);
    assert MakeRequest(config, path, FetchOptions(None, None, None)).url == config.url + ['/'] + fromBlogs by {
      assert "/blogs/" == ['/'] + "blogs" + ['/'];
    }
    BlogSegments(config.blogId, path);
    SplitAround(config.url, fromBlogs, '/');
  }

  /** The segments after the base: `blogs`, the blog id, then the path's. */
  lemma BlogSegments(blogId: string, path: string)
    requires '/' !in blogId
    ensures Split("blogs" + ['/'] + (blogId + ['/'] + path), '/') == ["blogs", blogId] + Split(path, '/')
  {
    var idAndPath := blogId + ['/'] + path;
    LeadingSegment(blogId, path);
    LeadingSegment("blogs", idAndPath);
  }

  /** A leading run without `/`, then `/`, is one segment of its own. */
  lemma LeadingSegment(first: string, rest: string)
    requires '/' !in first
    ensures Split(first + ['/'] + rest, '/') == [first] + Split(rest, '/')
  {
    SplitAround(first, rest, '/');
    SplitWithoutSep(first, '/');
  }

  // ---------------------------------------------------------------------------
  // responses
  // ---------------------------------------------------------------------------

  /** A JSON value, as the response body parses to. */
  datatype Json =
    | JNull
    | JBool(b: bool)
    | JNumber(n: int)
    | JString(s: string)
    | JArray(items: seq<Json>)
    | JObject(members: seq<(string, Json)>)

  /** What `res.json()` does with the body: a value, or the exception it throws. */
  datatype Body = Parsed(json: Json) | Unparsable(exception: string)

  datatype Response = Response(status: int, body: Body)

  /** `res.ok`: a status in the range 200 to 299. */
  predicate IsOk(res: Response) {
    200 <= res.status <= 299
  }

  /** What `throwError(message, detail)` raises, or what the network layer threw. */
  datatype Error =
    | ApiError(message: string, cause: Cause)
    | TransportError(description: string)

  datatype Cause = ParseException(exception: string) | FailedResponse(response: Response)

  /** What the network answers to a request: a response, or an error `fetch` throws. */
  datatype Reply = Answered(response: Response) | NetworkFailure(error: Error)

  /** The body of the fetcher's `try` block, once the request is sent. */
  function TryBlock(reply: Reply): Result<Json, Error> {
    match reply
    case NetworkFailure(e) => Failure(e)
    case Answered(res) =>
      match res.body
      case Unparsable(e) => Failure(ApiError(ParseFailedMessage, ParseException(e)))
      case Parsed(json) =>
        if !IsOk(res) then Failure(ApiError(FetchFailedMessage, FailedResponse(res)))
        else Success(json)
  }

  /** The `catch` clause: logs, then throws the very error it caught. */
  function Rethrow(r: Result<Json, Error>): Result<Json, Error> {
    match r
    case Failure(e) => Failure(e)
    case Success(v) => Success(v)
  }

  /**
   * How a request settles. A body that does not parse fails with the parse
   * message whatever the status; a parsed body with a failing status fails with
   * the HTTP message and the response; a network error comes out unchanged;
   * otherwise the parsed body is returned as it is.
   */
  function Settle(reply: Reply): (r: Result<Json, Error>)
    ensures reply.NetworkFailure? ==> r == Failure(reply.error)
    ensures reply.Answered? && reply.response.body.Unparsable? ==>
              r == Failure(ApiError(ParseFailedMessage, ParseException(reply.response.body.exception)))
    ensures reply.Answered? && reply.response.body.Parsed? && !IsOk(reply.response) ==>
              r == Failure(ApiError(FetchFailedMessage, FailedResponse(reply.response)))
    ensures reply.Answered? && reply.response.body.Parsed? && IsOk(reply.response) ==>
              r == Success(reply.response.body.json)
  {
    Rethrow(TryBlock(reply))
  }

  /** The fetcher: issue the request, settle the reply. */
  function Fetch(config: Config, path: string, opts: FetchOptions, send: Request -> Reply): Result<Json, Error> {
    Settle(send(MakeRequest(config, path, opts)))
  }

  /** A parse failure and an HTTP failure are told apart by their messages, and only an ok status with a parsed body succeeds. */
  lemma SettleOutcomes(reply: Reply)
    requires reply.Answered?
    ensures Settle(reply).Success? <==> reply.response.body.Parsed? && IsOk(reply.response)
    ensures Settle(reply).Failure? ==>
              && Settle(reply).error.ApiError?
              && (Settle(reply).error.message == ParseFailedMessage <==> reply.response.body.Unparsable?)
  {
  }

  // ---------------------------------------------------------------------------
  // the client
  // ---------------------------------------------------------------------------

  datatype ClientOptions = ClientOptions(blogId: string, url: Option<string>, debug: Option<bool>)

  datatype Client = Client(config: Config, debug: bool)

  /** `createZenblogClient`: the base URL falls back to the public API when absent or empty. */
  function CreateClient(o: ClientOptions): (c: Client)
    ensures c.config.blogId == o.blogId
    ensures o.url.None? || o.url == Some("") ==> c.config.url == DefaultBaseUrl
    ensures o.url.Some? && o.url.value != "" ==> c.config.url == o.url.value
    ensures c.debug <==> o.debug == Some(true)
  {
    Client(Config(if o.url.Some? && o.url.value != "" then o.url.value else DefaultBaseUrl, o.blogId),
           o.debug.Some? && o.debug.value)
  }

  /** Parameters of `posts.list`; `None` is an omitted property. */
  datatype ListParams = ListParams(
    limit: Option<int>,
    offset: Option<int>,
    cache: Option<string>,
    category: Option<string>,
    tags: Option<seq<string>>,
    author: Option<string>)

  /** Per-call options of `posts.get` and `authors.get`. */
  datatype GetOptions = GetOptions(cache: Option<string>)

  /** The endpoints the client offers. */
  datatype Endpoint =
    | PostsList(params: ListParams)
    | PostsGet(slug: string, getOpts: Option<GetOptions>)
    | CategoriesList
    | TagsList
    | AuthorsList
    | AuthorsGet(slug: string, getOpts: Option<GetOptions>)

  /** A string property is truthy when present and non-empty. */
  predicate Truthy(s: Option<string>) {
    s.Some? && s.value != ""
  }

  /** `{ key: value }` when `present`, `{}` otherwise: the conditional spreads of `posts.list`. */
  function OnlyIf(present: bool, key: string, value: string): Obj {
    if present then [(key, value)] else []
  }

  /** `{ limit, offset }`, with their defaults. */
  function ListBase(p: ListParams): Obj {
    [("limit", IntToString(p.limit.GetOr(20))), ("offset", IntToString(p.offset.GetOr(0)))]
  }

  function CategoryPart(p: ListParams): Obj {
    OnlyIf(Truthy(p.category), "category", p.category.GetOr(""))
  }

  function TagsPart(p: ListParams): Obj {
    OnlyIf(p.tags.Some?, "tags", Join(p.tags.GetOr([]), ','))
  }

  function AuthorPart(p: ListParams): Obj {
    OnlyIf(Truthy(p.author), "author", p.author.GetOr(""))
  }

  /** The object `posts.list` hands to `URLSearchParams`. */
  function ListQuery(p: ListParams): Obj {
    Spread(Spread(Spread(ListBase(p), CategoryPart(p)), TagsPart(p)), AuthorPart(p))
  }

  /** Where a property of the list query stands in the source's object literal. */
  function ListKeyRank(k: string): int {
    if k == "limit" then 0
    else if k == "offset" then 1
    else if k == "category" then 2
    else if k == "tags" then 3
    else if k == "author" then 4
    else 5
  }

  predicate RanksAscending(q: seq<(string, string)>) {
    forall i, j :: 0 <= i < j < |q| ==> ListKeyRank(q[i].0) < ListKeyRank(q[j].0)
  }

  lemma ConcatAscending(x: seq<(string, string)>, y: seq<(string, string)>)
    requires RanksAscending(x) && RanksAscending(y)
    requires forall i, j :: 0 <= i < |x| && 0 <= j < |y| ==> ListKeyRank(x[i].0) < ListKeyRank(y[j].0)
    ensures RanksAscending(x + y)
  {
    forall i, j | 0 <= i < j < |x + y| ensures ListKeyRank((x + y)[i].0) < ListKeyRank((x + y)[j].0) {
      if j < |x| {
        assert (x + y)[i] == x[i] && (x + y)[j] == x[j];
      } else if i < |x| {
        assert (x + y)[i] == x[i] && (x + y)[j] == y[j - |x|];
      } else {
        assert (x + y)[i] == y[i - |x|] && (x + y)[j] == y[j - |x|];
      }
    }
  }

  /** None of the conditional spreads meets a property already there, so each appends. */
  lemma ListQueryFlat(p: ListParams)
    ensures ListQuery(p) == ListBase(p) + CategoryPart(p) + TagsPart(p) + AuthorPart(p)
  {
    var base, c, t, a := ListBase(p), CategoryPart(p), TagsPart(p), AuthorPart(p);
    SpreadAppends(base, c);
    var bc: Obj := base + c;
    assert Keys(bc) == Keys(base) + Keys(c);
    SpreadAppends(bc, t);
    var bct: Obj := bc + t;
    assert Keys(bct) == Keys(bc) + Keys(t);
    SpreadAppends(bct, a);
  }

  /**
   * The list query: `limit` (default 20) and `offset` (default 0) always, first
   * and in that order; `category` and `author` only when truthy; `tags`
   * whenever given (an array is truthy even when empty), joined with commas;
   * and the properties in the order of the object literal.
   */
  lemma ListQueryShape(p: ListParams)
    ensures var q := ListQuery(p);
      && |q| >= 2
      && q[0] == ("limit", IntToString(if p.limit.Some? then p.limit.value else 20))
      && q[1] == ("offset", IntToString(if p.offset.Some? then p.offset.value else 0))
      && Lookup(q, "category") == (if Truthy(p.category) then p.category else None)
      && Lookup(q, "tags") == (if p.tags.Some? then Some(Join(p.tags.value, ',')) else None)
      && Lookup(q, "author") == (if Truthy(p.author) then p.author else None)
      && RanksAscending(q)
      && (forall i :: 0 <= i < |q| ==> ListKeyRank(q[i].0) < 5)
  {
    ListQueryFlat(p);
    ListQueryLookups(p);
    ListQueryRanks(p);
  }

  lemma ListQueryRanks(p: ListParams)
    ensures var q := ListBase(p) + CategoryPart(p) + TagsPart(p) + AuthorPart(p);
      RanksAscending(q) && forall i :: 0 <= i < |q| ==> ListKeyRank(q[i].0) < 5
  {
    var base: seq<(string, string)> := ListBase(p);
    var c: seq<(string, string)> := CategoryPart(p);
    var t: seq<(string, string)> := TagsPart(p);
    var a: seq<(string, string)> := AuthorPart(p);
    assert |base| == 2 && ListKeyRank(base[0].0) == 0 && ListKeyRank(base[1].0) == 1;
    assert forall i :: 0 <= i < |c| ==> ListKeyRank(c[i].0) == 2;
    assert forall i :: 0 <= i < |t| ==> ListKeyRank(t[i].0) == 3;
    assert forall i :: 0 <= i < |a| ==> ListKeyRank(a[i].0) == 4;
    ConcatAscending(base, c);
    var bc := base + c;
    assert forall i :: 0 <= i < |bc| ==> ListKeyRank(bc[i].0) < 3;
    ConcatAscending(bc, t);
    var bct := bc + t;
    assert forall i :: 0 <= i < |bct| ==> ListKeyRank(bct[i].0) < 4;
    ConcatAscending(bct, a);
    var q := bct + a;
    assert forall i :: 0 <= i < |q| ==> ListKeyRank(q[i].0) < 5;
  }

  lemma ListQueryLookups(p: ListParams)
    ensures var q := ListBase(p) + CategoryPart(p) + TagsPart(p) + AuthorPart(p);
      && Lookup(q, "category") == (if Truthy(p.category) then p.category else None)
      && Lookup(q, "tags") == (if p.tags.Some? then Some(Join(p.tags.value, ',')) else None)
      && Lookup(q, "author") == (if Truthy(p.author) then p.author else None)
  {
    var base: seq<(string, string)> := ListBase(p);
    var c: seq<(string, string)> := CategoryPart(p);
    var t: seq<(string, string)> := TagsPart(p);
    var a: seq<(string, string)> := AuthorPart(p);
    assert base[0].0 == "limit" && base[1].0 == "offset";
    LookupOnePart(base, c, t + a, "category");
    assert base + c + t + a == base + c + (t + a);
    LookupOnePart(base + c, t, a, "tags");
    LookupOnePart(base + c + t, a, [], "author");
    assert base + c + t + a + [] == base + c + t + a;
  }

  /**
   * Looking a key up in `x + y + z` when only `y` may hold it, and holds it at
   * most once at its head.
   */
  lemma LookupOnePart(x: seq<(string, string)>, y: seq<(string, string)>, z: seq<(string, string)>, k: string)
    requires forall i :: 0 <= i < |x| ==> x[i].0 != k
    requires forall i :: 0 <= i < |z| ==> z[i].0 != k
    requires |y| <= 1
    ensures Lookup(x + y + z, k) == if y != [] && y[0].0 == k then Some(y[0].1) else None
  {
    assert x + y + z == x + (y + z);
    LookupAppend(x, y + z, k);
    if y == [] || y[0].0 != k {
      LookupAppend(y + z, [], k);
      assert y + z + [] == y + z;
    }
  }

  lemma {:induction false} LookupAppend(x: seq<(string, string)>, y: seq<(string, string)>, k: string)
    requires forall i :: 0 <= i < |x| ==> x[i].0 != k
    ensures Lookup(x + y, k) == Lookup(y, k)
    decreases |x|
  {
    if x == [] {
      assert x + y == y;
    } else {
      var xy := x + y;
      assert xy[0] == x[0] && xy[1..] == x[1..] + y;
      assert Lookup(xy, k) == Lookup(xy[1..], k);
      LookupAppend(x[1..], y, k);
    }
  }

  /** `opts?.cache || "default"`. */
  function CacheOrDefault(getOpts: Option<GetOptions>): string {
    if getOpts.Some? && getOpts.value.cache.Some? && getOpts.value.cache.value != "" then getOpts.value.cache.value
    else "default"
  }

  /** The path each endpoint requests, relative to the blog. */
  function EndpointPath(e: Endpoint): string {
    match e
    case PostsList(p) => "posts?" + FormUrlEncoded.Serialize(ListQuery(p))
    case PostsGet(slug, _) => "posts/" + slug
    case CategoriesList => "categories"
    case TagsList => "tags"
    case AuthorsList => "authors"
    case AuthorsGet(slug, _) => "authors/" + slug
  }

  /** The `fetch` options each endpoint passes. */
  function EndpointOptions(e: Endpoint): FetchOptions {
    match e
    case PostsList(p) => FetchOptions(Some("GET"), Some(p.cache.GetOr("default")), None)
    case PostsGet(_, o) => FetchOptions(Some("GET"), Some(CacheOrDefault(o)), None)
    case AuthorsGet(_, o) => FetchOptions(Some("GET"), Some(CacheOrDefault(o)), None)
    case _ => FetchOptions(Some("GET"), None, None)
  }

  /** Calling an endpoint of the client. */
  function Invoke(c: Client, e: Endpoint, send: Request -> Reply): Result<Json, Error> {
    Fetch(c.config, EndpointPath(e), EndpointOptions(e), send)
  }

  /**
   * Every endpoint issues a GET to `<base>/blogs/<blogId>/<path>` with JSON
   * as content type; the single-resource endpoints fall back to the
   * `"default"` cache mode when the caller gives none or an empty one, and
   * `posts.list` only when the caller gives none.
   */
  lemma EndpointRequest(c: Client, e: Endpoint)
    ensures var req := MakeRequest(c.config, EndpointPath(e), EndpointOptions(e));
      && req.url == c.config.url + "/blogs/" + c.config.blogId + "/" + EndpointPath(e)
      && req.options.httpMethod == Some("GET")
      && req.options.headers.Some? && Lookup(req.options.headers.value, ContentType) == Some(JsonMediaType)
      && (e.PostsGet? || e.AuthorsGet? ==>
            req.options.cache == Some(if e.getOpts.Some? && Truthy(e.getOpts.value.cache) then e.getOpts.value.cache.value else "default"))
      && (e.PostsList? ==> req.options.cache == Some(if e.params.cache.Some? then e.params.cache.value else "default"))
      && (e.CategoriesList? || e.TagsList? || e.AuthorsList? ==> req.options.cache == None)
  {
  }

  /** The URL of the post list: the serialized list query after `posts?`. */
  lemma ListUrl(c: Client, p: ListParams)
    ensures MakeRequest(c.config, EndpointPath(PostsList(p)), EndpointOptions(PostsList(p))).url
            == c.config.url + "/blogs/" + c.config.blogId + "/posts?" + FormUrlEncoded.Serialize(ListQuery(p))
  {
    var query := FormUrlEncoded.Serialize(ListQuery(p));
    assert EndpointPath(PostsList(p)) == "posts?" + query;
    RequestUrl(c.config, "posts?", query, EndpointOptions(PostsList(p)));
    ListPrefix();
  }

  lemma ListPrefix()
    ensures "/" + "posts?" == "/posts?"
  {
  }

  /** The URL of the two single-resource endpoints. */
  lemma EndpointUrl(c: Client, e: Endpoint)
    ensures var url := MakeRequest(c.config, EndpointPath(e), EndpointOptions(e)).url;
      var base := c.config.url + "/blogs/" + c.config.blogId;
      && (e.PostsGet? ==> url == base + "/posts/" + e.slug)
      && (e.AuthorsGet? ==> url == base + "/authors/" + e.slug)
  {
    var base := c.config.url + "/blogs/" + c.config.blogId;
    match e
    case PostsGet(slug, _) => SlashThen(base, "posts/", slug);
    case AuthorsGet(slug, _) => SlashThen(base, "authors/", slug);
    case _ =>
  }

  /** The URL of the three collection endpoints. */
  lemma CollectionUrl(c: Client, e: Endpoint)
    ensures var url := MakeRequest(c.config, EndpointPath(e), EndpointOptions(e)).url;
      var base := c.config.url + "/blogs/" + c.config.blogId;
      && (e.CategoriesList? ==> url == base + "/categories")
      && (e.TagsList? ==> url == base + "/tags")
      && (e.AuthorsList? ==> url == base + "/authors")
  {
    var base := c.config.url + "/blogs/" + c.config.blogId;
    match e
    case CategoriesList => SlashThen(base, "categories", "");
    case TagsList => SlashThen(base, "tags", "");
    case AuthorsList => SlashThen(base, "authors", "");
    case _ =>
  }

  lemma RequestUrl(config: Config, path: string, rest: string, opts: FetchOptions)
    ensures MakeRequest(config, path + rest, opts).url == config.url + "/blogs/" + config.blogId + ("/" + path) + rest
  {
    SlashThen(config.url + "/blogs/" + config.blogId, path, rest);
  }

  /** Re-associating the URL around the `/` before the path. */
  lemma SlashThen(base: string, path: string, rest: string)
    ensures base + "/" + (path + rest) == base + ("/" + path) + rest
  {
  }

  /**
   * The list path carries the query as form-urlencoded text that parses back
   * to the list query's properties, in order.
   */
  lemma ListPathParses(p: ListParams)
    ensures var path := EndpointPath(PostsList(p));
      var q := ListQuery(p);
      var parsed := FormUrlEncoded.Parse(path[6..]);
      && path[..6] == "posts?"
      && |parsed| == |q|
      && forall i :: 0 <= i < |q| ==> parsed[i] == (FormUrlEncoded.Utf8(q[i].0), FormUrlEncoded.Utf8(q[i].1))
  {
    var path := EndpointPath(PostsList(p));
    assert path[6..] == FormUrlEncoded.Serialize(ListQuery(p));
    FormUrlEncoded.ParseSerialize(ListQuery(p));
  }

  /**
   * An endpoint call sends exactly the request the endpoint describes, and
   * returns the parsed body precisely when the reply is an ok response with a
   * body that parses.
   */
  lemma InvokeSettles(c: Client, e: Endpoint, send: Request -> Reply)
    ensures var reply := send(MakeRequest(c.config, EndpointPath(e), EndpointOptions(e)));
      && (Invoke(c, e, send).Success? <==>
            reply.Answered? && reply.response.body.Parsed? && IsOk(reply.response))
      && (Invoke(c, e, send).Success? ==> Invoke(c, e, send).value == reply.response.body.json)
      && (reply.NetworkFailure? ==> Invoke(c, e, send) == Failure(reply.error))
  {
    var reply := send(MakeRequest(c.config, EndpointPath(e), EndpointOptions(e)));
    if reply.Answered? {
      SettleOutcomes(reply);
    }
  }

  /**
   * `client.posts.list()` with no limit, no offset, no tags and no truthy
   * category or author asks for `limit=20&offset=0`, whatever its cache.
   */
  lemma DefaultListQuery(p: ListParams)
    requires p.limit.None? && p.offset.None? && p.tags.None?
    requires !Truthy(p.category) && !Truthy(p.author)
    ensures ListQuery(p) == [("limit", "20"), ("offset", "0")]
  {
    ListQueryFlat(p);
    assert NatToDecimal(20) == "20";
    assert IntToString(20) == "20" && IntToString(0) == "0";
    assert CategoryPart(p) == [] && TagsPart(p) == [] && AuthorPart(p) == [];
  }
}
