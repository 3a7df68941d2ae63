/**
 The offline check of a captured issue and its paginated comments: every request record, the page
 chain, and the comments found on it. Hashing, base64, UTF-8, JSON decoding, times and media types
 are functions the check is given.
 */
module Snapshot {
  import opened Basics
  import opened Json
  import Links

  type Bytes = seq<byte>

  /** The library functions the validator calls. `drift` rebuilds the hint-drift report. */
  datatype Libraries = Libraries(
    sha256: Bytes -> string,
    base64: string -> Option<Bytes>,
    utf8: Bytes -> Option<string>,
    encode: string -> Bytes,
    json: string -> Option<Json>,
    isUtc: Json -> bool,
    isJsonMedia: string -> bool,
    drift: (Json, nat, Json) -> Json)

  const BODY_LIMIT: nat := 2 * 1024 * 1024
  const TOTAL_LIMIT: nat := 8 * 1024 * 1024
  const MAX_PAGES: nat := 20

  datatype Reject =
    | SnapshotType | SnapshotSchema | SnapshotTaskId | SnapshotCapturedUtc | SnapshotRequestCount
    | RequestType | RequestUrl | RequestEffectiveUrl | RequestMethod | RequestStatus | RequestHeaders
    | RequestContentType | RequestEtag | RequestFetchUtc | RequestBase64 | RequestByteLength
    | RequestRawHash | RequestDecodedHash | RequestPage
    | PageLinkMalformed | PageSequenceIncomplete | AggregateBytes | PageSequence
    | IssueIdentity | CommentIdentity | DuplicateCommentId | CommentsCountMismatch | SpecialCommentIdentity
    | SemanticProjection | ReviewerDrift | Claims

  // ---------------------------------------------------------------- one record

  /** What a record's position makes it: the issue, a page of comments, or the special comment. */
  datatype Place = IssuePlace | PagePlace(page: nat) | CommentPlace

  function Digits(n: nat): string {
    if n < 10 then [(48 + n) as char] else Digits(n / 10) + [(48 + n % 10) as char]
  }

  function PageUrl(page: nat): string {
    "https://api.github.com/repos/shrec/UltrafastSecp256k1/issues/335/comments?per_page=100&page=" + Digits(page)
  }

  function IssueUrl(): string {
    "https://api.github.com/repos/shrec/UltrafastSecp256k1/issues/335"
  }

  function CommentUrl(): string {
    "https://api.github.com/repos/shrec/UltrafastSecp256k1/issues/comments/5066918142"
  }

  function UrlOf(place: Place): string {
    match place
    case IssuePlace => IssueUrl()
    case PagePlace(page) => PageUrl(page)
    case CommentPlace => CommentUrl()
  }

  /** An accepted record: its body, the decoded body, its `link` header, and the hash it states. */
  datatype Checked = Checked(raw: Bytes, body: Json, link: string, rawHash: string)

  predicate SafeHeaders(j: Json) {
    && j.Obj?
    && forall k :: k in j.fields ==>
         k in {"content-type", "etag", "last-modified", "link", "x-github-api-version"} && j.fields[k].Str?
  }

  function HeaderText(headers: Json, key: string): string
    requires SafeHeaders(headers)
  {
    if key in headers.fields then headers.fields[key].s else ""
  }

  predicate Says(j: Json, key: string, value: Json)
    requires j.Obj?
  {
    Equal(Get(j, key), value)
  }

  function CheckBody(lib: Libraries, record: Json, headers: Json, raw: Bytes): Result<Checked, Reject>
    requires record.Obj? && SafeHeaders(headers)
  {
    hide Equal;
    :- Need(|raw| <= BODY_LIMIT, RequestByteLength);
    :- Need(Says(record, "byte_length", Int(|raw|)), RequestByteLength);
    :- Need(Says(record, "raw_sha256", Str(lib.sha256(raw))), RequestRawHash);
    :- Need(lib.isJsonMedia(HeaderText(headers, "content-type")), RequestContentType);
    :- Need(lib.utf8(raw).Some?, RequestDecodedHash);
    var text := lib.utf8(raw).value;
    :- Need(lib.json(text).Some?, RequestDecodedHash);
    :- Need(Says(record, "decoded_utf8_body_sha256", Str(lib.sha256(lib.encode(text)))), RequestDecodedHash);
    Ok(Checked(raw, lib.json(text).value, HeaderText(headers, "link"), lib.sha256(raw)))
  }

  /** The request went to the canonical address of its place and succeeded there. */
  function CheckRequest(record: Json, url: string): Result<Json, Reject>
    requires record.Obj?
  {
    hide Equal;
    :- Need(Says(record, "requested_url", Str(url)), RequestUrl);
    :- Need(Says(record, "effective_url", Str(url)), RequestEffectiveUrl);
    :- Need(Says(record, "method", Str("GET")), RequestMethod);
    :- Need(Says(record, "status", Int(200)), RequestStatus);
    :- Need(SafeHeaders(Get(record, "safe_headers")), RequestHeaders);
    Ok(Get(record, "safe_headers"))
  }

  function VerifyRecord(lib: Libraries, record: Json, place: Place): Result<Checked, Reject> {
    hide Equal;
    hide UrlOf;
    :- Need(record.Obj?, RequestType);
    var headers :- CheckRequest(record, UrlOf(place));
    :- Need(Says(record, "etag", Get(headers, "etag")), RequestEtag);
    :- Need(lib.isUtc(Get(record, "fetch_utc")), RequestFetchUtc);
    :- Need(Get(record, "raw_base64").Str?, RequestBase64);
    var raw := lib.base64(Get(record, "raw_base64").s);
    :- Need(raw.Some?, RequestBase64);
    var checked :- CheckBody(lib, record, headers, raw.value);
    :- Need(if place.PagePlace? then Get(record, "page") == Int(place.page) else "page" !in record.fields, RequestPage);
    Ok(checked)
  }

  // ---------------------------------------------------------------- the page chain

  /** Record 0 is the issue, the last one the special comment, the i-th one in between page i. */
  function PlaceOf(i: nat, total: nat): Place {
    if i == 0 then IssuePlace else if i == total - 1 then CommentPlace else PagePlace(i)
  }

  type Found = seq<Result<Checked, Reject>>

  /** Every record checked at its place. */
  function Check(lib: Libraries, records: seq<Json>): (found: Found)
    ensures |found| == |records|
    ensures forall i :: 0 <= i < |records| ==> found[i] == VerifyRecord(lib, records[i], PlaceOf(i, |records|))
  {
    hide VerifyRecord;
    seq(|records|, i requires 0 <= i < |records| => VerifyRecord(lib, records[i], PlaceOf(i, |records|)))
  }

  /** The body bytes of the first `n` records. */
  function Total(found: Found, n: nat): nat
    requires n <= |found|
  {
    if n == 0 then 0 else Total(found, n - 1) + match found[n - 1] case Ok(c) => |c.raw| case Err(_) => 0
  }

  function NextPage(link: string, page: nat): Result<Option<string>, Links.Malformed> {
    Links.LinkNext(link, PageUrl(page + 1))
  }

  /** Why record `i` is refused, those before it being good. */
  function Fault(found: Found, i: nat): Option<Reject>
    requires i < |found|
  {
    match found[i]
    case Err(e) => Some(e)
    case Ok(c) =>
      if Total(found, i + 1) > TOTAL_LIMIT then Some(AggregateBytes)
      else if !PlaceOf(i, |found|).PagePlace? then None
      else
        match NextPage(c.link, i)
        case Err(_) => Some(PageLinkMalformed)
        case Ok(next) => if next.Some? == (i == |found| - 2) then Some(PageSequenceIncomplete) else None
  }

  /** The first refusal decides. */
  predicate FirstFault(found: Found, code: Reject) {
    exists i :: 0 <= i < |found| && Fault(found, i) == Some(code) && NoFault(found, i)
  }

  predicate NoFault(found: Found, n: nat)
    requires n <= |found|
  {
    forall i :: 0 <= i < n ==> found[i].Ok? && Fault(found, i) == None
  }

  predicate AllOk(found: Found, n: nat)
    requires n <= |found|
  {
    forall i :: 0 <= i < n ==> found[i].Ok?
  }

  /** What the first `n` records hold. */
  function Bodies(found: Found, n: nat): (r: seq<Json>)
    requires n <= |found| && AllOk(found, n)
    ensures |r| == n
  {
    seq(n, i requires 0 <= i < n => assert found[i].Ok?; found[i].value.body)
  }

  function Hashes(found: Found, n: nat): (r: seq<string>)
    requires n <= |found| && AllOk(found, n)
    ensures |r| == n
  {
    seq(n, i requires 0 <= i < n => assert found[i].Ok?; found[i].value.rawHash)
  }

  /** The pages among the first `n` of `total` records. */
  function PagesUpTo(n: nat, total: nat): nat
    requires total >= 3
  {
    if n == 0 then 0 else if n >= total then total - 2 else n - 1
  }

  function Naturals(k: nat): seq<Json> {
    seq(k, i => Int(i + 1))
  }

  datatype Chain = Chain(bodies: seq<Json>, rawHashes: seq<string>, pageHashes: seq<string>, pages: seq<Json>, aggregate: nat)

  /** What the loop has gathered from the first `n` records. */
  function Gathered(found: Found, n: nat): Chain
    requires 3 <= |found| && n <= |found| && AllOk(found, n)
  {
    var hashes := Hashes(found, n);
    var pages := PagesUpTo(n, |found|);
    Chain(Bodies(found, n), hashes, if n == 0 then [] else hashes[1..pages + 1], Naturals(pages), Total(found, n))
  }

  lemma {:induction false} GatherOne(found: Found, i: nat)
    requires 3 <= |found| && i < |found| && AllOk(found, i + 1)
    ensures AllOk(found, i)
    ensures var c, one, page := Gathered(found, i), found[i].value, PlaceOf(i, |found|).PagePlace?;
            Gathered(found, i + 1) ==
            Chain(c.bodies + [one.body], c.rawHashes + [one.rawHash], c.pageHashes + if page then [one.rawHash] else [],
                  c.pages + if page then [Int(i)] else [], c.aggregate + |one.raw|)
  {
    var hashes, pages := Hashes(found, i), PagesUpTo(i, |found|);
    assert Hashes(found, i + 1) == hashes + [found[i].value.rawHash];
    assert Bodies(found, i + 1) == Bodies(found, i) + [found[i].value.body];
    assert PlaceOf(i, |found|).PagePlace? ==> Naturals(pages + 1) == Naturals(pages) + [Int(i)];
  }

  /** The loop over the records. The expected page comes from the page before, never from the record. */
  method VerifyChain(lib: Libraries, records: seq<Json>) returns (r: Result<Chain, Reject>)
    requires |records| >= 3
    ensures r.Ok? <==> NoFault(Check(lib, records), |records|)
    ensures r.Ok? ==> AllOk(Check(lib, records), |records|) && r.value == Gathered(Check(lib, records), |records|)
    ensures r.Err? ==> FirstFault(Check(lib, records), r.error)
  {
    hide VerifyRecord;
    hide NextPage;
    hide Gathered;
    hide PageUrl;
    hide IssueUrl;
    hide CommentUrl;
    hide UrlOf;
    hide Check;
    hide Total;
    hide Links.LinkNext;
    var total := |records|;
    var c := Chain([], [], [], [], 0);
    var priorPage: Option<nat> := None;
    ghost var found := Check(lib, records);
    NothingGathered(found);
    for i := 0 to total
      invariant NoFault(found, i) && AllOk(found, i) && c == Gathered(found, i)
      invariant priorPage == if PagesUpTo(i, total) == 0 then None else Some(PagesUpTo(i, total))
    {
      var place :=
        if i == 0 then IssuePlace
        else if i == total - 1 then CommentPlace
        else PagePlace(if priorPage == None then 1 else priorPage.value + 1);
      var record := VerifyRecord(lib, records[i], place);
      assert record == found[i];
      if record.Err? {
        assert Fault(found, i) == Some(record.error);
        return Err(record.error);
      }
      GatheredTotal(found, i);
      c := c.(aggregate := c.aggregate + |record.value.raw|);
      if c.aggregate > TOTAL_LIMIT {
        assert Fault(found, i) == Some(AggregateBytes);
        return Err(AggregateBytes);
      }
      c := c.(rawHashes := c.rawHashes + [record.value.rawHash]);
      if place.PagePlace? {
        c := c.(pageHashes := c.pageHashes + [record.value.rawHash], pages := c.pages + [Int(place.page)]);
        priorPage := Some(place.page);
        NextPageIs(record.value.link, i);
        var next := Links.ParseLinkNext(record.value.link, PageUrl(place.page + 1));
        if next.Err? {
          assert Fault(found, i) == Some(PageLinkMalformed);
          return Err(PageLinkMalformed);
        }
        if next.value.Some? == (i == total - 2) {
          assert Fault(found, i) == Some(PageSequenceIncomplete);
          return Err(PageSequenceIncomplete);
        }
      }
      c := c.(bodies := c.bodies + [record.value.body]);
      GatherOne(found, i);
    }
    return Ok(c);
  }

  lemma {:induction false} NothingGathered(found: Found)
    requires |found| >= 3
    ensures NoFault(found, 0) && AllOk(found, 0) && Gathered(found, 0) == Chain([], [], [], [], 0)
  {
  }

  lemma {:induction false} GatheredTotal(found: Found, i: nat)
    requires 3 <= |found| && i < |found| && AllOk(found, i) && found[i].Ok?
    ensures Total(found, i + 1) == Gathered(found, i).aggregate + |found[i].value.raw|
  {
  }

  lemma {:induction false} GatheredAll(found: Found)
    requires 3 <= |found| && AllOk(found, |found|)
    ensures var c, n := Gathered(found, |found|), |found|;
            c.bodies == Bodies(found, n) && c.rawHashes == Hashes(found, n) && c.pageHashes == Hashes(found, n)[1..n - 1]
  {
  }

  lemma {:induction false} NextPageIs(link: string, page: nat)
    ensures NextPage(link, page) == Links.LinkNext(link, PageUrl(page + 1))
  {
  }

  /**
   Each record fits its place, the bodies stay within the limit, and every page but the last links to
   the page after it, the last one to none.
   */
  predicate ChainFits(found: Found) {
    && AllOk(found, |found|) && Total(found, |found|) <= TOTAL_LIMIT
    && forall i :: 1 <= i < |found| - 1 ==>
         NextPage(found[i].value.link, i) == Ok(if i < |found| - 2 then Some(PageUrl(i + 1)) else None)
  }

  /** The loop finds no fault exactly in such a chain. */
  lemma {:induction false} ChainExactly(found: Found)
    requires |found| >= 3
    ensures NoFault(found, |found|) <==> ChainFits(found)
  {
    hide NextPage;
    hide PageUrl;
    var n := |found|;
    forall i | 1 <= i < n - 1 && found[i].Ok? ensures NextIsExpected(found[i].value.link, i) {
      NextPageIs(found[i].value.link, i);
    }
    forall i | 0 <= i <= n ensures Total(found, i) <= Total(found, n) {
      TotalGrows(found, i);
    }
    if NoFault(found, n) {
      assert Fault(found, n - 1) == None;
      forall i | 1 <= i < n - 1
        ensures NextPage(found[i].value.link, i) == Ok(if i < n - 2 then Some(PageUrl(i + 1)) else None)
      {
        assert Fault(found, i) == None && NextIsExpected(found[i].value.link, i);
      }
    }
  }

  predicate NextIsExpected(link: string, page: nat) {
    var next := NextPage(link, page);
    next.Ok? && next.value.Some? ==> next.value.value == PageUrl(page + 1)
  }

  lemma {:induction false} TotalGrows(found: Found, n: nat)
    requires n <= |found|
    ensures Total(found, n) <= Total(found, |found|)
    decreases |found| - n
  {
    if n < |found| { TotalGrows(found, n + 1); }
  }

  // ---------------------------------------------------------------- issue and comments

  predicate TextOrNull(j: Json) {
    j.Null? || j.Str?
  }

  function Projection(j: Json, keys: set<string>): Json
    requires j.Obj?
  {
    Obj(map k | k in keys :: Get(j, k))
  }

  function WithUser(j: Json, user: Json): Json
    requires j.Obj?
  {
    Obj(j.fields["user" := user])
  }

  function UserLogin(j: Json): Option<Json>
    requires j.Obj?
  {
    var user := Get(j, "user");
    if user.Obj? && Get(user, "login").Str? then Some(Get(user, "login")) else None
  }

  const ISSUE_FIELDS: set<string> := {"id", "number", "state", "title", "body", "html_url", "repository_url", "comments"}
  const COMMENT_FIELDS: set<string> := {"id", "issue_url", "html_url", "body", "created_at", "updated_at"}

  function SemanticIssue(j: Json): Result<Json, Reject> {
    hide Equal;
    :- Need(j.Obj? && Says(j, "number", Int(335))
            && Says(j, "repository_url", Str("https://api.github.com/repos/shrec/UltrafastSecp256k1")), IssueIdentity);
    :- Need(UserLogin(j).Some?, IssueIdentity);
    :- Need(Get(j, "id").Int? && Get(j, "comments").Int?, IssueIdentity);
    :- Need(Get(j, "state").Str? && Get(j, "title").Str? && Get(j, "html_url").Str?, IssueIdentity);
    :- Need(TextOrNull(Get(j, "body")), IssueIdentity);
    Ok(WithUser(Projection(j, ISSUE_FIELDS),
                UserLogin(j).value))
  }

  function SemanticComment(j: Json, issueUrl: string): Result<Json, Reject> {
    hide Equal;
    :- Need(j.Obj? && Says(j, "issue_url", Str(issueUrl)), CommentIdentity);
    :- Need(UserLogin(j).Some?, CommentIdentity);
    :- Need(Get(j, "id").Int? && Get(j, "html_url").Str? && TextOrNull(Get(j, "body")), CommentIdentity);
    Ok(WithUser(Projection(j, COMMENT_FIELDS), UserLogin(j).value))
  }

  /** A projection keeps the listed fields under their names, and the login of the user. */
  predicate Projects(sem: Json, j: Json, keys: set<string>)
    requires sem.Obj? && j.Obj?
  {
    && sem.fields.Keys == keys + {"user"} && (forall k :: k in keys ==> k in sem.fields && sem.fields[k] == Get(j, k))
    && Get(j, "user").Obj? && sem.fields["user"] == Get(Get(j, "user"), "login") && sem.fields["user"].Str?
  }

  predicate HasLogin(j: Json)
    requires j.Obj?
  {
    Get(j, "user").Obj? && Get(Get(j, "user"), "login").Str?
  }

  /** Issue 335 of the repository, with every field that is used of its type. */
  predicate IsIssue(j: Json) {
    && j.Obj? && IsNumber(Get(j, "number")) && NumberOf(Get(j, "number")) == 335.0
    && Get(j, "repository_url") == Str("https://api.github.com/repos/shrec/UltrafastSecp256k1")
    && HasLogin(j) && Get(j, "id").Int? && Get(j, "comments").Int?
    && Get(j, "state").Str? && Get(j, "title").Str? && Get(j, "html_url").Str? && TextOrNull(Get(j, "body"))
  }

  predicate IsComment(j: Json, issueUrl: string) {
    && j.Obj? && Get(j, "issue_url") == Str(issueUrl) && HasLogin(j)
    && Get(j, "id").Int? && Get(j, "html_url").Str? && TextOrNull(Get(j, "body"))
  }

  /** Exactly issue 335 of the repository is accepted, and then projected faithfully. */
  lemma {:induction false} IssueProjects(j: Json)
    ensures SemanticIssue(j).Ok? <==> IsIssue(j)
    ensures IsIssue(j) ==> SemanticIssue(j).value.Obj? && Projects(SemanticIssue(j).value, j, ISSUE_FIELDS)
    ensures SemanticIssue(j).Err? ==> SemanticIssue(j).error == IssueIdentity
  {
    hide Equal;
    if j.Obj? {
      TextEqual(Get(j, "repository_url"), Str("https://api.github.com/repos/shrec/UltrafastSecp256k1"));
      NumberEqual(Get(j, "number"), 335);
    }
  }

  lemma {:induction false} NumberEqual(j: Json, n: int)
    ensures Equal(j, Int(n)) <==> IsNumber(j) && NumberOf(j) == n as real
  {
  }

  /** Exactly the comments under the given issue's address are accepted, and then projected faithfully. */
  lemma {:induction false} CommentProjects(j: Json, issueUrl: string)
    ensures SemanticComment(j, issueUrl).Ok? <==> IsComment(j, issueUrl)
    ensures IsComment(j, issueUrl) ==>
              SemanticComment(j, issueUrl).value.Obj? && Projects(SemanticComment(j, issueUrl).value, j, COMMENT_FIELDS)
    ensures SemanticComment(j, issueUrl).Err? ==> SemanticComment(j, issueUrl).error == CommentIdentity
  {
    hide Equal;
    if j.Obj? {
      TextEqual(Get(j, "issue_url"), Str(issueUrl));
    }
  }

  /** A comment on the issue, with its id. */
  function CommentOf(j: Json): Result<(int, Json), Reject> {
    match SemanticComment(j, IssueUrl())
    case Err(e) => Err(e)
    case Ok(sem) => Ok((Get(j, "id").n, sem))
  }

  function Other336(): string {
    "https://api.github.com/repos/shrec/UltrafastSecp256k1/issues/336"
  }

  predicate IsSpecial(j: Json)
    requires j.Obj?
  {
    && Says(j, "id", Int(5066918142)) && Says(j, "user", Str("craigraw"))
    && Says(j, "html_url", Str("https://github.com/shrec/UltrafastSecp256k1/issues/336#issuecomment-5066918142"))
  }

  /** All comments of the pages, in order. */
  function Flat(pages: seq<Json>): seq<Json>
    requires AllLists(pages)
  {
    if pages == [] then [] else Flat(pages[..|pages| - 1]) + pages[|pages| - 1].items
  }

  predicate AllLists(pages: seq<Json>) {
    forall i :: 0 <= i < |pages| ==> pages[i].List?
  }

  /** Comments on the issue, with positive and pairwise different ids. */
  predicate CommentsFit(items: seq<Json>) {
    && (forall i :: 0 <= i < |items| ==> CommentOf(items[i]).Ok? && CommentOf(items[i]).value.0 > 0)
    && (forall i, j :: 0 <= i < j < |items| ==> CommentOf(items[i]).value.0 != CommentOf(items[j]).value.0)
  }

  function Comments(items: seq<Json>): (r: seq<Json>)
    requires CommentsFit(items)
    ensures |r| == |items|
  {
    seq(|items|, i requires 0 <= i < |items| => CommentOf(items[i]).value.1)
  }

  function Ids(items: seq<Json>): set<int>
    requires CommentsFit(items)
  {
    set i | 0 <= i < |items| :: CommentOf(items[i]).value.0
  }

  lemma {:induction false} OneMoreComment(items: seq<Json>, item: Json)
    requires CommentsFit(items)
    ensures CommentsFit(items + [item]) <==>
              CommentOf(item).Ok? && CommentOf(item).value.0 > 0 && CommentOf(item).value.0 !in Ids(items)
    ensures CommentsFit(items + [item]) ==>
              && Comments(items + [item]) == Comments(items) + [CommentOf(item).value.1]
              && Ids(items + [item]) == Ids(items) + {CommentOf(item).value.0}
  {
    hide CommentOf;
    var more, n := items + [item], |items|;
    assert more[n] == item && forall i :: 0 <= i < n ==> more[i] == items[i];
    if CommentsFit(more) {
      assert forall i :: 0 <= i < n ==> CommentOf(more[i]).value.0 != CommentOf(more[n]).value.0;
      assert Ids(more) == Ids(items) + {CommentOf(item).value.0};
    }
  }

  lemma {:induction false} PrefixFits(items: seq<Json>, more: seq<Json>)
    requires CommentsFit(items + more)
    ensures CommentsFit(items)
  {
    hide CommentOf;
    var all := items + more;
    assert forall i :: 0 <= i < |items| ==> all[i] == items[i];
  }

  // ---------------------------------------------------------------- the first bad entry

  /** A page that is no list, or an item of one that is. */
  datatype Entry = NoPage | Item(item: Json)

  function ItemsOf(items: seq<Json>): (r: seq<Entry>)
    ensures |r| == |items|
  {
    seq(|items|, i requires 0 <= i < |items| => Item(items[i]))
  }

  /** The entries of all pages in order. */
  function Entries(pages: seq<Json>): seq<Entry> {
    if pages == [] then []
    else
      var last := pages[|pages| - 1];
      Entries(pages[..|pages| - 1]) + if last.List? then ItemsOf(last.items) else [NoPage]
  }

  /** What is wrong with an entry, given those before it. */
  function EntryFault(entries: seq<Entry>, k: nat): Option<Reject>
    requires k < |entries|
  {
    match entries[k]
    case NoPage => Some(SnapshotType)
    case Item(item) =>
      match CommentOf(item)
      case Err(e) => Some(e)
      case Ok(comment) =>
        if comment.0 <= 0 || Repeats(entries[..k], comment.0) then Some(DuplicateCommentId) else None
  }

  predicate Repeats(entries: seq<Entry>, id: int) {
    exists i :: 0 <= i < |entries| && entries[i].Item? && CommentOf(entries[i].item).Ok? && CommentOf(entries[i].item).value.0 == id
  }

  predicate NoBadEntry(entries: seq<Entry>, n: nat)
    requires n <= |entries|
  {
    forall k :: 0 <= k < n ==> EntryFault(entries, k) == None
  }

  /** The first bad entry decides. */
  predicate FirstBadEntry(entries: seq<Entry>, code: Reject) {
    exists k :: 0 <= k < |entries| && EntryFault(entries, k) == Some(code) && NoBadEntry(entries, k)
  }

  /** An entry's fault is a matter of the entries up to it. */
  lemma {:induction false} FaultIsLocal(entries: seq<Entry>, more: seq<Entry>, k: nat)
    requires k < |entries|
    ensures EntryFault(entries + more, k) == EntryFault(entries, k)
  {
    assert (entries + more)[..k] == entries[..k];
  }

  lemma {:induction false} IdsRepeat(items: seq<Json>, id: int)
    requires CommentsFit(items)
    ensures Repeats(ItemsOf(items), id) <==> id in Ids(items)
  {
    hide CommentOf;
    if id in Ids(items) {
      var i :| 0 <= i < |items| && CommentOf(items[i]).value.0 == id;
      assert ItemsOf(items)[i] == Item(items[i]);
    }
  }

  /** Fitting comments are entries without a fault. */
  lemma {:induction false} FittingEntries(items: seq<Json>)
    requires CommentsFit(items)
    ensures NoBadEntry(ItemsOf(items), |items|)
  {
    hide CommentOf;
    var entries := ItemsOf(items);
    forall k | 0 <= k < |items| ensures EntryFault(entries, k) == None {
      assert entries[k] == Item(items[k]);
      forall i | 0 <= i < k ensures entries[..k][i] == Item(items[i]) {
      }
    }
  }

  lemma {:induction false} EntriesOfLists(pages: seq<Json>)
    requires AllLists(pages)
    ensures Entries(pages) == ItemsOf(Flat(pages))
    decreases |pages|
  {
    if pages != [] {
      EntriesOfLists(pages[..|pages| - 1]);
    }
  }

  lemma {:induction false} EntriesPrefix(pages: seq<Json>, p: nat)
    requires p <= |pages|
    ensures Entries(pages[..p]) <= Entries(pages)
    decreases |pages| - p
  {
    if p < |pages| {
      EntriesPrefix(pages, p + 1);
      assert pages[..p + 1][..p] == pages[..p];
    } else {
      assert pages[..p] == pages;
    }
  }

  /** After fitting entries the next one is the first that can be bad. */
  lemma {:induction false} NextIsBad(pages: seq<Json>, good: seq<Json>, bad: Entry, code: Reject)
    requires CommentsFit(good) && ItemsOf(good) + [bad] <= Entries(pages)
    requires EntryFault(ItemsOf(good) + [bad], |good|) == Some(code)
    ensures FirstBadEntry(Entries(pages), code)
  {
    hide CommentsFit;
    hide EntryFault;
    var upto := ItemsOf(good) + [bad];
    var more := Entries(pages)[|upto|..];
    assert Entries(pages) == upto + more;
    FittingEntries(good);
    FaultIsLocal(upto, more, |good|);
    forall k | 0 <= k < |good| ensures EntryFault(Entries(pages), k) == None {
      FaultIsLocal(upto, more, k);
      FaultIsLocal(ItemsOf(good), [bad], k);
    }
  }

  lemma {:induction false} PageIsBad(pages: seq<Json>, p: nat)
    requires p < |pages| && AllLists(pages[..p]) && CommentsFit(Flat(pages[..p])) && !pages[p].List?
    ensures FirstBadEntry(Entries(pages), SnapshotType)
  {
    hide CommentsFit;
    hide FirstBadEntry;
    EntriesOfLists(pages[..p]);
    EntriesPrefix(pages, p + 1);
    assert pages[..p + 1][..p] == pages[..p];
    NextIsBad(pages, Flat(pages[..p]), NoPage, SnapshotType);
  }

  /** The code for an item that does not go with the ones before it. */
  lemma {:induction false} ItemIsBad(pages: seq<Json>, p: nat, q: nat, code: Reject)
    requires p < |pages| && AllLists(pages[..p]) && pages[p].List? && q < |pages[p].items|
    requires CommentsFit(Flat(pages[..p]) + pages[p].items[..q])
    requires var comment := CommentOf(pages[p].items[q]);
             if comment.Err? then code == comment.error
             else code == DuplicateCommentId && (comment.value.0 <= 0 || comment.value.0 in Ids(Flat(pages[..p]) + pages[p].items[..q]))
    ensures FirstBadEntry(Entries(pages), code)
  {
    hide CommentsFit;
    hide FirstBadEntry;
    hide CommentOf;
    hide Ids;
    hide Repeats;
    var items := pages[p].items;
    var good := Flat(pages[..p]) + items[..q];
    EntriesOfLists(pages[..p]);
    EntriesPrefix(pages, p + 1);
    assert pages[..p + 1][..p] == pages[..p];
    assert ItemsOf(Flat(pages[..p])) + ItemsOf(items) == Entries(pages[..p + 1]);
    assert ItemsOf(good) + [Item(items[q])] <= ItemsOf(Flat(pages[..p])) + ItemsOf(items);
    var upto := ItemsOf(good) + [Item(items[q])];
    assert upto[..|good|] == ItemsOf(good) && upto[|good|] == Item(items[q]);
    if CommentOf(items[q]).Ok? {
      IdsRepeat(good, CommentOf(items[q]).value.0);
    }
    NextIsBad(pages, good, Item(items[q]), code);
  }

  /** The loop over the pages' comments. The first bad entry is reported. */
  method CollectComments(pages: seq<Json>) returns (r: Result<seq<Json>, Reject>)
    ensures r.Ok? <==> AllLists(pages) && CommentsFit(Flat(pages))
    ensures r.Ok? ==> r.value == Comments(Flat(pages))
    ensures r.Err? ==> FirstBadEntry(Entries(pages), r.error)
  {
    hide CommentOf;
    hide CommentsFit;
    hide Comments;
    hide Ids;
    hide Entries;
    hide FirstBadEntry;
    var comments: seq<Json>, seen: set<int> := [], {};
    NoComments();
    for p := 0 to |pages|
      invariant AllLists(pages[..p]) && CommentsFit(Flat(pages[..p]))
      invariant comments == Comments(Flat(pages[..p])) && seen == Ids(Flat(pages[..p]))
    {
      if !pages[p].List? {
        PageIsBad(pages, p);
        return Err(SnapshotType);
      }
      assert pages[..p + 1][..p] == pages[..p];
      var items := pages[p].items;
      ghost var front := Flat(pages[..p]);
      assert front + items[..0] == front;
      for q := 0 to |items|
        invariant CommentsFit(front + items[..q])
        invariant comments == Comments(front + items[..q]) && seen == Ids(front + items[..q])
      {
        OneMoreComment(front + items[..q], items[q]);
        assert front + items[..q] + [items[q]] == front + items[..q + 1];
        var comment := CommentOf(items[q]);
        if comment.Err? {
          LateFailure(pages, p, q);
          ItemIsBad(pages, p, q, comment.error);
          return Err(comment.error);
        }
        var id := comment.value.0;
        if id <= 0 || id in seen {
          LateFailure(pages, p, q);
          ItemIsBad(pages, p, q, DuplicateCommentId);
          return Err(DuplicateCommentId);
        }
        seen := seen + {id};
        comments := comments + [comment.value.1];
      }
      assert items[..|items|] == items;
      assert Flat(pages[..p + 1]) == front + items;
    }
    assert pages[..|pages|] == pages;
    return Ok(comments);
  }

  lemma {:induction false} NoComments()
    ensures CommentsFit([]) && Comments([]) == [] && Ids([]) == {}
  {
  }

  lemma {:induction false} FlatPrefix(pages: seq<Json>, p: nat)
    requires AllLists(pages) && p <= |pages|
    ensures Flat(pages[..p]) <= Flat(pages)
    decreases |pages| - p
  {
    if p < |pages| {
      FlatPrefix(pages, p + 1);
      assert pages[..p + 1][..p] == pages[..p];
    } else {
      assert pages[..p] == pages;
    }
  }

  /** A comment that breaks the list breaks the whole. */
  lemma {:induction false} LateFailure(pages: seq<Json>, p: nat, q: nat)
    requires p < |pages| && AllLists(pages[..p]) && pages[p].List? && q < |pages[p].items|
    requires !CommentsFit(Flat(pages[..p]) + pages[p].items[..q + 1])
    ensures !(AllLists(pages) && CommentsFit(Flat(pages)))
  {
    hide CommentsFit;
    if AllLists(pages) && CommentsFit(Flat(pages)) {
      FlatPrefix(pages, p + 1);
      assert pages[..p + 1][..p] == pages[..p];
      var upto := Flat(pages[..p]) + pages[p].items[..q + 1];
      assert upto <= Flat(pages[..p + 1]);
      assert Flat(pages) == upto + Flat(pages)[|upto|..];
      PrefixFits(upto, Flat(pages)[|upto|..]);
    }
  }

  // ---------------------------------------------------------------- the whole snapshot

  function ExpectedClaims(): Json {
    Obj(map["issue_closed" := Bool(false), "m5_inferred" := Bool(false),
            "note" := Str("Public authority capture only; no closure or release inference.")])
  }

  function Rebuilt(issue: Json, comments: seq<Json>, special: Json): Json {
    Obj(map["issue_335" := issue, "comments_335_ordered" := List(comments), "issue_336_comment" := special])
  }

  /** The snapshot's own header, and its records if their number is right. */
  function CheckOpening(lib: Libraries, snapshot: Json): Result<seq<Json>, Reject> {
    hide Equal;
    :- Need(snapshot.Obj?, SnapshotType);
    :- Need(Says(snapshot, "schema", Str("gh335.bounded-public-authority.v1")), SnapshotSchema);
    :- Need(Says(snapshot, "task_id", Str("GH335_BOUNDED_AUTHORITY_CAPTURE_CODEX_RESEARCH_439")), SnapshotTaskId);
    :- Need(lib.isUtc(Get(snapshot, "captured_utc")), SnapshotCapturedUtc);
    var records := Get(snapshot, "ordered_requests");
    :- Need(records.List? && 3 <= |records.items| <= MAX_PAGES + 2, SnapshotRequestCount);
    Ok(records.items)
  }

  /** What the snapshot says about itself agrees with what was rebuilt from the bodies. */
  function CheckClosing(lib: Libraries, snapshot: Json, issue: Json, comments: seq<Json>, special: Json): Verdict<Reject>
    requires snapshot.Obj?
  {
    if !Says(snapshot, "semantic", Rebuilt(issue, comments, special)) then Fail(SemanticProjection)
    else if !Says(snapshot, "reviewer_hint_drift", lib.drift(issue, |comments|, special)) then Fail(ReviewerDrift)
    else if !Says(snapshot, "claims", ExpectedClaims()) then Fail(Claims)
    else Pass
  }

  /** The accumulated totals and page list are the ones stated. */
  predicate StatesTotals(snapshot: Json, chain: Chain)
    requires snapshot.Obj?
  {
    hide Equal;
    Says(snapshot, "aggregate_bytes", Int(chain.aggregate)) && Says(snapshot, "page_sequence", List(chain.pages))
  }

  /** Issue, comments on all pages, and special comment; as many comments as the issue counts. */
  predicate StoryFits(lib: Libraries, snapshot: Json, bodies: seq<Json>)
    requires snapshot.Obj? && |bodies| >= 3
  {
    hide SemanticIssue;
    hide SemanticComment;
    hide CommentOf;
    hide IsSpecial;
    hide CheckClosing;
    hide Other336;
    var pages := bodies[1..|bodies| - 1];
    var issue, special := SemanticIssue(bodies[0]), SemanticComment(bodies[|bodies| - 1], Other336());
    && bodies[0].Obj? && issue.Ok? && special.Ok? && special.value.Obj? && IsSpecial(special.value)
    && AllLists(pages) && CommentsFit(Flat(pages)) && Get(bodies[0], "comments") == Int(|Flat(pages)|)
    && CheckClosing(lib, snapshot, issue.value, Comments(Flat(pages)), special.value).Pass?
  }

  /** What the records must be. */
  predicate RecordsFit(lib: Libraries, snapshot: Json, found: Found)
    requires snapshot.Obj?
  {
    hide NextPage;
    hide StoryFits;
    hide StatesTotals;
    && |found| >= 3 && ChainFits(found)
    && StatesTotals(snapshot, Gathered(found, |found|)) && StoryFits(lib, snapshot, Bodies(found, |found|))
  }

  /** What an accepted snapshot is. */
  predicate SnapshotFits(lib: Libraries, snapshot: Json) {
    hide CheckOpening;
    hide Check;
    hide RecordsFit;
    CheckOpening(lib, snapshot).Ok? && snapshot.Obj? && RecordsFit(lib, snapshot, Check(lib, CheckOpening(lib, snapshot).value))
  }

  /** The hashes of all records, and those of the pages. */
  function StatedHashes(lib: Libraries, snapshot: Json): (seq<string>, seq<string>)
    requires SnapshotFits(lib, snapshot)
  {
    hide CheckOpening;
    hide Check;
    hide NextPage;
    hide StoryFits;
    hide StatesTotals;
    var found := Check(lib, CheckOpening(lib, snapshot).value);
    (Hashes(found, |found|), Hashes(found, |found|)[1..|found| - 1])
  }

  /** Why the story is refused: the first of its parts, in their order, that does not fit. */
  predicate StoryError(lib: Libraries, snapshot: Json, bodies: seq<Json>, code: Reject)
    requires snapshot.Obj? && |bodies| >= 3
  {
    hide SemanticIssue;
    hide SemanticComment;
    hide CommentOf;
    hide IsSpecial;
    hide CheckClosing;
    hide Other336;
    hide FirstBadEntry;
    var pages := bodies[1..|bodies| - 1];
    var issue, special := SemanticIssue(bodies[0]), SemanticComment(bodies[|bodies| - 1], Other336());
    if issue.Err? then code == issue.error
    else if !(AllLists(pages) && CommentsFit(Flat(pages))) then FirstBadEntry(Entries(pages), code)
    else if !(bodies[0].Obj? && Get(bodies[0], "comments") == Int(|Flat(pages)|)) then code == CommentsCountMismatch
    else if special.Err? then code == special.error
    else if !(special.value.Obj? && IsSpecial(special.value)) then code == SpecialCommentIdentity
    else CheckClosing(lib, snapshot, issue.value, Comments(Flat(pages)), special.value) == Fail(code)
  }

  method VerifyStory(lib: Libraries, snapshot: Json, bodies: seq<Json>) returns (r: Verdict<Reject>)
    requires snapshot.Obj? && |bodies| >= 3
    ensures r.Pass? <==> StoryFits(lib, snapshot, bodies)
    ensures r.Fail? ==> StoryError(lib, snapshot, bodies, r.error)
  {
    hide FirstBadEntry;
    hide Entries;
    hide CommentOf;
    hide SemanticIssue;
    hide SemanticComment;
    hide CommentsFit;
    hide Comments;
    hide CheckClosing;
    hide IsSpecial;
    var issue := SemanticIssue(bodies[0]);
    if issue.Err? {
      return Fail(issue.error);
    }
    IssueCounts(bodies[0]);
    var pages := bodies[1..|bodies| - 1];
    var comments := CollectComments(pages);
    if comments.Err? {
      return Fail(comments.error);
    }
    var counted := Get(bodies[0], "comments");
    if !(counted.Int? && counted.n >= 0 && |comments.value| == counted.n) {
      return Fail(CommentsCountMismatch);
    }
    var special := SemanticComment(bodies[|bodies| - 1], Other336());
    if special.Err? {
      return Fail(special.error);
    }
    if !special.value.Obj? || !IsSpecial(special.value) {
      return Fail(SpecialCommentIdentity);
    }
    r := CheckClosing(lib, snapshot, issue.value, comments.value, special.value);
  }

  lemma {:induction false} IssueCounts(j: Json)
    ensures SemanticIssue(j).Ok? ==> j.Obj? && SemanticIssue(j).value.Obj? && Get(SemanticIssue(j).value, "comments") == Get(j, "comments")
  {
  }

  /** Why the records are refused: chain, totals and story, in this order. */
  predicate RecordsError(lib: Libraries, snapshot: Json, found: Found, code: Reject)
    requires snapshot.Obj? && |found| >= 3
  {
    hide NextPage;
    hide StoryError;
    hide Says;
    hide FirstFault;
    if !ChainFits(found) then FirstFault(found, code)
    else if !Says(snapshot, "aggregate_bytes", Int(Gathered(found, |found|).aggregate)) then code == AggregateBytes
    else if !Says(snapshot, "page_sequence", List(Gathered(found, |found|).pages)) then code == PageSequence
    else StoryError(lib, snapshot, Bodies(found, |found|), code)
  }

  /** Why the snapshot is refused. */
  predicate SnapshotError(lib: Libraries, snapshot: Json, code: Reject) {
    hide CheckOpening;
    hide Check;
    hide RecordsError;
    var opening := CheckOpening(lib, snapshot);
    if opening.Err? then code == opening.error
    else snapshot.Obj? && |opening.value| >= 3 && RecordsError(lib, snapshot, Check(lib, opening.value), code)
  }

  /**
   Accepts exactly what fits, and returns the hash of every body and those of the pages. Otherwise it
   reports the first defect.
   */
  method VerifySnapshot(lib: Libraries, snapshot: Json) returns (r: Result<(seq<string>, seq<string>), Reject>)
    ensures r.Ok? <==> SnapshotFits(lib, snapshot)
    ensures r.Ok? ==> r.value == StatedHashes(lib, snapshot)
    ensures r.Err? ==> SnapshotError(lib, snapshot, r.error)
  {
    hide *;
    var opening := CheckOpening(lib, snapshot);
    if opening.Err? {
      OpeningFails(lib, snapshot);
      return Err(opening.error);
    }
    OpeningIsLong(lib, snapshot);
    RecordsDecide(lib, snapshot, opening.value);
    var chain := VerifyChain(lib, opening.value);
    ghost var found := Check(lib, opening.value);
    ChainExactly(found);
    if chain.Err? {
      ChainFails(lib, snapshot, found, chain.error);
      return Err(chain.error);
    }
    TotalsAndStory(lib, snapshot, found);
    GatheredAll(found);
    if !Says(snapshot, "aggregate_bytes", Int(chain.value.aggregate)) {
      return Err(AggregateBytes);
    }
    if !Says(snapshot, "page_sequence", List(chain.value.pages)) {
      return Err(PageSequence);
    }
    var story := VerifyStory(lib, snapshot, chain.value.bodies);
    if story.Fail? {
      return Err(story.error);
    }
    HashesStated(lib, snapshot, found);
    return Ok((chain.value.rawHashes, chain.value.pageHashes));
  }

  lemma {:induction false} OpeningFails(lib: Libraries, snapshot: Json)
    requires CheckOpening(lib, snapshot).Err?
    ensures !SnapshotFits(lib, snapshot) && SnapshotError(lib, snapshot, CheckOpening(lib, snapshot).error)
  {
    hide CheckOpening;
  }

  /** After a good opening the records decide. */
  lemma {:induction false} RecordsDecide(lib: Libraries, snapshot: Json, records: seq<Json>)
    requires CheckOpening(lib, snapshot) == Ok(records) && snapshot.Obj? && |records| >= 3
    ensures SnapshotFits(lib, snapshot) <==> RecordsFit(lib, snapshot, Check(lib, records))
    ensures forall code :: SnapshotError(lib, snapshot, code) <==> RecordsError(lib, snapshot, Check(lib, records), code)
  {
    hide CheckOpening;
    hide Check;
    hide RecordsFit;
    hide RecordsError;
  }

  lemma {:induction false} HashesStated(lib: Libraries, snapshot: Json, found: Found)
    requires SnapshotFits(lib, snapshot) && CheckOpening(lib, snapshot).Ok? && found == Check(lib, CheckOpening(lib, snapshot).value)
    requires |found| >= 3 && AllOk(found, |found|)
    ensures StatedHashes(lib, snapshot) == (Hashes(found, |found|), Hashes(found, |found|)[1..|found| - 1])
  {
    hide CheckOpening;
    hide Check;
    hide SnapshotFits;
    hide AllOk;
    hide Hashes;
    hide VerifyRecord;
  }

  lemma {:induction false} ChainFails(lib: Libraries, snapshot: Json, found: Found, code: Reject)
    requires snapshot.Obj? && |found| >= 3 && !ChainFits(found) && FirstFault(found, code)
    ensures !RecordsFit(lib, snapshot, found) && RecordsError(lib, snapshot, found, code)
  {
    hide ChainFits;
    hide FirstFault;
  }

  /** With a good chain, the totals and the story decide. */
  lemma {:induction false} TotalsAndStory(lib: Libraries, snapshot: Json, found: Found)
    requires snapshot.Obj? && |found| >= 3 && ChainFits(found)
    ensures AllOk(found, |found|)
    ensures var chain := Gathered(found, |found|);
            var bytes := Says(snapshot, "aggregate_bytes", Int(chain.aggregate));
            var pages := Says(snapshot, "page_sequence", List(chain.pages));
            && (RecordsFit(lib, snapshot, found) <==> bytes && pages && StoryFits(lib, snapshot, Bodies(found, |found|)))
            && (forall code :: RecordsError(lib, snapshot, found, code) <==>
                  if !bytes then code == AggregateBytes
                  else if !pages then code == PageSequence
                  else StoryError(lib, snapshot, Bodies(found, |found|), code))
  {
    hide NextPage;
    hide StoryFits;
    hide StoryError;
    hide Says;
    hide FirstFault;
  }

  lemma {:induction false} OpeningIsLong(lib: Libraries, snapshot: Json)
    ensures CheckOpening(lib, snapshot).Ok? ==> snapshot.Obj? && 3 <= |CheckOpening(lib, snapshot).value| <= MAX_PAGES + 2
  {
  }

  // ---------------------------------------------------------------- what acceptance means

  /**
   The stated page list is compared loosely: it is accepted exactly if it is a list of as many numbers
   as there are pages, the i-th of value i, be they integers, floats or, for page 1, `true`.
   */
  lemma {:induction false} PageSequenceExactly(j: Json, k: nat)
    ensures Equal(j, List(Naturals(k))) <==>
              && j.List? && |j.items| == k
              && forall i :: 0 <= i < k ==> IsNumber(j.items[i]) && NumberOf(j.items[i]) == (i + 1) as real
  {
    var pages := Naturals(k);
    if j.List? && |j.items| == k {
      forall i | 0 <= i < k ensures Equal(j.items[i], pages[i]) <==> IsNumber(j.items[i]) && NumberOf(j.items[i]) == (i + 1) as real {
      }
    }
  }

  /** For two pages the list `[true, 2.0]` passes. */
  lemma {:induction false} LoosePageSequence()
    ensures Equal(List([Bool(true), Real(2.0)]), List(Naturals(2)))
  {
    PageSequenceExactly(List([Bool(true), Real(2.0)]), 2);
  }

  /** Strict UTF-8 decoding loses nothing. */
  ghost predicate Lawful(lib: Libraries) {
    forall raw, text :: lib.utf8(raw) == Some(text) ==> lib.encode(text) == raw
  }

  /** The record says it asked this address for an answer and got it. */
  predicate RequestIs(record: Json, url: string)
    requires record.Obj?
  {
    && Get(record, "requested_url") == Get(record, "effective_url") == Str(url) && Get(record, "method") == Str("GET")
    && IsNumber(Get(record, "status")) && NumberOf(Get(record, "status")) == 200.0
    && SafeHeaders(Get(record, "safe_headers"))
  }

  /** The time, the tag and the page number. */
  predicate DetailsAre(lib: Libraries, record: Json, place: Place)
    requires record.Obj? && SafeHeaders(Get(record, "safe_headers"))
  {
    && lib.isUtc(Get(record, "fetch_utc")) && Get(record, "etag") == Get(Get(record, "safe_headers"), "etag")
    && (if place.PagePlace? then Get(record, "page") == Int(place.page) else "page" !in record.fields)
  }

  /** One body: its length, its one hash stated twice, and its one decoding. */
  predicate BodyIs(lib: Libraries, record: Json, headers: Json, c: Checked)
    requires record.Obj? && SafeHeaders(headers)
  {
    && |c.raw| <= BODY_LIMIT && Equal(Get(record, "byte_length"), Int(|c.raw|))
    && c.rawHash == lib.sha256(c.raw)
    && Get(record, "raw_sha256") == Get(record, "decoded_utf8_body_sha256") == Str(c.rawHash)
    && lib.utf8(c.raw).Some? && lib.json(lib.utf8(c.raw).value) == Some(c.body)
    && lib.isJsonMedia(HeaderText(headers, "content-type")) && c.link == HeaderText(headers, "link")
  }

  lemma {:induction false} TextEqual(j: Json, t: Json)
    requires t.Str? || t.Null?
    ensures Equal(j, t) <==> j == t
  {
  }

  lemma {:induction false} RequestExactly(record: Json, url: string)
    requires record.Obj?
    ensures CheckRequest(record, url).Ok? <==> RequestIs(record, url)
    ensures CheckRequest(record, url).Ok? ==> CheckRequest(record, url).value == Get(record, "safe_headers")
  {
    hide Equal;
    hide SafeHeaders;
    TextEqual(Get(record, "requested_url"), Str(url));
    TextEqual(Get(record, "effective_url"), Str(url));
    TextEqual(Get(record, "method"), Str("GET"));
    StatusEqual(Get(record, "status"));
  }

  lemma {:induction false} StatusEqual(j: Json)
    ensures Equal(j, Int(200)) <==> IsNumber(j) && NumberOf(j) == 200.0
  {
  }

  lemma {:induction false} BodyExactly(lib: Libraries, record: Json, headers: Json, raw: Bytes, c: Checked)
    requires Lawful(lib) && record.Obj? && SafeHeaders(headers)
    ensures CheckBody(lib, record, headers, raw) == Ok(c) <==> c.raw == raw && BodyIs(lib, record, headers, c)
  {
    hide Equal;
    hide SafeHeaders;
    hide HeaderText;
    TextEqual(Get(record, "raw_sha256"), Str(lib.sha256(raw)));
    if lib.utf8(raw).Some? {
      assert lib.encode(lib.utf8(raw).value) == raw;
      TextEqual(Get(record, "decoded_utf8_body_sha256"), Str(lib.sha256(raw)));
    }
  }

  /**
   A record is accepted exactly if it was fetched from the address of its place, both its hashes are
   the hash of its one body within the limit, and that body is valid JSON under a JSON media type.
   */
  lemma {:induction false} RecordExactly(lib: Libraries, record: Json, place: Place, c: Checked)
    requires Lawful(lib)
    ensures VerifyRecord(lib, record, place) == Ok(c) <==>
              && record.Obj? && RequestIs(record, UrlOf(place)) && DetailsAre(lib, record, place)
              && Get(record, "raw_base64").Str? && lib.base64(Get(record, "raw_base64").s) == Some(c.raw)
              && BodyIs(lib, record, Get(record, "safe_headers"), c)
  {
    hide UrlOf;
    hide Equal;
    hide CheckRequest;
    hide CheckBody;
    hide BodyIs;
    if record.Obj? {
      RequestExactly(record, UrlOf(place));
      var headers, raw := Get(record, "safe_headers"), Get(record, "raw_base64");
      if RequestIs(record, UrlOf(place)) {
        TextEqual(Get(record, "etag"), Get(headers, "etag"));
        if raw.Str? && lib.base64(raw.s).Some? {
          BodyExactly(lib, record, headers, lib.base64(raw.s).value, c);
        }
      }
    }
  }
}
