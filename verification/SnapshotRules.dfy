/**
 The rules of a captured snapshot, written down as one list in the order in which they are checked:
 what must hold, and the code that is reported if it is the first that does not.
 */
module SnapshotRules {
  import opened Basics
  import opened Json
  import opened Snapshot
  import Links

  // ---------------------------------------------------------------- lists of rules

  datatype Rule = Rule(holds: bool, code: Reject)

  /** The code of the first rule that does not hold. */
  function FirstBroken(rules: seq<Rule>): Option<Reject> {
    if rules == [] then None
    else if rules[0].holds then FirstBroken(rules[1..])
    else Some(rules[0].code)
  }

  predicate BrokenAt(rules: seq<Rule>, k: nat) {
    k < |rules| && !rules[k].holds && forall i :: 0 <= i < k ==> rules[i].holds
  }

  /** No rule is broken, or there is a first one that is. */
  lemma {:induction false} FirstBrokenExactly(rules: seq<Rule>) returns (k: nat)
    ensures FirstBroken(rules) == None <==> forall i :: 0 <= i < |rules| ==> rules[i].holds
    ensures FirstBroken(rules).Some? ==> BrokenAt(rules, k) && FirstBroken(rules) == Some(rules[k].code)
  {
    k := 0;
    if rules != [] && rules[0].holds {
      k := FirstBrokenExactly(rules[1..]);
      k := k + 1;
      assert forall i :: 1 <= i < |rules| ==> rules[i] == rules[1..][i - 1];
    }
  }

  lemma {:induction false} Holding(rules: seq<Rule>, k: nat)
    requires k < |rules|
    ensures FirstBroken(rules) == None ==> rules[k].holds
    ensures rules[k].holds || (exists i :: 0 <= i < k && !rules[i].holds) || FirstBroken(rules) == Some(rules[k].code)
  {
    var first := FirstBrokenExactly(rules);
    if !rules[k].holds && !(exists i :: 0 <= i < k && !rules[i].holds) {
      assert FirstBroken(rules) != None;
      assert BrokenAt(rules, k);
      BrokenDecides(rules, k);
    }
  }

  lemma {:induction false} BrokenDecides(rules: seq<Rule>, k: nat)
    requires BrokenAt(rules, k)
    ensures FirstBroken(rules) == Some(rules[k].code)
  {
    var first := FirstBrokenExactly(rules);
    assert !rules[k].holds;
    assert first == k;
  }

  function OrElse(a: Option<Reject>, b: Option<Reject>): Option<Reject> {
    if a.Some? then a else b
  }

  lemma {:induction false} Joined(a: seq<Rule>, b: seq<Rule>)
    ensures FirstBroken(a + b) == OrElse(FirstBroken(a), FirstBroken(b))
  {
    if a == [] {
      assert a + b == b;
    } else {
      assert (a + b)[1..] == a[1..] + b;
      Joined(a[1..], b);
    }
  }

  // ---------------------------------------------------------------- what the rules speak of

  /** The value of a key, or null. */
  function Field(j: Json, key: string): Json {
    if j.Obj? && key in j.fields then j.fields[key] else Null
  }

  predicate IsValue(j: Json, n: int) {
    IsNumber(j) && NumberOf(j) == n as real
  }

  function RawOf(lib: Libraries, record: Json): Bytes {
    var text := Field(record, "raw_base64");
    if text.Str? && lib.base64(text.s).Some? then lib.base64(text.s).value else []
  }

  function TextOf(lib: Libraries, record: Json): string {
    var text := lib.utf8(RawOf(lib, record));
    if text.Some? then text.value else ""
  }

  function BodyOf(lib: Libraries, record: Json): Json {
    var body := lib.json(TextOf(lib, record));
    if body.Some? then body.value else Null
  }

  /** A response header, or the empty text. */
  function HeaderOf(record: Json, key: string): string {
    var header := Field(Field(record, "safe_headers"), key);
    if header.Str? then header.s else ""
  }

  // ---------------------------------------------------------------- one record

  function RequestRules(record: Json, url: string): seq<Rule> {
    [Rule(Field(record, "requested_url") == Str(url), RequestUrl),
     Rule(Field(record, "effective_url") == Str(url), RequestEffectiveUrl),
     Rule(Field(record, "method") == Str("GET"), RequestMethod),
     Rule(IsValue(Field(record, "status"), 200), RequestStatus),
     Rule(HeadersAreSafe(Field(record, "safe_headers")), RequestHeaders)]
  }

  predicate HeadersAreSafe(headers: Json) {
    && headers.Obj?
    && forall k :: k in headers.fields ==>
         headers.fields[k].Str? && (k == "content-type" || k == "etag" || k == "last-modified" || k == "link" || k == "x-github-api-version")
  }

  function DetailRules(lib: Libraries, record: Json): seq<Rule> {
    [Rule(Field(record, "etag") == Field(Field(record, "safe_headers"), "etag"), RequestEtag),
     Rule(lib.isUtc(Field(record, "fetch_utc")), RequestFetchUtc),
     Rule(Field(record, "raw_base64").Str?, RequestBase64),
     Rule(Field(record, "raw_base64").Str? && lib.base64(Field(record, "raw_base64").s).Some?, RequestBase64)]
  }

  function BodyRules(lib: Libraries, record: Json): seq<Rule> {
    [Rule(|RawOf(lib, record)| <= 2_097_152, RequestByteLength),
     Rule(IsValue(Field(record, "byte_length"), |RawOf(lib, record)|), RequestByteLength),
     Rule(Field(record, "raw_sha256") == Str(lib.sha256(RawOf(lib, record))), RequestRawHash),
     Rule(lib.isJsonMedia(HeaderOf(record, "content-type")), RequestContentType),
     Rule(lib.utf8(RawOf(lib, record)).Some?, RequestDecodedHash),
     Rule(lib.json(TextOf(lib, record)).Some?, RequestDecodedHash),
     Rule(Field(record, "decoded_utf8_body_sha256") == Str(lib.sha256(lib.encode(TextOf(lib, record)))), RequestDecodedHash)]
  }

  /** A page states its number, the other records none. */
  function PageRules(record: Json, page: Option<nat>): seq<Rule> {
    [Rule(if page.Some? then Field(record, "page") == Int(page.value) else record.Obj? && "page" !in record.fields, RequestPage)]
  }

  function RecordRules(lib: Libraries, record: Json, url: string, page: Option<nat>): seq<Rule> {
    [Rule(record.Obj?, RequestType)] + RequestRules(record, url) + DetailRules(lib, record) + BodyRules(lib, record) + PageRules(record, page)
  }

  lemma {:induction false} RequestByRules(record: Json, url: string)
    requires record.Obj?
    ensures match CheckRequest(record, url)
            case Err(e) => FirstBroken(RequestRules(record, url)) == Some(e)
            case Ok(headers) => FirstBroken(RequestRules(record, url)) == None && headers == Field(record, "safe_headers") && SafeHeaders(headers)
  {
    hide Equal;
    hide FirstBroken;
    TextEqual(Get(record, "requested_url"), Str(url));
    TextEqual(Get(record, "effective_url"), Str(url));
    TextEqual(Get(record, "method"), Str("GET"));
    NumberEqual(Get(record, "status"), 200);
    var rules := RequestRules(record, url);
    var k := FirstBrokenExactly(rules);
    Holding(rules, 0);
    Holding(rules, 1);
    Holding(rules, 2);
    Holding(rules, 3);
    Holding(rules, 4);
  }

  lemma {:induction false} BodyByRules(lib: Libraries, record: Json)
    requires record.Obj? && SafeHeaders(Field(record, "safe_headers"))
    requires Field(record, "raw_base64").Str? && lib.base64(Field(record, "raw_base64").s).Some?
    ensures match CheckBody(lib, record, Field(record, "safe_headers"), RawOf(lib, record))
            case Err(e) => FirstBroken(BodyRules(lib, record)) == Some(e)
            case Ok(c) => && FirstBroken(BodyRules(lib, record)) == None && c.raw == RawOf(lib, record) && c.body == BodyOf(lib, record)
                          && c.link == HeaderOf(record, "link") && c.rawHash == lib.sha256(RawOf(lib, record))
  {
    hide Equal;
    hide FirstBroken;
    hide SafeHeaders;
    HeadersRead(record, "content-type");
    HeadersRead(record, "link");
    TextEqual(Get(record, "raw_sha256"), Str(lib.sha256(RawOf(lib, record))));
    TextEqual(Get(record, "decoded_utf8_body_sha256"), Str(lib.sha256(lib.encode(TextOf(lib, record)))));
    NumberEqual(Get(record, "byte_length"), |RawOf(lib, record)|);
    var rules := BodyRules(lib, record);
    var k := FirstBrokenExactly(rules);
    Holding(rules, 0);
    Holding(rules, 1);
    Holding(rules, 2);
    Holding(rules, 3);
    Holding(rules, 4);
    Holding(rules, 5);
    Holding(rules, 6);
  }

  lemma {:induction false} HeadersRead(record: Json, key: string)
    requires SafeHeaders(Field(record, "safe_headers"))
    ensures HeaderText(Field(record, "safe_headers"), key) == HeaderOf(record, key)
  {
  }

  lemma {:induction false} RecordSplits(lib: Libraries, record: Json, url: string, page: Option<nat>)
    ensures FirstBroken(RecordRules(lib, record, url, page)) ==
              if !record.Obj? then Some(RequestType)
              else OrElse(FirstBroken(RequestRules(record, url)),
                   OrElse(FirstBroken(DetailRules(lib, record)),
                   OrElse(FirstBroken(BodyRules(lib, record)), FirstBroken(PageRules(record, page)))))
  {
    hide RequestRules;
    hide DetailRules;
    hide BodyRules;
    hide PageRules;
    var request, detail, body, pages := RequestRules(record, url), DetailRules(lib, record), BodyRules(lib, record), PageRules(record, page);
    var one := [Rule(record.Obj?, RequestType)];
    assert one[1..] == [];
    Joined(one + request + detail + body, pages);
    Joined(one + request + detail, body);
    Joined(one + request, detail);
    Joined(one, request);
  }

  /** What a good record is checked to hold, or why it is bad. */
  predicate RecordSays(lib: Libraries, record: Json, r: Result<Checked, Reject>, broken: Option<Reject>) {
    match r
    case Err(e) => broken == Some(e)
    case Ok(c) => && broken == None && c.raw == RawOf(lib, record) && c.body == BodyOf(lib, record)
                  && c.link == HeaderOf(record, "link") && c.rawHash == lib.sha256(RawOf(lib, record))
  }

  lemma {:induction false} RecordByRules(lib: Libraries, record: Json, place: Place, url: string, page: Option<nat>)
    requires url == UrlOf(place) && page == if place.PagePlace? then Some(place.page) else None
    ensures RecordSays(lib, record, VerifyRecord(lib, record, place), FirstBroken(RecordRules(lib, record, url, page)))
  {
    hide UrlOf;
    hide RequestRules;
    hide BodyRules;
    hide FirstBroken;
    hide RecordRules;
    hide Equal;
    hide CheckRequest;
    hide CheckBody;
    hide SafeHeaders;
    RecordSplits(lib, record, url, page);
    if record.Obj? {
      RequestByRules(record, url);
      if CheckRequest(record, url).Ok? {
        DetailsByRules(lib, record);
        if FirstBroken(DetailRules(lib, record)) == None {
          BodyByRules(lib, record);
        }
      }
      PageByRules(record, page);
    }
  }

  lemma {:induction false} PageByRules(record: Json, page: Option<nat>)
    requires record.Obj?
    ensures FirstBroken(PageRules(record, page)) ==
              if (if page.Some? then Get(record, "page") == Int(page.value) else "page" !in record.fields) then None else Some(RequestPage)
  {
    assert PageRules(record, page)[1..] == [];
  }

  lemma {:induction false} DetailsByRules(lib: Libraries, record: Json)
    requires record.Obj? && SafeHeaders(Field(record, "safe_headers"))
    ensures var text := Get(record, "raw_base64");
            FirstBroken(DetailRules(lib, record)) ==
              if !Says(record, "etag", Get(Field(record, "safe_headers"), "etag")) then Some(RequestEtag)
              else if !lib.isUtc(Get(record, "fetch_utc")) then Some(RequestFetchUtc)
              else if !text.Str? || lib.base64(text.s).None? then Some(RequestBase64)
              else None
  {
    hide Equal;
    hide FirstBroken;
    TextEqual(Get(record, "etag"), Get(Field(record, "safe_headers"), "etag"));
    var rules := DetailRules(lib, record);
    var k := FirstBrokenExactly(rules);
    Holding(rules, 0);
    Holding(rules, 1);
    Holding(rules, 2);
    Holding(rules, 3);
  }

  // ---------------------------------------------------------------- the chain of records

  function PageAddress(page: nat): string {
    "https://api.github.com/repos/shrec/UltrafastSecp256k1/issues/335/comments?per_page=100&page=" + Digits(page)
  }

  /** The first record is the issue's, the last one the special comment's, those in between are the pages'. */
  function AddressAt(i: nat, total: nat): string {
    if i == 0 then "https://api.github.com/repos/shrec/UltrafastSecp256k1/issues/335"
    else if i == total - 1 then "https://api.github.com/repos/shrec/UltrafastSecp256k1/issues/comments/5066918142"
    else PageAddress(i)
  }

  lemma {:induction false} AddressIsOf(i: nat, total: nat)
    ensures AddressAt(i, total) == UrlOf(PlaceOf(i, total))
  {
    hide Digits;
  }

  lemma {:induction false} PageAddressIs(page: nat)
    ensures PageAddress(page) == PageUrl(page)
  {
  }

  /** The body bytes of the first n records. */
  function SumOf(lib: Libraries, records: seq<Json>, n: nat): nat
    requires n <= |records|
  {
    if n == 0 then 0 else SumOf(lib, records, n - 1) + |RawOf(lib, records[n - 1])|
  }

  predicate HasNext(link: string, page: nat) {
    var next := Links.LinkNext(link, PageAddress(page));
    next.Ok? && next.value.Some?
  }

  /** Page i of a snapshot of `total` records links to the page after it unless it is the last. */
  function LinkRules(link: string, i: nat, total: nat): seq<Rule> {
    [Rule(Links.LinkNext(link, PageAddress(i + 1)).Ok?, PageLinkMalformed),
     Rule(HasNext(link, i + 1) <==> i + 2 < total, PageSequenceIncomplete)]
  }

  function RulesAt(lib: Libraries, records: seq<Json>, i: nat): seq<Rule>
    requires i < |records|
  {
    OwnRules(lib, records, i) + [Rule(SumOf(lib, records, i + 1) <= 8_388_608, AggregateBytes)]
    + if 0 < i < |records| - 1 then LinkRules(HeaderOf(records[i], "link"), i, |records|) else []
  }

  function ChainRules(lib: Libraries, records: seq<Json>, n: nat): seq<Rule>
    requires n <= |records|
  {
    if n == 0 then [] else ChainRules(lib, records, n - 1) + RulesAt(lib, records, n - 1)
  }

  /** The rules of record i on its own. */
  function OwnRules(lib: Libraries, records: seq<Json>, i: nat): seq<Rule>
    requires i < |records|
  {
    RecordRules(lib, records[i], AddressAt(i, |records|), if 0 < i < |records| - 1 then Some(i) else None)
  }

  /** Each record is good or bad as its own rules say. */
  predicate FoundByRules(lib: Libraries, records: seq<Json>, found: Found) {
    && |found| == |records| >= 3
    && forall i :: 0 <= i < |records| ==> RecordSays(lib, records[i], found[i], FirstBroken(OwnRules(lib, records, i)))
  }

  lemma {:induction false} CheckedByRules(lib: Libraries, records: seq<Json>)
    requires |records| >= 3
    ensures FoundByRules(lib, records, Check(lib, records))
  {
    hide RecordSays;
    hide FirstBroken;
    hide VerifyRecord;
    hide AddressAt;
    hide UrlOf;
    hide RecordRules;
    forall i | 0 <= i < |records|
      ensures RecordSays(lib, records[i], Check(lib, records)[i], FirstBroken(OwnRules(lib, records, i)))
    {
      AddressIsOf(i, |records|);
      RecordByRules(lib, records[i], PlaceOf(i, |records|), AddressAt(i, |records|), if 0 < i < |records| - 1 then Some(i) else None);
    }
  }

  lemma {:induction false} TotalIsSum(lib: Libraries, records: seq<Json>, found: Found, n: nat)
    requires FoundByRules(lib, records, found) && n <= |records| && AllOk(found, n)
    ensures Total(found, n) == SumOf(lib, records, n)
  {
    hide FirstBroken;
    hide OwnRules;
    hide RawOf;
    hide BodyOf;
    hide HeaderOf;
    if n > 0 {
      TotalIsSum(lib, records, found, n - 1);
    }
  }

  lemma {:induction false} LinkByRules(link: string, i: nat, total: nat)
    requires 0 < i < total - 1
    ensures FirstBroken(LinkRules(link, i, total)) ==
              match NextPage(link, i)
              case Err(_) => Some(PageLinkMalformed)
              case Ok(next) => if next.Some? == (i == total - 2) then Some(PageSequenceIncomplete) else None
  {
    hide Links.LinkNext;
    hide PageAddress;
    hide PageUrl;
    PageAddressIs(i + 1);
    var rules := LinkRules(link, i, total);
    var k := FirstBrokenExactly(rules);
    Holding(rules, 0);
    Holding(rules, 1);
  }

  lemma {:induction false} RulesSplit(lib: Libraries, records: seq<Json>, i: nat)
    requires i < |records|
    ensures FirstBroken(RulesAt(lib, records, i)) ==
              OrElse(FirstBroken(OwnRules(lib, records, i)),
              OrElse(if SumOf(lib, records, i + 1) <= 8_388_608 then None else Some(AggregateBytes),
                     if 0 < i < |records| - 1 then FirstBroken(LinkRules(HeaderOf(records[i], "link"), i, |records|)) else None))
  {
    hide RecordRules;
    hide LinkRules;
    hide RawOf;
    hide HeaderOf;
    hide AddressAt;
    hide SumOf;
    var total := [Rule(SumOf(lib, records, i + 1) <= 8_388_608, AggregateBytes)];
    var links := if 0 < i < |records| - 1 then LinkRules(HeaderOf(records[i], "link"), i, |records|) else [];
    Joined(OwnRules(lib, records, i) + total, links);
    Joined(OwnRules(lib, records, i), total);
    assert total[1..] == [];
  }

  /** The first broken rule of a record is the fault the loop finds there. */
  lemma {:induction false} FaultByRules(lib: Libraries, records: seq<Json>, found: Found, i: nat)
    requires FoundByRules(lib, records, found) && i < |records| && AllOk(found, i)
    ensures FirstBroken(RulesAt(lib, records, i)) == Fault(found, i)
  {
    hide FirstBroken;
    hide OwnRules;
    hide RulesAt;
    hide LinkRules;
    hide NextPage;
    hide RawOf;
    hide BodyOf;
    hide HeaderOf;
    hide SumOf;
    hide Total;
    RulesSplit(lib, records, i);
    if 0 < i < |records| - 1 { LinkByRules(HeaderOf(records[i], "link"), i, |records|); }
    if found[i].Ok? {
      TotalIsSum(lib, records, found, i + 1);
    }
  }

  lemma {:induction false} ChainStep(lib: Libraries, records: seq<Json>, n: nat)
    requires n < |records|
    ensures FirstBroken(ChainRules(lib, records, n + 1)) == OrElse(FirstBroken(ChainRules(lib, records, n)), FirstBroken(RulesAt(lib, records, n)))
  {
    hide RulesAt;
    Joined(ChainRules(lib, records, n), RulesAt(lib, records, n));
  }

  /** The first broken rule of the chain is the first fault of the loop. */
  lemma {:induction false} ChainByRules(lib: Libraries, records: seq<Json>, found: Found, n: nat)
    requires FoundByRules(lib, records, found) && n <= |records|
    ensures FirstBroken(ChainRules(lib, records, n)) == None <==> NoFault(found, n)
    ensures forall i :: 0 <= i < n && NoFault(found, i) && Fault(found, i).Some? ==> FirstBroken(ChainRules(lib, records, n)) == Fault(found, i)
  {
    hide *;
    if n == 0 {
      NoRules();
      NoRecords(lib, records, found);
    } else {
      SameLength(lib, records, found);
      ChainByRules(lib, records, found, n - 1);
      ChainStep(lib, records, n - 1);
      NoFaultStep(found, n - 1);
      if NoFault(found, n - 1) {
        FaultByRules(lib, records, found, n - 1);
      }
      Whichever(FirstBroken(ChainRules(lib, records, n - 1)), FirstBroken(RulesAt(lib, records, n - 1)));
    }
  }

  lemma {:induction false} Whichever(a: Option<Reject>, b: Option<Reject>)
    ensures OrElse(a, b) == if a == None then b else a
  {
  }

  lemma {:induction false} NoRecords(lib: Libraries, records: seq<Json>, found: Found)
    ensures ChainRules(lib, records, 0) == [] && NoFault(found, 0)
  {
  }

  lemma {:induction false} NoFaultStep(found: Found, n: nat)
    requires n < |found|
    ensures NoFault(found, n + 1) <==> NoFault(found, n) && Fault(found, n) == None
    ensures NoFault(found, n) ==> AllOk(found, n)
    ensures forall i :: 0 <= i < n && NoFault(found, n) ==> Fault(found, i) == None
  {
    hide Fault;
    BadIsFault(found, n);
  }

  lemma {:induction false} NoRules()
    ensures FirstBroken([]) == None
  {
  }

  lemma {:induction false} SameLength(lib: Libraries, records: seq<Json>, found: Found)
    requires FoundByRules(lib, records, found)
    ensures |found| == |records| >= 3
  {
  }

  lemma {:induction false} BadIsFault(found: Found, i: nat)
    requires i < |found|
    ensures found[i].Err? ==> Fault(found, i).Some?
  {
  }

  // ---------------------------------------------------------------- issue, comments and closing

  /** The listed fields, and the login of the user. */
  function View(j: Json, keys: set<string>): Json {
    Obj(map k | k in keys + {"user"} :: if k == "user" then Field(Field(j, "user"), "login") else Field(j, k))
  }

  /** What the snapshot repeats of the issue. */
  function IssueView(j: Json): Json {
    View(j, {"id", "number", "state", "title", "body", "html_url", "repository_url", "comments"})
  }

  /** What it repeats of a comment. */
  function CommentView(j: Json): Json {
    View(j, {"id", "issue_url", "html_url", "body", "created_at", "updated_at"})
  }

  lemma {:induction false} ProjectionIsView(sem: Json, j: Json, keys: set<string>)
    requires sem.Obj? && j.Obj? && Projects(sem, j, keys) && "user" !in keys
    ensures sem == View(j, keys)
  {
    assert sem.fields == View(j, keys).fields;
  }

  lemma {:induction false} IssueViewed(j: Json)
    ensures SemanticIssue(j) == if IsIssue(j) then Ok(IssueView(j)) else Err(IssueIdentity)
  {
    hide SemanticIssue;
    hide Projects;
    hide View;
    IssueProjects(j);
    if IsIssue(j) {
      UserIsApart();
      ProjectionIsView(SemanticIssue(j).value, j, ISSUE_FIELDS);
    }
  }

  lemma {:induction false} IssueIsObject(j: Json)
    requires IsIssue(j)
    ensures j.Obj?
  {
  }

  lemma {:induction false} CommentViewed(j: Json, issueUrl: string)
    ensures SemanticComment(j, issueUrl) == if IsComment(j, issueUrl) then Ok(CommentView(j)) else Err(CommentIdentity)
    ensures IsComment(j, issueUrl) ==> Field(j, "id").Int?
  {
    hide SemanticComment;
    hide Projects;
    hide View;
    CommentProjects(j, issueUrl);
    if IsComment(j, issueUrl) {
      UserIsApart();
      ProjectionIsView(SemanticComment(j, issueUrl).value, j, COMMENT_FIELDS);
    }
  }

  lemma {:induction false} UserIsApart()
    ensures "user" !in ISSUE_FIELDS && "user" !in COMMENT_FIELDS
  {
  }

  function IdOf(entry: Entry): int {
    if entry.Item? && Field(entry.item, "id").Int? then Field(entry.item, "id").n else 0
  }

  predicate IsComment335(entry: Entry) {
    entry.Item? && IsComment(entry.item, "https://api.github.com/repos/shrec/UltrafastSecp256k1/issues/335")
  }

  /** An entry of the pages is a comment on the issue with a positive id that no entry before it has. */
  function EntryRules(entries: seq<Entry>, k: nat): seq<Rule>
    requires k < |entries|
  {
    [Rule(entries[k].Item?, SnapshotType),
     Rule(IsComment335(entries[k]), CommentIdentity),
     Rule(IdOf(entries[k]) > 0 && forall i :: 0 <= i < k ==> IdOf(entries[i]) != IdOf(entries[k]), DuplicateCommentId)]
  }

  function CommentRules(entries: seq<Entry>, n: nat): seq<Rule>
    requires n <= |entries|
  {
    if n == 0 then [] else CommentRules(entries, n - 1) + EntryRules(entries, n - 1)
  }

  lemma {:induction false} CommentOfEntry(entry: Entry)
    requires entry.Item?
    ensures CommentOf(entry.item) == if IsComment335(entry) then Ok((IdOf(entry), CommentView(entry.item))) else Err(CommentIdentity)
  {
    hide SemanticComment;
    hide IsComment;
    hide CommentView;
    CommentViewed(entry.item, IssueUrl());
    if IsComment335(entry) { IssueIsComment(entry.item); }
  }

  lemma {:induction false} IssueIsComment(j: Json)
    requires IsComment(j, IssueUrl())
    ensures j.Obj?
  {
  }

  lemma {:induction false} GoodEntry(entries: seq<Entry>, k: nat)
    requires k < |entries| && EntryFault(entries, k) == None
    ensures IsComment335(entries[k]) && IdOf(entries[k]) > 0
  {
    hide CommentOf;
    hide IsComment335;
    if entries[k].Item? { CommentOfEntry(entries[k]); }
  }

  lemma {:induction false} RepeatsExactly(entries: seq<Entry>, k: nat, id: int)
    requires k <= |entries| && NoBadEntry(entries, k)
    ensures Repeats(entries[..k], id) <==> exists i :: 0 <= i < k && IdOf(entries[i]) == id
  {
    hide CommentOf;
    hide EntryFault;
    hide IsComment335;
    forall i | 0 <= i < k ensures entries[..k][i] == entries[i] && entries[i].Item? && CommentOf(entries[i].item).Ok?
      ensures CommentOf(entries[i].item).value.0 == IdOf(entries[i])
    {
      GoodEntry(entries, i);
      EntryIsItem(entries[i]);
      CommentOfEntry(entries[i]);
    }
    if i :| 0 <= i < k && IdOf(entries[i]) == id {
      assert entries[..k][i].Item?;
    }
  }

  lemma {:induction false} EntryIsItem(entry: Entry)
    ensures IsComment335(entry) ==> entry.Item?
  {
  }

  lemma {:induction false} EntryByRules(entries: seq<Entry>, k: nat)
    requires k < |entries| && NoBadEntry(entries, k)
    ensures FirstBroken(EntryRules(entries, k)) == EntryFault(entries, k)
  {
    hide CommentOf;
    hide FirstBroken;
    hide IsComment335;
    hide Repeats;
    var rules := EntryRules(entries, k);
    var first := FirstBrokenExactly(rules);
    Holding(rules, 0);
    Holding(rules, 1);
    Holding(rules, 2);
    if entries[k].Item? { CommentOfEntry(entries[k]); }
    RepeatsExactly(entries, k, IdOf(entries[k]));
  }

  lemma {:induction false} CommentsByRules(entries: seq<Entry>, n: nat)
    requires n <= |entries|
    ensures FirstBroken(CommentRules(entries, n)) == None <==> NoBadEntry(entries, n)
    ensures forall k :: 0 <= k < n && NoBadEntry(entries, k) && EntryFault(entries, k).Some? ==>
              FirstBroken(CommentRules(entries, n)) == EntryFault(entries, k)
  {
    hide EntryFault;
    hide EntryRules;
    hide FirstBroken;
    if n == 0 {
      NoRules();
    } else {
      CommentsByRules(entries, n - 1);
      Joined(CommentRules(entries, n - 1), EntryRules(entries, n - 1));
      if NoBadEntry(entries, n - 1) {
        EntryByRules(entries, n - 1);
      }
    }
  }

  /** No entry is bad exactly if all pages are lists and their comments fit. */
  lemma {:induction false} EntriesExactly(pages: seq<Json>)
    ensures NoBadEntry(Entries(pages), |Entries(pages)|) <==> AllLists(pages) && CommentsFit(Flat(pages))
    ensures AllLists(pages) && CommentsFit(Flat(pages)) ==> Entries(pages) == ItemsOf(Flat(pages))
  {
    hide EntryFault;
    hide CommentsFit;
    if AllLists(pages) {
      EntriesOfLists(pages);
      if CommentsFit(Flat(pages)) {
        FittingEntries(Flat(pages));
      } else if NoBadEntry(Entries(pages), |Entries(pages)|) {
        GoodEntriesFit(Flat(pages));
      }
    } else {
      var p :| 0 <= p < |pages| && !pages[p].List?;
      EntriesPrefix(pages, p + 1);
      var upto := Entries(pages[..p + 1]);
      assert upto[|upto| - 1] == NoPage;
      BadPage(Entries(pages), |upto| - 1);
    }
  }

  lemma {:induction false} BadPage(entries: seq<Entry>, k: nat)
    requires k < |entries| && entries[k] == NoPage
    ensures EntryFault(entries, k) != None
  {
  }

  lemma {:induction false} GoodEntriesFit(items: seq<Json>)
    requires NoBadEntry(ItemsOf(items), |items|)
    ensures CommentsFit(items)
  {
    hide CommentOf;
    hide IsComment335;
    var entries := ItemsOf(items);
    forall i | 0 <= i < |items| ensures CommentOf(items[i]).Ok? && CommentOf(items[i]).value.0 == IdOf(entries[i]) > 0 {
      assert entries[i] == Item(items[i]);
      GoodEntry(entries, i);
      CommentOfEntry(entries[i]);
    }
    forall i, j | 0 <= i < j < |items| ensures IdOf(entries[i]) != IdOf(entries[j]) {
      assert EntryFault(entries, j) == None;
      RepeatsExactly(entries, j, IdOf(entries[j]));
    }
  }

  predicate IsComment336(j: Json) {
    IsComment(j, "https://api.github.com/repos/shrec/UltrafastSecp256k1/issues/336")
  }

  predicate IsTheSpecialOne(j: Json) {
    && Field(j, "id") == Int(5066918142) && Field(Field(j, "user"), "login") == Str("craigraw")
    && Field(j, "html_url") == Str("https://github.com/shrec/UltrafastSecp256k1/issues/336#issuecomment-5066918142")
  }

  /** Three fields and no other, the two numbers false or zero. */
  predicate AreClaims(j: Json) {
    && j.Obj? && j.fields.Keys == {"issue_closed", "m5_inferred", "note"}
    && IsValue(Field(j, "issue_closed"), 0) && IsValue(Field(j, "m5_inferred"), 0)
    && Field(j, "note") == Str("Public authority capture only; no closure or release inference.")
  }

  function Views(entries: seq<Entry>): (r: seq<Json>)
    ensures |r| == |entries|
  {
    seq(|entries|, k requires 0 <= k < |entries| => if entries[k].Item? then CommentView(entries[k].item) else Null)
  }

  /** What the snapshot must repeat. */
  function Restated(issue: Json, entries: seq<Entry>, special: Json): Json {
    Obj(map["issue_335" := IssueView(issue), "comments_335_ordered" := List(Views(entries)), "issue_336_comment" := CommentView(special)])
  }

  function EndRules(lib: Libraries, snapshot: Json, issue: Json, entries: seq<Entry>, special: Json): seq<Rule> {
    [Rule(Field(issue, "comments") == Int(|entries|), CommentsCountMismatch),
     Rule(IsComment336(special), CommentIdentity),
     Rule(IsTheSpecialOne(special), SpecialCommentIdentity),
     Rule(Equal(Field(snapshot, "semantic"), Restated(issue, entries, special)), SemanticProjection),
     Rule(Equal(Field(snapshot, "reviewer_hint_drift"), lib.drift(IssueView(issue), |entries|, CommentView(special))), ReviewerDrift),
     Rule(AreClaims(Field(snapshot, "claims")), Claims)]
  }

  /** The first body is the issue, the last one the special comment, those in between are the pages. */
  function StoryRules(lib: Libraries, snapshot: Json, bodies: seq<Json>): seq<Rule>
    requires |bodies| >= 3
  {
    var entries := Entries(bodies[1..|bodies| - 1]);
    [Rule(IsIssue(bodies[0]), IssueIdentity)] + CommentRules(entries, |entries|)
    + EndRules(lib, snapshot, bodies[0], entries, bodies[|bodies| - 1])
  }

  lemma {:induction false} SpecialExactly(j: Json)
    requires IsComment336(j)
    ensures CommentView(j).Obj? && (IsSpecial(CommentView(j)) <==> IsTheSpecialOne(j))
  {
    hide Equal;
    CommentViewed(j, Other336());
    var view := CommentView(j);
    SpecialFields(j);
    NumberEqual(Get(view, "id"), 5066918142);
    TextEqual(Get(view, "user"), Str("craigraw"));
    TextEqual(Get(view, "html_url"), Str("https://github.com/shrec/UltrafastSecp256k1/issues/336#issuecomment-5066918142"));
  }

  lemma {:induction false} SpecialFields(j: Json)
    ensures var view := CommentView(j);
            && view.Obj? && Get(view, "id") == Field(j, "id") && Get(view, "html_url") == Field(j, "html_url")
            && Get(view, "user") == Field(Field(j, "user"), "login")
  {
  }

  lemma {:induction false} ClaimsExactly(j: Json)
    ensures Equal(j, ExpectedClaims()) <==> AreClaims(j)
  {
    if j.Obj? && j.fields.Keys == {"issue_closed", "m5_inferred", "note"} {
      var claims := ExpectedClaims();
      assert claims.fields.Keys == {"issue_closed", "m5_inferred", "note"};
      assert Equal(j.fields["issue_closed"], claims.fields["issue_closed"]) <==> IsValue(Field(j, "issue_closed"), 0);
      assert Equal(j.fields["m5_inferred"], claims.fields["m5_inferred"]) <==> IsValue(Field(j, "m5_inferred"), 0);
    }
  }

  lemma {:induction false} CommentsAreViews(items: seq<Json>)
    requires CommentsFit(items)
    ensures Comments(items) == Views(ItemsOf(items))
  {
    hide CommentOf;
    hide IsComment335;
    hide CommentView;
    forall i | 0 <= i < |items| ensures Comments(items)[i] == Views(ItemsOf(items))[i] {
      CommentOfEntry(Item(items[i]));
    }
  }

  /** The verdict of the count, the special comment and the closing. */
  function EndFault(lib: Libraries, snapshot: Json, issue: Json, entries: seq<Entry>, special: Json): Option<Reject>
    requires snapshot.Obj?
  {
    hide CheckClosing;
    hide IsComment336;
    hide IsTheSpecialOne;
    if Field(issue, "comments") != Int(|entries|) then Some(CommentsCountMismatch)
    else if !IsComment336(special) then Some(CommentIdentity)
    else if !IsTheSpecialOne(special) then Some(SpecialCommentIdentity)
    else
      match CheckClosing(lib, snapshot, IssueView(issue), Views(entries), CommentView(special))
      case Pass => None
      case Fail(e) => Some(e)
  }

  lemma {:induction false} EndByRules(lib: Libraries, snapshot: Json, issue: Json, entries: seq<Entry>, special: Json)
    requires snapshot.Obj?
    ensures FirstBroken(EndRules(lib, snapshot, issue, entries, special)) == EndFault(lib, snapshot, issue, entries, special)
  {
    hide FirstBroken;
    hide IsComment336;
    hide IsTheSpecialOne;
    hide AreClaims;
    hide ExpectedClaims;
    hide IssueView;
    hide CommentView;
    hide Views;
    hide Equal;
    ClaimsExactly(Get(snapshot, "claims"));
    var rules := EndRules(lib, snapshot, issue, entries, special);
    var k := FirstBrokenExactly(rules);
    Holding(rules, 0);
    Holding(rules, 1);
    Holding(rules, 2);
    Holding(rules, 3);
    Holding(rules, 4);
    Holding(rules, 5);
  }

  lemma {:induction false} StorySplits(lib: Libraries, snapshot: Json, bodies: seq<Json>)
    requires |bodies| >= 3
    ensures var entries := Entries(bodies[1..|bodies| - 1]);
            FirstBroken(StoryRules(lib, snapshot, bodies)) ==
              if !IsIssue(bodies[0]) then Some(IssueIdentity)
              else OrElse(FirstBroken(CommentRules(entries, |entries|)),
                          FirstBroken(EndRules(lib, snapshot, bodies[0], entries, bodies[|bodies| - 1])))
  {
    hide IsIssue;
    hide EndRules;
    hide CommentRules;
    var entries := Entries(bodies[1..|bodies| - 1]);
    var one, comments := [Rule(IsIssue(bodies[0]), IssueIdentity)], CommentRules(entries, |entries|);
    assert one[1..] == [];
    Joined(one + comments, EndRules(lib, snapshot, bodies[0], entries, bodies[|bodies| - 1]));
    Joined(one, comments);
  }

  /** The first broken rule is why the story is refused. */
  lemma {:induction false} StoryByRules(lib: Libraries, snapshot: Json, bodies: seq<Json>)
    requires snapshot.Obj? && |bodies| >= 3
    ensures StoryFits(lib, snapshot, bodies) <==> FirstBroken(StoryRules(lib, snapshot, bodies)) == None
    ensures forall code :: StoryError(lib, snapshot, bodies, code) ==> FirstBroken(StoryRules(lib, snapshot, bodies)) == Some(code)
  {
    hide StoryRules;
    hide EndRules;
    hide CommentRules;
    hide FirstBroken;
    hide IsIssue;
    hide IsComment336;
    hide IsTheSpecialOne;
    hide SemanticIssue;
    hide SemanticComment;
    hide IsSpecial;
    hide CheckClosing;
    hide IssueView;
    hide CommentView;
    hide Views;
    hide CommentsFit;
    hide Comments;
    hide Entries;
    hide Flat;
    hide EntryFault;
    var pages, last := bodies[1..|bodies| - 1], bodies[|bodies| - 1];
    var entries := Entries(pages);
    StorySplits(lib, snapshot, bodies);
    IssueViewed(bodies[0]);
    if IsIssue(bodies[0]) {
      IssueIsObject(bodies[0]);
      CommentsByRules(entries, |entries|);
      EntriesExactly(pages);
      if AllLists(pages) && CommentsFit(Flat(pages)) {
        CommentsAreViews(Flat(pages));
        EndByRules(lib, snapshot, bodies[0], entries, last);
        LastViewed(last);
      }
    }
  }

  lemma {:induction false} LastViewed(j: Json)
    ensures SemanticComment(j, Other336()) == if IsComment336(j) then Ok(CommentView(j)) else Err(CommentIdentity)
    ensures IsComment336(j) ==> CommentView(j).Obj? && (IsSpecial(CommentView(j)) <==> IsTheSpecialOne(j))
  {
    hide IsSpecial;
    hide CommentView;
    hide IsTheSpecialOne;
    CommentViewed(j, Other336());
    if IsComment336(j) { SpecialExactly(j); }
  }

  // ---------------------------------------------------------------- the whole snapshot

  function OpeningRules(lib: Libraries, snapshot: Json): seq<Rule> {
    var records := Field(snapshot, "ordered_requests");
    [Rule(snapshot.Obj?, SnapshotType),
     Rule(Field(snapshot, "schema") == Str("gh335.bounded-public-authority.v1"), SnapshotSchema),
     Rule(Field(snapshot, "task_id") == Str("GH335_BOUNDED_AUTHORITY_CAPTURE_CODEX_RESEARCH_439"), SnapshotTaskId),
     Rule(lib.isUtc(Field(snapshot, "captured_utc")), SnapshotCapturedUtc),
     Rule(records.List? && 3 <= |records.items| <= 22, SnapshotRequestCount)]
  }

  lemma {:induction false} OpeningByRules(lib: Libraries, snapshot: Json)
    ensures match CheckOpening(lib, snapshot)
            case Err(e) => FirstBroken(OpeningRules(lib, snapshot)) == Some(e)
            case Ok(records) => && FirstBroken(OpeningRules(lib, snapshot)) == None && snapshot.Obj?
                                && Field(snapshot, "ordered_requests") == List(records) && 3 <= |records| <= 22
  {
    hide FirstBroken;
    hide Equal;
    var rules := OpeningRules(lib, snapshot);
    var k := FirstBrokenExactly(rules);
    Holding(rules, 0);
    Holding(rules, 1);
    Holding(rules, 2);
    Holding(rules, 3);
    Holding(rules, 4);
    if snapshot.Obj? {
      TextEqual(Get(snapshot, "schema"), Str("gh335.bounded-public-authority.v1"));
      TextEqual(Get(snapshot, "task_id"), Str("GH335_BOUNDED_AUTHORITY_CAPTURE_CODEX_RESEARCH_439"));
    }
  }

  /** A list of k numbers, the first of value 1, the second of value 2, and so on. */
  predicate Counts(j: Json, k: nat) {
    j.List? && |j.items| == k && forall i :: 0 <= i < k ==> IsValue(j.items[i], i + 1)
  }

  function TotalRules(lib: Libraries, snapshot: Json, records: seq<Json>): seq<Rule>
    requires |records| >= 3
  {
    [Rule(IsValue(Field(snapshot, "aggregate_bytes"), SumOf(lib, records, |records|)), AggregateBytes),
     Rule(Counts(Field(snapshot, "page_sequence"), |records| - 2), PageSequence)]
  }

  lemma {:induction false} TotalsByRules(lib: Libraries, snapshot: Json, records: seq<Json>, aggregate: nat, pages: seq<Json>)
    requires snapshot.Obj? && |records| >= 3 && aggregate == SumOf(lib, records, |records|) && pages == Naturals(|records| - 2)
    ensures FirstBroken(TotalRules(lib, snapshot, records)) ==
              if !Says(snapshot, "aggregate_bytes", Int(aggregate)) then Some(AggregateBytes)
              else if !Says(snapshot, "page_sequence", List(pages)) then Some(PageSequence)
              else None
  {
    hide FirstBroken;
    hide Equal;
    var rules := TotalRules(lib, snapshot, records);
    var k := FirstBrokenExactly(rules);
    Holding(rules, 0);
    Holding(rules, 1);
    NumberEqual(Get(snapshot, "aggregate_bytes"), aggregate);
    PageSequenceExactly(Get(snapshot, "page_sequence"), |records| - 2);
  }

  function BodiesOf(lib: Libraries, records: seq<Json>): (r: seq<Json>)
    ensures |r| == |records|
  {
    seq(|records|, i requires 0 <= i < |records| => BodyOf(lib, records[i]))
  }

  function RecordsRules(lib: Libraries, snapshot: Json, records: seq<Json>): seq<Rule>
    requires |records| >= 3
  {
    ChainRules(lib, records, |records|) + TotalRules(lib, snapshot, records) + StoryRules(lib, snapshot, BodiesOf(lib, records))
  }

  /** All rules, in order. The records have theirs if there are enough of them. */
  function Rules(lib: Libraries, snapshot: Json): seq<Rule> {
    var records := Field(snapshot, "ordered_requests");
    OpeningRules(lib, snapshot) + if records.List? && |records.items| >= 3 then RecordsRules(lib, snapshot, records.items) else []
  }

  lemma {:induction false} RecordsSplit(lib: Libraries, snapshot: Json, records: seq<Json>)
    requires |records| >= 3
    ensures FirstBroken(RecordsRules(lib, snapshot, records)) ==
              OrElse(FirstBroken(ChainRules(lib, records, |records|)),
              OrElse(FirstBroken(TotalRules(lib, snapshot, records)), FirstBroken(StoryRules(lib, snapshot, BodiesOf(lib, records)))))
  {
    hide ChainRules;
    hide TotalRules;
    hide StoryRules;
    var chain, totals := ChainRules(lib, records, |records|), TotalRules(lib, snapshot, records);
    Joined(chain + totals, StoryRules(lib, snapshot, BodiesOf(lib, records)));
    Joined(chain, totals);
  }

  /** What a good chain has gathered: the sum, the page numbers and the bodies. */
  lemma {:induction false} GatheredByRules(lib: Libraries, records: seq<Json>, found: Found)
    requires FoundByRules(lib, records, found) && AllOk(found, |found|)
    ensures Gathered(found, |found|).aggregate == SumOf(lib, records, |records|)
    ensures Gathered(found, |found|).pages == Naturals(|records| - 2)
    ensures Bodies(found, |found|) == BodiesOf(lib, records)
  {
    hide FirstBroken;
    hide OwnRules;
    hide RawOf;
    hide BodyOf;
    hide HeaderOf;
    hide Total;
    hide SumOf;
    TotalIsSum(lib, records, found, |found|);
  }

  /** A chain with a fault: its first fault decides. */
  lemma {:induction false} BadChain(lib: Libraries, snapshot: Json, records: seq<Json>, found: Found)
    requires snapshot.Obj? && FoundByRules(lib, records, found) && |found| == |records| >= 3 && !ChainFits(found)
    ensures !RecordsFit(lib, snapshot, found) && FirstBroken(RecordsRules(lib, snapshot, records)) != None
    ensures forall code :: RecordsError(lib, snapshot, found, code) ==> FirstBroken(RecordsRules(lib, snapshot, records)) == Some(code)
  {
    hide *;
    RecordsSplit(lib, snapshot, records);
    FirstFaultByRules(lib, records, found);
    ChainDecides(lib, snapshot, found);
    SomeFirst(FirstBroken(ChainRules(lib, records, |records|)),
              OrElse(FirstBroken(TotalRules(lib, snapshot, records)), FirstBroken(StoryRules(lib, snapshot, BodiesOf(lib, records)))));
  }

  lemma {:induction false} SomeFirst(a: Option<Reject>, b: Option<Reject>)
    requires a != None
    ensures OrElse(a, b) == a
  {
  }

  lemma {:induction false} FirstFaultByRules(lib: Libraries, records: seq<Json>, found: Found)
    requires FoundByRules(lib, records, found) && |found| == |records| >= 3 && !ChainFits(found)
    ensures FirstBroken(ChainRules(lib, records, |records|)) != None
    ensures forall code :: FirstFault(found, code) ==> FirstBroken(ChainRules(lib, records, |records|)) == Some(code)
  {
    hide FoundByRules;
    hide FirstBroken;
    hide ChainRules;
    hide ChainFits;
    hide Fault;
    hide NoFault;
    ChainExactly(found);
    ChainByRules(lib, records, found, |records|);
  }

  lemma {:induction false} ChainDecides(lib: Libraries, snapshot: Json, found: Found)
    requires snapshot.Obj? && |found| >= 3 && !ChainFits(found)
    ensures !RecordsFit(lib, snapshot, found) && (forall code :: RecordsError(lib, snapshot, found, code) <==> FirstFault(found, code))
  {
    hide ChainFits;
    hide FirstFault;
  }

  lemma {:induction false} GoodChain(lib: Libraries, snapshot: Json, records: seq<Json>, found: Found)
    requires snapshot.Obj? && FoundByRules(lib, records, found) && |found| == |records| >= 3 && ChainFits(found)
    ensures RecordsFit(lib, snapshot, found) <==> FirstBroken(RecordsRules(lib, snapshot, records)) == None
    ensures forall code :: RecordsError(lib, snapshot, found, code) ==> FirstBroken(RecordsRules(lib, snapshot, records)) == Some(code)
  {
    hide FoundByRules;
    hide FirstBroken;
    hide RecordsRules;
    hide ChainRules;
    hide TotalRules;
    hide StoryRules;
    hide ChainFits;
    hide RecordsFit;
    hide RecordsError;
    hide StoryFits;
    hide StoryError;
    hide NoFault;
    hide AllOk;
    hide Gathered;
    hide Bodies;
    hide Says;
    hide SumOf;
    RecordsSplit(lib, snapshot, records);
    ChainExactly(found);
    ChainByRules(lib, records, found, |records|);
    TotalsAndStory(lib, snapshot, found);
    GatheredByRules(lib, records, found);
    TotalsByRules(lib, snapshot, records, Gathered(found, |found|).aggregate, Gathered(found, |found|).pages);
    StoryByRules(lib, snapshot, BodiesOf(lib, records));
  }

  /**
   The check accepts exactly the snapshots that break no rule, and reports the code of the first
   broken rule of all others.
   */
  lemma {:induction false} SnapshotByRules(lib: Libraries, snapshot: Json)
    ensures SnapshotFits(lib, snapshot) <==> FirstBroken(Rules(lib, snapshot)) == None
    ensures forall code :: SnapshotError(lib, snapshot, code) ==> FirstBroken(Rules(lib, snapshot)) == Some(code)
  {
    hide OpeningRules;
    hide RecordsRules;
    hide FirstBroken;
    hide CheckOpening;
    hide Check;
    hide RecordsFit;
    hide RecordsError;
    hide ChainFits;
    hide FoundByRules;
    var listed := Field(snapshot, "ordered_requests");
    OpeningByRules(lib, snapshot);
    Joined(OpeningRules(lib, snapshot), if listed.List? && |listed.items| >= 3 then RecordsRules(lib, snapshot, listed.items) else []);
    NoRules();
    if CheckOpening(lib, snapshot).Ok? {
      var records := CheckOpening(lib, snapshot).value;
      CheckedByRules(lib, records);
      if ChainFits(Check(lib, records)) {
        GoodChain(lib, snapshot, records, Check(lib, records));
      } else {
        BadChain(lib, snapshot, records, Check(lib, records));
      }
    }
  }

  /** The snapshot states the sum of its body lengths, and counts its pages from 1. */
  predicate TotalsStated(lib: Libraries, snapshot: Json, records: seq<Json>) {
    && 3 <= |records| <= 22
    && IsValue(Field(snapshot, "aggregate_bytes"), SumOf(lib, records, |records|))
    && Counts(Field(snapshot, "page_sequence"), |records| - 2)
  }

  /** So does every accepted snapshot. */
  lemma {:induction false} AcceptedTotals(lib: Libraries, snapshot: Json)
    requires SnapshotFits(lib, snapshot)
    ensures var records := Field(snapshot, "ordered_requests"); records.List? && TotalsStated(lib, snapshot, records.items)
  {
    hide *;
    SnapshotByRules(lib, snapshot);
    RulesSplitUp(lib, snapshot);
    OpeningHolds(lib, snapshot);
    var records := Field(snapshot, "ordered_requests").items;
    RecordsSplit(lib, snapshot, records);
    NoneOfThree(FirstBroken(ChainRules(lib, records, |records|)), FirstBroken(TotalRules(lib, snapshot, records)),
                FirstBroken(StoryRules(lib, snapshot, BodiesOf(lib, records))));
    TotalsHold(lib, snapshot, records);
  }

  lemma {:induction false} NoneOfThree(a: Option<Reject>, b: Option<Reject>, c: Option<Reject>)
    requires OrElse(a, OrElse(b, c)) == None
    ensures a == None && b == None && c == None
  {
  }

  lemma {:induction false} RulesSplitUp(lib: Libraries, snapshot: Json)
    requires FirstBroken(Rules(lib, snapshot)) == None
    ensures FirstBroken(OpeningRules(lib, snapshot)) == None
    ensures var listed := Field(snapshot, "ordered_requests");
            listed.List? && |listed.items| >= 3 ==> FirstBroken(RecordsRules(lib, snapshot, listed.items)) == None
  {
    hide FirstBroken;
    hide OpeningRules;
    hide RecordsRules;
    hide Field;
    var listed := Field(snapshot, "ordered_requests");
    Joined(OpeningRules(lib, snapshot), if listed.List? && |listed.items| >= 3 then RecordsRules(lib, snapshot, listed.items) else []);
  }

  lemma {:induction false} OpeningHolds(lib: Libraries, snapshot: Json)
    requires FirstBroken(OpeningRules(lib, snapshot)) == None
    ensures Field(snapshot, "ordered_requests").List? && 3 <= |Field(snapshot, "ordered_requests").items| <= 22
  {
    hide FirstBroken;
    Holding(OpeningRules(lib, snapshot), 4);
  }

  lemma {:induction false} TotalsHold(lib: Libraries, snapshot: Json, records: seq<Json>)
    requires |records| >= 3 && FirstBroken(TotalRules(lib, snapshot, records)) == None
    ensures |records| <= 22 ==> TotalsStated(lib, snapshot, records)
  {
    hide FirstBroken;
    hide Counts;
    Holding(TotalRules(lib, snapshot, records), 0);
    Holding(TotalRules(lib, snapshot, records), 1);
  }

  lemma {:induction false} HashesByRules(lib: Libraries, records: seq<Json>, found: Found)
    requires FoundByRules(lib, records, found) && AllOk(found, |found|)
    ensures |Hashes(found, |found|)| == |records|
    ensures forall i :: 0 <= i < |records| ==> Hashes(found, |found|)[i] == lib.sha256(RawOf(lib, records[i]))
  {
    hide FirstBroken;
    hide OwnRules;
    hide RawOf;
    hide BodyOf;
    hide HeaderOf;
  }

  /** What is returned for an accepted snapshot: the hash of every body, and of those the pages'. */
  lemma {:induction false} AcceptedHashes(lib: Libraries, snapshot: Json)
    requires SnapshotFits(lib, snapshot)
    ensures var records, hashes := Field(snapshot, "ordered_requests"), StatedHashes(lib, snapshot);
            && records.List? && |hashes.0| == |records.items| >= 3 && hashes.1 == hashes.0[1..|hashes.0| - 1]
            && forall i :: 0 <= i < |records.items| ==> hashes.0[i] == lib.sha256(RawOf(lib, records.items[i]))
  {
    hide *;
    OpeningByRules(lib, snapshot);
    GoodOpening(lib, snapshot);
    var records := CheckOpening(lib, snapshot).value;
    var found := Check(lib, records);
    CheckedByRules(lib, records);
    RecordsDecide(lib, snapshot, records);
    GoodRecords(lib, snapshot, found);
    HashesStated(lib, snapshot, found);
    HashesByRules(lib, records, found);
  }

  lemma {:induction false} GoodOpening(lib: Libraries, snapshot: Json)
    requires SnapshotFits(lib, snapshot)
    ensures CheckOpening(lib, snapshot).Ok?
  {
    hide CheckOpening;
    hide RecordsFit;
  }

  lemma {:induction false} GoodRecords(lib: Libraries, snapshot: Json, found: Found)
    requires snapshot.Obj? && RecordsFit(lib, snapshot, found)
    ensures |found| >= 3 && AllOk(found, |found|)
  {
  }

  // ---------------------------------------------------------------- page numbers in addresses

  /** What a run of decimal digits is worth. */
  function ValueOf(digits: string): int {
    if digits == "" then 0 else 10 * ValueOf(digits[..|digits| - 1]) + (digits[|digits| - 1] as int - '0' as int)
  }

  /** A page number is written in decimal digits, without a leading zero. */
  lemma {:induction false} DigitsRead(n: nat)
    ensures ValueOf(Digits(n)) == n && Digits(n) != ""
    ensures forall i :: 0 <= i < |Digits(n)| ==> '0' <= Digits(n)[i] <= '9'
    ensures n > 0 ==> Digits(n)[0] != '0'
  {
    if n >= 10 {
      DigitsRead(n / 10);
      assert Digits(n)[..|Digits(n)| - 1] == Digits(n / 10);
    }
  }
}
