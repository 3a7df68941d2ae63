/**
 The pagination `Link` header (RFC 8288, section 3) in the restricted form the validator reads:
 comma-separated parts of the shape `<url>; rel="words"`.
 */
module Links {
  import opened Basics

  datatype Malformed = Malformed

  /** Unicode white space, as in `\s` and `str.split`. */
  predicate IsSpace(c: char) {
    || '\t' <= c <= '\r' || '\U{1C}' <= c <= ' ' || c == '\U{85}' || c == '\U{A0}' || c == '\U{1680}'
    || '\U{2000}' <= c <= '\U{200A}' || c == '\U{2028}' || c == '\U{2029}' || c == '\U{202F}'
    || c == '\U{205F}' || c == '\U{3000}'
  }

  /** The 29 white-space code points. */
  lemma {:induction false} SpacesExactly(c: char)
    ensures IsSpace(c) <==>
              || c as int in {9, 10, 11, 12, 13, 28, 29, 30, 31, 32, 133, 160, 5760, 8232, 8233, 8239, 8287, 12288}
              || 8192 <= c as int <= 8202
  {
  }

  predicate Blank(s: string) {
    forall i :: 0 <= i < |s| ==> IsSpace(s[i])
  }

  function SkipSpace(s: string): string {
    if s != "" && IsSpace(s[0]) then SkipSpace(s[1..]) else s
  }

  /** How far `s` goes before the first `c`. */
  function Before(s: string, c: char): (n: nat)
    ensures n <= |s| && c !in s[..n] && (n < |s| ==> s[n] == c)
  {
    if s == "" || s[0] == c then 0
    else
      var n := Before(s[1..], c);
      assert s[..n + 1] == [s[0]] + s[1..][..n];
      n + 1
  }

  lemma {:induction false} BeforeRun(run: string, c: char, rest: string)
    requires c !in run && (rest == "" || rest[0] == c)
    ensures Before(run + rest, c) == |run|
  {
    if run == "" {
      assert run + rest == rest;
    } else {
      assert (run + rest)[1..] == run[1..] + rest;
      BeforeRun(run[1..], c, rest);
    }
  }

  // ---------------------------------------------------------------- one part

  datatype Link = Link(url: string, rel: string)

  function Expect(s: string, token: string): Option<string> {
    var t := SkipSpace(s);
    if token <= t then Some(t[|token|..]) else None
  }

  /** A non-empty run up to the closing character, and what follows that character. */
  function Quoted(s: string, close: char): Option<(string, string)> {
    var n := Before(s, close);
    if 0 < n < |s| then Some((s[..n], s[n + 1..])) else None
  }

  function ParsePart(s: string): Option<Link> {
    match Expect(s, "<")
    case None => None
    case Some(s1) =>
      match Quoted(s1, '>')
      case None => None
      case Some((url, s2)) =>
        match Expect(s2, ";")
        case None => None
        case Some(s3) =>
          match Expect(s3, "rel=\"")
          case None => None
          case Some(s4) =>
            match Quoted(s4, '"')
            case None => None
            case Some((rel, s5)) => if SkipSpace(s5) == "" then Some(Link(url, rel)) else None
  }

  /** The part is the link, with optional white space in the four places that allow it. */
  ghost predicate Spells(s: string, link: Link) {
    exists w0: string, w1: string, w2: string, w3: string :: SpellsWith(s, link, w0, w1, w2, w3)
  }

  predicate SpellsWith(s: string, link: Link, w0: string, w1: string, w2: string, w3: string) {
    && Blank(w0) && Blank(w1) && Blank(w2) && Blank(w3)
    && link.url != "" && '>' !in link.url && link.rel != "" && '"' !in link.rel
    && s == w0 + ("<" + (link.url + (">" + (w1 + (";" + (w2 + ("rel=\"" + (link.rel + ("\"" + w3)))))))))
  }

  lemma {:induction false} SkipSpaceSplits(s: string) returns (w: string)
    ensures Blank(w) && s == w + SkipSpace(s)
    ensures SkipSpace(s) == "" || !IsSpace(SkipSpace(s)[0])
  {
    hide IsSpace;
    hide Blank;
    if s != "" && IsSpace(s[0]) {
      var rest := SkipSpaceSplits(s[1..]);
      w := [s[0]] + rest;
      BlankMore(s[0], rest);
      assert s == [s[0]] + s[1..] == w + SkipSpace(s);
    } else {
      w := "";
      NothingIsBlank();
    }
  }

  lemma {:induction false} BlankMore(c: char, w: string)
    requires IsSpace(c) && Blank(w)
    ensures Blank([c] + w)
  {
    hide IsSpace;
  }

  lemma {:induction false} NothingIsBlank()
    ensures Blank("")
  {
  }

  lemma {:induction false} SkipBlank(w: string, s: string)
    requires Blank(w) && (s == "" || !IsSpace(s[0]))
    ensures SkipSpace(w + s) == s
  {
    if w == "" {
      assert w + s == s;
    } else {
      assert (w + s)[1..] == w[1..] + s;
      SkipBlank(w[1..], s);
    }
  }

  lemma {:induction false} ExpectFinds(w: string, token: string, s: string)
    requires Blank(w) && token != "" && !IsSpace(token[0])
    ensures Expect(w + (token + s), token) == Some(s)
  {
    SkipBlank(w, token + s);
    assert (token + s)[|token|..] == s;
  }

  lemma {:induction false} ExpectFound(s: string, token: string) returns (w: string)
    requires Expect(s, token).Some?
    ensures Blank(w) && s == w + (token + Expect(s, token).value)
  {
    w := SkipSpaceSplits(s);
    assert SkipSpace(s) == token + SkipSpace(s)[|token|..];
  }

  lemma {:induction false} QuotedFinds(run: string, close: char, s: string)
    requires run != "" && close !in run
    ensures Quoted(run + ([close] + s), close) == Some((run, s))
  {
    BeforeRun(run, close, [close] + s);
    assert (run + ([close] + s))[|run| + 1..] == s;
  }

  lemma {:induction false} QuotedFound(s: string, close: char)
    requires Quoted(s, close).Some?
    ensures var (run, rest) := Quoted(s, close).value;
            run != "" && close !in run && s == run + ([close] + rest)
  {
  }

  /** A part parses exactly if it spells a link, and then to that link. */
  lemma {:induction false} ParsePartExactly(s: string, link: Link)
    ensures ParsePart(s) == Some(link) <==> Spells(s, link)
  {
    hide Expect;
    hide Quoted;
    hide IsSpace;
    hide SkipSpace;
    if ParsePart(s) == Some(link) {
      ParsedSpells(s);
    }
    if Spells(s, link) {
      var w0: string, w1: string, w2: string, w3: string :| SpellsWith(s, link, w0, w1, w2, w3);
      SpelledParses(s, link, w0, w1, w2, w3);
    }
  }

  lemma {:induction false} TokensAreDark()
    ensures !IsSpace('<') && !IsSpace(';') && !IsSpace('r')
  {
  }

  lemma {:induction false} SpelledParses(s: string, link: Link, w0: string, w1: string, w2: string, w3: string)
    requires SpellsWith(s, link, w0, w1, w2, w3)
    ensures ParsePart(s) == Some(link)
  {
    hide Expect;
    hide Quoted;
    hide IsSpace;
    hide SkipSpace;
    hide Blank;
    TokensAreDark();
    var s5 := w3;
    var s4 := link.rel + ("\"" + s5);
    var s3 := w2 + ("rel=\"" + s4);
    var s2 := w1 + (";" + s3);
    var s1 := link.url + (">" + s2);
    ExpectFinds(w0, "<", s1);
    QuotedFinds(link.url, '>', s2);
    ExpectFinds(w1, ";", s3);
    ExpectFinds(w2, "rel=\"", s4);
    QuotedFinds(link.rel, '"', s5);
    SkipBlank(w3, "");
    assert w3 + "" == w3;
  }

  lemma {:induction false} ParsedSpells(s: string)
    requires ParsePart(s).Some?
    ensures Spells(s, ParsePart(s).value)
  {
    hide Expect;
    hide Quoted;
    hide IsSpace;
    hide SkipSpace;
    hide Blank;
    var link := ParsePart(s).value;
    var w0 := ExpectFound(s, "<");
    var s1 := Expect(s, "<").value;
    QuotedFound(s1, '>');
    var s2 := Quoted(s1, '>').value.1;
    var w1 := ExpectFound(s2, ";");
    var s3 := Expect(s2, ";").value;
    var w2 := ExpectFound(s3, "rel=\"");
    var s4 := Expect(s3, "rel=\"").value;
    QuotedFound(s4, '"');
    var s5 := Quoted(s4, '"').value.1;
    var w3 := SkipSpaceSplits(s5);
    assert s5 == w3 + "" == w3;
    assert SpellsWith(s, link, w0, w1, w2, w3);
  }

  // ---------------------------------------------------------------- splitting

  /** `str.split` on one character. */
  function Split(s: string, c: char): (parts: seq<string>)
    ensures parts != []
    decreases |s|
  {
    var n := Before(s, c);
    if n == |s| then [s] else [s[..n]] + Split(s[n + 1..], c)
  }

  function Join(parts: seq<string>, c: char): string
    requires parts != []
  {
    if |parts| == 1 then parts[0] else parts[0] + ([c] + Join(parts[1..], c))
  }

  predicate NoneHas(parts: seq<string>, c: char) {
    forall i :: 0 <= i < |parts| ==> c !in parts[i]
  }

  lemma {:induction false} JoinOfSplit(s: string, c: char)
    ensures NoneHas(Split(s, c), c) && Join(Split(s, c), c) == s
    decreases |s|
  {
    var n := Before(s, c);
    if n < |s| {
      JoinOfSplit(s[n + 1..], c);
      var rest := Split(s[n + 1..], c);
      assert ([s[..n]] + rest)[1..] == rest;
      assert s == s[..n] + ([c] + s[n + 1..]);
    } else {
      assert s[..n] == s;
    }
  }

  lemma {:induction false} SplitOfJoin(parts: seq<string>, c: char)
    requires parts != [] && NoneHas(parts, c)
    ensures Split(Join(parts, c), c) == parts
    decreases |parts|
  {
    var first := parts[0];
    if |parts| == 1 {
      BeforeRun(first, c, "");
      assert first + "" == first;
    } else {
      var rest := Join(parts[1..], c);
      BeforeRun(first, c, [c] + rest);
      assert (first + ([c] + rest))[|first| + 1..] == rest;
      SplitOfJoin(parts[1..], c);
    }
  }

  /** The word occurs between white space or ends: `word in rel.split()`. */
  predicate HasWord(rel: string, word: string) {
    exists i :: 0 <= i <= |rel| - |word| && WordAt(rel, word, i)
  }

  predicate WordAt(rel: string, word: string, i: nat)
    requires i + |word| <= |rel|
  {
    && rel[i..i + |word|] == word
    && (i == 0 || IsSpace(rel[i - 1]))
    && (i + |word| == |rel| || IsSpace(rel[i + |word|]))
  }

  // ---------------------------------------------------------------- the header

  const NEXT := "next"

  /** The targets of the parts whose relation is `next`. */
  function NextUrls(parts: seq<string>): seq<string>
    requires AllParse(parts)
  {
    if parts == [] then []
    else
      var last := ParsePart(parts[|parts| - 1]).value;
      NextUrls(parts[..|parts| - 1]) + if HasWord(last.rel, NEXT) then [last.url] else []
  }

  predicate AllParse(parts: seq<string>) {
    forall i :: 0 <= i < |parts| ==> ParsePart(parts[i]).Some?
  }

  /** The next page's address, if the header names exactly the expected one. */
  function LinkNext(value: string, expected: string): Result<Option<string>, Malformed> {
    if value == "" then Ok(None)
    else
      var parts := Split(value, ',');
      if !AllParse(parts) then Err(Malformed)
      else
        var urls := NextUrls(parts);
        if urls == [] then Ok(None) else if urls == [expected] then Ok(Some(expected)) else Err(Malformed)
  }

  method ParseLinkNext(value: string, expected: string) returns (r: Result<Option<string>, Malformed>)
    ensures r == LinkNext(value, expected)
  {
    hide ParsePart;
    hide HasWord;
    hide Split;
    if value == "" {
      return Ok(None);
    }
    var parts := Split(value, ',');
    var nextUrls: seq<string> := [];
    for i := 0 to |parts|
      invariant AllParse(parts[..i]) && nextUrls == NextUrls(parts[..i])
    {
      assert parts[..i + 1][..i] == parts[..i];
      var link := ParsePart(parts[i]);
      if link.None? {
        return Err(Malformed);
      }
      if HasWord(link.value.rel, NEXT) {
        nextUrls := nextUrls + [link.value.url];
      }
    }
    assert parts[..|parts|] == parts;
    if |nextUrls| > 1 {
      return Err(Malformed);
    }
    if nextUrls == [] {
      return Ok(None);
    }
    if nextUrls[0] != expected {
      return Err(Malformed);
    }
    return Ok(Some(nextUrls[0]));
  }

  /** The header is these links, separated by commas. */
  ghost predicate Reads(value: string, links: seq<Link>) {
    exists parts: seq<string> ::
      && parts != [] && NoneHas(parts, ',') && Join(parts, ',') == value
      && |parts| == |links| && forall i :: 0 <= i < |parts| ==> Spells(parts[i], links[i])
  }

  function Targets(links: seq<Link>): seq<string> {
    if links == [] then []
    else
      var last := links[|links| - 1];
      Targets(links[..|links| - 1]) + if HasWord(last.rel, NEXT) then [last.url] else []
  }

  lemma {:induction false} PartsGiveTargets(parts: seq<string>, links: seq<Link>)
    requires |parts| == |links| && forall i :: 0 <= i < |parts| ==> ParsePart(parts[i]) == Some(links[i])
    ensures NextUrls(parts) == Targets(links)
  {
    hide ParsePart;
    hide HasWord;
    if parts != [] {
      PartsGiveTargets(parts[..|parts| - 1], links[..|links| - 1]);
    }
  }

  lemma {:induction false} ReadsAsParsed(value: string, links: seq<Link>)
    requires Reads(value, links)
    ensures value != "" && AllParse(Split(value, ',')) && NextUrls(Split(value, ',')) == Targets(links)
  {
    hide ParsePart;
    hide Spells;
    hide HasWord;
    var parts: seq<string> :|
      && parts != [] && NoneHas(parts, ',') && Join(parts, ',') == value
      && |parts| == |links| && forall i :: 0 <= i < |parts| ==> Spells(parts[i], links[i]);
    SplitOfJoin(parts, ',');
    forall i | 0 <= i < |parts| ensures ParsePart(parts[i]) == Some(links[i]) {
      ParsePartExactly(parts[i], links[i]);
    }
    PartsGiveTargets(parts, links);
    NothingParses();
  }

  lemma {:induction false} NothingParses()
    ensures !AllParse(Split("", ','))
  {
    assert Split("", ',')[0] == "" && ParsePart("").None?;
  }

  lemma {:induction false} ParsedReads(value: string)
    requires AllParse(Split(value, ','))
    ensures exists links :: Reads(value, links)
  {
    hide ParsePart;
    hide Spells;
    var parts := Split(value, ',');
    var links := seq(|parts|, i requires 0 <= i < |parts| => ParsePart(parts[i]).value);
    JoinOfSplit(value, ',');
    forall i | 0 <= i < |parts| ensures Spells(parts[i], links[i]) {
      ParsePartExactly(parts[i], links[i]);
    }
    assert Reads(value, links);
  }

  /**
   The meaning of the header, for every value: an empty one has no next page, one that is no list of
   links is refused, and one that is has a next page exactly if the only link related as `next`
   points to the expected address.
   */
  lemma {:induction false} LinkNextExactly(value: string, expected: string)
    ensures value == "" ==> LinkNext(value, expected) == Ok(None)
    ensures LinkNext(value, expected).Ok? <==>
              value == "" || exists links :: Reads(value, links) && (Targets(links) == [] || Targets(links) == [expected])
    ensures forall links :: Reads(value, links) ==>
              LinkNext(value, expected) == if Targets(links) == [] then Ok(None)
                                           else if Targets(links) == [expected] then Ok(Some(expected))
                                           else Err(Malformed)
  {
    hide ParsePart;
    hide Spells;
    hide HasWord;
    hide Reads;
    hide Split;
    hide Targets;
    hide NextUrls;
    forall links | Reads(value, links) ensures value != "" && AllParse(Split(value, ',')) && NextUrls(Split(value, ',')) == Targets(links) {
      ReadsAsParsed(value, links);
    }
    if value != "" && AllParse(Split(value, ',')) {
      ParsedReads(value);
    }
  }

  // ---------------------------------------------------------------- words

  /** `str.split`: the runs between white space, the first one going on from `current`. */
  function WordsFrom(s: string, current: string): seq<string> {
    if s == "" then (if current == "" then [] else [current])
    else if IsSpace(s[0]) then (if current == "" then [] else [current]) + WordsFrom(s[1..], "")
    else WordsFrom(s[1..], current + [s[0]])
  }

  function Words(s: string): seq<string> {
    WordsFrom(s, "")
  }

  /** Without white space. */
  predicate Dark(s: string) {
    forall i :: 0 <= i < |s| ==> !IsSpace(s[i])
  }

  /** The word occurs at or after `lo`. */
  predicate Occurs(rel: string, word: string, lo: nat) {
    exists i: nat :: lo <= i <= |rel| - |word| && WordAt(rel, word, i)
  }

  /** No word begins inside a dark run. */
  lemma {:induction false} NotInside(p: string, current: string, rest: string, word: string, i: nat)
    requires Dark(current) && |p| < i <= |p| + |current| && i + |word| <= |p + current + rest|
    ensures !WordAt(p + current + rest, word, i)
  {
    hide IsSpace;
    assert (p + current + rest)[i - 1] == current[i - 1 - |p|];
  }

  /** Where a dark run begins, a word occurs only as the whole run. */
  lemma {:induction false} RunIsWord(p: string, current: string, rest: string, word: string)
    requires Dark(current) && Dark(word) && word != "" && (p == "" || IsSpace(p[|p| - 1])) && (rest == "" || IsSpace(rest[0]))
    requires |p| + |word| <= |p + current + rest|
    ensures WordAt(p + current + rest, word, |p|) <==> word == current
  {
    hide IsSpace;
    var rel, i, n := p + current + rest, |p|, |word|;
    assert p != "" ==> rel[i - 1] == p[i - 1];
    if n < |current| {
      assert rel[i + n] == current[n];
    } else if n == |current| {
      assert rel[i..i + n] == current;
      assert rest != "" ==> rel[i + n] == rest[0];
    } else {
      assert rel[i..i + n][|current|] == rest[0];
      assert !IsSpace(word[|current|]);
    }
  }

  /** The words from `p` on are those in which the rest splits. */
  lemma {:induction false} WordsFromExactly(p: string, current: string, s: string, word: string)
    requires Dark(current) && Dark(word) && word != "" && (p == "" || IsSpace(p[|p| - 1]))
    ensures word in WordsFrom(s, current) <==> Occurs(p + current + s, word, |p|)
    decreases |s|
  {
    hide IsSpace;
    var rel := p + current + s;
    if s != "" && !IsSpace(s[0]) {
      assert rel == p + (current + [s[0]]) + s[1..];
      WordsFromExactly(p, current + [s[0]], s[1..], word);
    } else {
      FirstRun(p, current, s, word);
      if s != "" {
        var more := p + current + [s[0]];
        assert rel == more + "" + s[1..];
        WordsFromExactly(more, "", s[1..], word);
      }
    }
  }

  /** A word is the first run, or comes behind the white space after it. */
  lemma {:induction false} FirstRun(p: string, current: string, s: string, word: string)
    requires Dark(current) && Dark(word) && word != "" && (p == "" || IsSpace(p[|p| - 1])) && (s == "" || IsSpace(s[0]))
    ensures Occurs(p + current + s, word, |p|) <==> word == current || (s != "" && Occurs(p + current + s, word, |p| + |current| + 1))
  {
    hide IsSpace;
    hide WordAt;
    var rel := p + current + s;
    forall i: nat | |p| <= i <= |rel| - |word| && i <= |p| + |current|
      ensures WordAt(rel, word, i) <==> i == |p| && word == current
    {
      if i == |p| { RunIsWord(p, current, s, word); } else { NotInside(p, current, s, word, i); }
    }
    if word == current {
      assert WordAt(rel, word, |p|);
    }
  }

  /** A relation is looked up among the words of `rel`. */
  lemma {:induction false} HasWordExactly(rel: string, word: string)
    requires Dark(word) && word != ""
    ensures HasWord(rel, word) <==> word in Words(rel)
  {
    hide WordAt;
    assert "" + "" + rel == rel;
    WordsFromExactly("", "", rel, word);
    if HasWord(rel, word) {
      var i :| 0 <= i <= |rel| - |word| && WordAt(rel, word, i);
      assert Occurs(rel, word, 0);
    }
  }

  predicate IsNext(link: Link) {
    "next" in Words(link.rel)
  }

  predicate NoneNext(links: seq<Link>) {
    forall j :: 0 <= j < |links| ==> !IsNext(links[j])
  }

  predicate OnlyNext(links: seq<Link>, i: nat) {
    i < |links| && forall j :: 0 <= j < |links| ==> (IsNext(links[j]) <==> j == i)
  }

  lemma {:induction false} NextIsWord(link: Link)
    ensures HasWord(link.rel, NEXT) <==> IsNext(link)
  {
    HasWordExactly(link.rel, "next");
  }

  lemma {:induction false} NoTargets(links: seq<Link>)
    ensures Targets(links) == [] <==> NoneNext(links)
  {
    hide HasWord;
    hide IsNext;
    if links != [] {
      NoTargets(links[..|links| - 1]);
      NextIsWord(links[|links| - 1]);
    }
  }

  /** Which links count: the header has one target exactly if one link has the word `next` and points there. */
  lemma {:induction false} TargetsExactly(links: seq<Link>, url: string)
    ensures Targets(links) == [] <==> NoneNext(links)
    ensures Targets(links) == [url] <==> exists i: nat :: OnlyNext(links, i) && links[i].url == url
  {
    hide HasWord;
    hide IsNext;
    hide NoneNext;
    hide OnlyNext;
    NoTargets(links);
    if links != [] {
      var front, last := links[..|links| - 1], links[|links| - 1];
      NextIsWord(last);
      NoTargets(front);
      TargetsExactly(front, url);
      forall i: nat ensures OnlyNext(links, i) <==> if IsNext(last) then i == |front| && NoneNext(front) else OnlyNext(front, i)
        ensures OnlyNext(front, i) ==> i < |front| && links[i] == front[i]
      {
        OnlyNextStep(links, i);
      }
      if IsNext(last) {
        OneTarget(Targets(front), last.url, url);
        assert OnlyNext(links, |front|) <==> NoneNext(front);
      } else {
        assert Targets(links) == Targets(front);
      }
    } else {
      forall i: nat ensures !OnlyNext(links, i) {
        NothingNext(i);
      }
    }
  }

  lemma {:induction false} OneTarget(front: seq<string>, last: string, url: string)
    ensures front + [last] == [url] <==> front == [] && last == url
  {
    assert (front + [last])[|front|] == last;
  }

  lemma {:induction false} NothingNext(i: nat)
    ensures !OnlyNext([], i)
  {
  }

  lemma {:induction false} OnlyNextStep(links: seq<Link>, i: nat)
    requires links != []
    ensures var front, last := links[..|links| - 1], links[|links| - 1];
            && (OnlyNext(links, i) <==> if IsNext(last) then i == |front| && NoneNext(front) else OnlyNext(front, i))
            && (OnlyNext(front, i) ==> i < |front|)
  {
    hide IsNext;
  }
}
