/**
 The source scanner of the constant-time namespace audit: comment stripping, greedy substring
 counting, and the bookkeeping of one file audit.
 */
module CtNamespace {
  import opened Basics

  // ---------------------------------------------------------------- comment stripping

  predicate OpensLine(s: string) {
    |s| >= 2 && s[0] == '/' && s[1] == '/'
  }

  predicate OpensBlock(s: string) {
    |s| >= 2 && s[0] == '/' && s[1] == '*'
  }

  predicate ClosesBlock(s: string) {
    |s| >= 2 && s[0] == '*' && s[1] == '/'
  }

  /** What is left from the first newline on. */
  function SkipLine(s: string): (r: string)
    ensures |r| <= |s|
  {
    if s == "" || s[0] == '\n' then s else SkipLine(s[1..])
  }

  /** What is left behind the first block closer; nothing if the block never closes. */
  function SkipBlock(s: string): (r: string)
    ensures |r| <= |s|
  {
    if |s| < 2 then "" else if ClosesBlock(s) then s[2..] else SkipBlock(s[1..])
  }

  function Strip(s: string): string
    decreases |s|
  {
    if s == "" then ""
    else if OpensLine(s) then assert SkipLine(s) == SkipLine(s[1..]); Strip(SkipLine(s))
    else if OpensBlock(s) then Strip(SkipBlock(s[2..]))
    else [s[0]] + Strip(s[1..])
  }

  function Rest(s: string, i: nat): string {
    if i <= |s| then s[i..] else ""
  }

  lemma {:induction false} StripNothing()
    ensures Strip("") == ""
  {
  }


  /** `Strip`, `SkipLine` and `SkipBlock` as the loops see them: by index. */
  lemma {:induction false} StripStep(src: string, i: nat)
    requires i < |src|
    ensures Strip(src[i..])
         == if i + 1 < |src| && src[i] == '/' && src[i + 1] == '/' then Strip(SkipLine(src[i..]))
            else if i + 1 < |src| && src[i] == '/' && src[i + 1] == '*' then Strip(SkipBlock(src[i + 2..]))
            else [src[i]] + Strip(src[i + 1..])
  {
    var s := src[i..];
    if OpensLine(s) { assert SkipLine(s) == SkipLine(s[1..]); }
    if OpensBlock(s) { assert s[2..] == src[i + 2..]; }
    assert s[1..] == src[i + 1..];
  }

  lemma {:induction false} SkipLineStep(src: string, i: nat)
    requires i <= |src|
    ensures SkipLine(src[i..]) == if i == |src| || src[i] == '\n' then src[i..] else SkipLine(src[i + 1..])
  {
    if i < |src| { assert src[i..][1..] == src[i + 1..]; }
  }

  lemma {:induction false} SkipBlockStep(src: string, i: nat)
    requires i <= |src|
    ensures SkipBlock(src[i..])
         == if i + 1 >= |src| then "" else if src[i] == '*' && src[i + 1] == '/' then src[i + 2..] else SkipBlock(src[i + 1..])
  {
    if i + 1 < |src| { assert src[i..][1..] == src[i + 1..] && src[i..][2..] == src[i + 2..]; }
  }

  /** What has been written, followed by the stripped rest, is the stripped text. */
  ghost predicate Stripped(src: string, out: string, i: nat) {
    out + Strip(Rest(src, i)) == Strip(src)
  }

  lemma {:induction false} StrippedEnds(src: string, out: string, i: nat)
    ensures Stripped(src, "", 0)
    ensures Stripped(src, out, i) && i >= |src| ==> out == Strip(src)
  {
    StripNothing();
    if i >= |src| { assert Rest(src, i) == "" && out + "" == out; }
  }

  /** Going on from `i` at `next` with `written` added. */
  lemma {:induction false} StrippedMore(src: string, out: string, i: nat, written: string, next: nat)
    requires Stripped(src, out, i) && Strip(Rest(src, i)) == written + Strip(Rest(src, next))
    ensures Stripped(src, out + written, next)
  {
    hide Strip;
    assert out + (written + Strip(Rest(src, next))) == (out + written) + Strip(Rest(src, next));
  }

  lemma {:induction false} StrippedSame(src: string, out: string, i: nat, next: nat)
    requires Stripped(src, out, i) && Strip(Rest(src, i)) == Strip(Rest(src, next))
    ensures Stripped(src, out, next)
  {
  }

  method StripComments(src: string) returns (out: string)
    ensures out == Strip(src)
  {
    hide Strip;
    hide SkipLine;
    hide SkipBlock;
    hide Stripped;
    out := "";
    var i := 0;
    StrippedEnds(src, out, i);
    while i < |src|
      invariant Stripped(src, out, i)
      decreases if i <= |src| then |src| - i else 0
    {
      StripStep(src, i);
      ghost var start := i;
      if i + 1 < |src| && src[i] == '/' && src[i + 1] == '/' {
        while i < |src| && src[i] != '\n'
          invariant start <= i <= |src| && (i == start ==> i + 1 < |src| && src[i] == '/')
          invariant SkipLine(src[i..]) == SkipLine(src[start..])
        {
          SkipLineStep(src, i);
          i := i + 1;
        }
        SkipLineStep(src, i);
        StrippedSame(src, out, start, i);
        continue;
      }
      if i + 1 < |src| && src[i] == '/' && src[i + 1] == '*' {
        i := i + 2;
        while i + 1 < |src| && !(src[i] == '*' && src[i + 1] == '/')
          invariant start + 2 <= i <= |src| && SkipBlock(src[i..]) == SkipBlock(src[start + 2..])
        {
          SkipBlockStep(src, i);
          i := i + 1;
        }
        SkipBlockStep(src, i);
        i := i + 2;
        StrippedSame(src, out, start, i);
        continue;
      }
      StrippedMore(src, out, i, [src[i]], i + 1);
      out := out + [src[i]];
      i := i + 1;
    }
    StrippedEnds(src, out, i);
  }

  // ---------------------------------------------------------------- what stripping means

  /** The lexical pieces of a text. `Open` is a block comment that never closes. */
  datatype Piece = Code(c: char) | Line(text: string) | Block(body: string) | Open(body: string)

  function Spelled(p: Piece): string {
    match p
    case Code(c) => [c]
    case Line(text) => "//" + text
    case Block(body) => "/*" + body + "*/"
    case Open(body) => "/*" + body
  }

  function Text(pieces: seq<Piece>): string {
    if pieces == [] then "" else Spelled(pieces[0]) + Text(pieces[1..])
  }

  function CodeOf(pieces: seq<Piece>): string {
    if pieces == [] then ""
    else (if pieces[0].Code? then [pieces[0].c] else "") + CodeOf(pieces[1..])
  }

  /** No closer, at any place. */
  predicate NeverCloses(body: string) {
    forall i :: 0 <= i < |body| ==> !ClosesBlock(body[i..])
  }

  predicate Readable(p: Piece, rest: string) {
    match p
    case Code(c) => !OpensLine([c] + rest) && !OpensBlock([c] + rest)
    case Line(text) => '\n' !in text && (rest == "" || rest[0] == '\n')
    case Block(body) => NeverCloses(body)
    case Open(body) => NeverCloses(body) && rest == ""
  }

  /** The pieces are how the text reads from left to right. */
  predicate Lexed(pieces: seq<Piece>) {
    pieces == [] || (Readable(pieces[0], Text(pieces[1..])) && Lexed(pieces[1..]))
  }

  lemma {:induction false} SkipLineOver(text: string, rest: string)
    requires '\n' !in text && (rest == "" || rest[0] == '\n')
    ensures SkipLine(text + rest) == rest
  {
    if text == "" {
      assert text + rest == rest;
    } else {
      assert (text + rest)[1..] == text[1..] + rest;
      SkipLineOver(text[1..], rest);
    }
  }

  lemma {:induction false} SkipBlockOver(body: string, rest: string)
    requires NeverCloses(body)
    ensures SkipBlock(body + ("*/" + rest)) == rest
    ensures SkipBlock(body) == ""
  {
    var s := body + ("*/" + rest);
    if body == "" {
      assert s == "*/" + rest && s[2..] == rest;
    } else {
      assert s[1..] == body[1..] + ("*/" + rest);
      assert !ClosesBlock(body[0..]) && body[0..] == body;
      forall i | 0 <= i < |body[1..]| ensures !ClosesBlock(body[1..][i..]) {
        assert body[1..][i..] == body[i + 1..];
      }
      SkipBlockOver(body[1..], rest);
    }
  }

  lemma {:induction false} StripCode(c: char, rest: string)
    requires Readable(Code(c), rest)
    ensures Strip([c] + rest) == [c] + Strip(rest)
  {
    assert ([c] + rest)[1..] == rest;
  }

  lemma {:induction false} StripLine(text: string, rest: string)
    requires Readable(Line(text), rest)
    ensures Strip("//" + text + rest) == Strip(rest)
  {
    SkipLineOver("//" + text, rest);
  }

  lemma {:induction false} StripBlock(body: string, rest: string)
    requires NeverCloses(body)
    ensures Strip("/*" + body + "*/" + rest) == Strip(rest)
    ensures Strip("/*" + body) == ""
  {
    hide NeverCloses;
    SkipBlockOver(body, rest);
    assert ("/*" + body + "*/" + rest)[2..] == body + ("*/" + rest);
    assert ("/*" + body)[2..] == body;
  }

  lemma {:induction false} StripPiece(p: Piece, rest: string)
    requires Readable(p, rest)
    ensures Strip(Spelled(p) + rest) == (if p.Code? then [p.c] else "") + Strip(rest)
  {
    hide Strip;
    hide NeverCloses;
    StripNothing();
    match p
    case Code(c) => StripCode(c, rest);
    case Line(text) => StripLine(text, rest);
    case Block(body) => StripBlock(body, rest);
    case Open(body) => StripBlock(body, rest); assert Spelled(p) + rest == "/*" + body;
  }

  /** Stripping a text that reads as `pieces` keeps exactly the code pieces. */
  lemma {:induction false} StripKeepsCode(pieces: seq<Piece>)
    requires Lexed(pieces)
    ensures Strip(Text(pieces)) == CodeOf(pieces)
  {
    hide Strip;
    hide Readable;
    hide Spelled;
    if pieces == [] {
      StripNothing();
    } else {
      StripKeepsCode(pieces[1..]);
      StripPiece(pieces[0], Text(pieces[1..]));
    }
  }

  function UntilNewline(s: string): (r: string) {
    s[..|s| - |SkipLine(s)|]
  }

  lemma {:induction false} NewlineSplits(s: string)
    ensures UntilNewline(s) + SkipLine(s) == s && '\n' !in UntilNewline(s)
    ensures SkipLine(s) == "" || SkipLine(s)[0] == '\n'
  {
    if s != "" && s[0] != '\n' {
      NewlineSplits(s[1..]);
      assert UntilNewline(s) == [s[0]] + UntilNewline(s[1..]);
      assert s == [s[0]] + s[1..];
    }
  }

  predicate Closes(s: string) {
    |s| >= 2 && (ClosesBlock(s) || Closes(s[1..]))
  }

  /** The body of a block comment: up to the closer, or everything. */
  function UntilCloser(s: string): string {
    if |s| < 2 then s else if ClosesBlock(s) then "" else [s[0]] + UntilCloser(s[1..])
  }

  lemma {:induction false} CloserSplits(s: string)
    ensures s == if Closes(s) then UntilCloser(s) + "*/" + SkipBlock(s) else UntilCloser(s)
    ensures !Closes(s) ==> SkipBlock(s) == ""
  {
    if ClosesBlock(s) {
      assert s == "*/" + s[2..];
    } else if |s| >= 2 {
      CloserSplits(s[1..]);
      assert s == [s[0]] + s[1..];
    }
  }

  lemma {:induction false} BodyNeverCloses(s: string)
    ensures NeverCloses(UntilCloser(s))
  {
    if |s| >= 2 && !ClosesBlock(s) {
      var tail := UntilCloser(s[1..]);
      var body := UntilCloser(s);
      BodyNeverCloses(s[1..]);
      forall i | 0 <= i < |body| ensures !ClosesBlock(body[i..]) {
        if i > 0 {
          assert body[i..] == tail[i - 1..];
        } else if |body| >= 2 {
          assert body[1] == tail[0] == s[1];
        }
      }
    }
  }

  lemma {:induction false} LineReads(s: string)
    requires OpensLine(s)
    ensures |SkipLine(s)| < |s| && |UntilNewline(s)| >= 2
    ensures Spelled(Line(UntilNewline(s)[2..])) + SkipLine(s) == s && Readable(Line(UntilNewline(s)[2..]), SkipLine(s))
  {
    assert SkipLine(s) == SkipLine(s[1..]) == SkipLine(s[1..][1..]);
    var line := UntilNewline(s);
    NewlineSplits(s);
    assert line == "//" + line[2..];
  }

  lemma {:induction false} BlockReads(s: string)
    requires OpensBlock(s)
    ensures var body, rest := UntilCloser(s[2..]), SkipBlock(s[2..]);
            if Closes(s[2..]) then Spelled(Block(body)) + rest == s && Readable(Block(body), rest)
            else Spelled(Open(body)) == s && Readable(Open(body), "")
  {
    hide NeverCloses;
    hide SkipBlock;
    hide UntilCloser;
    CloserSplits(s[2..]);
    BodyNeverCloses(s[2..]);
    assert s == "/*" + s[2..];
    var body, rest := UntilCloser(s[2..]), SkipBlock(s[2..]);
    assert "/*" + (body + "*/" + rest) == "/*" + body + "*/" + rest;
  }

  function Lex(s: string): (pieces: seq<Piece>)
    ensures Lexed(pieces) && Text(pieces) == s
    decreases |s|
  {
    if s == "" then []
    else if OpensLine(s) then
      LineReads(s);
      [Line(UntilNewline(s)[2..])] + Lex(SkipLine(s))
    else if OpensBlock(s) then
      BlockReads(s);
      if Closes(s[2..]) then [Block(UntilCloser(s[2..]))] + Lex(SkipBlock(s[2..]))
      else assert [Open(UntilCloser(s[2..]))][1..] == []; [Open(UntilCloser(s[2..]))]
    else
      assert s == [s[0]] + s[1..];
      [Code(s[0])] + Lex(s[1..])
  }

  /** Every text reads in some way, and stripping keeps its code however it reads. */
  lemma {:induction false} StripExactly(src: string)
    ensures Lexed(Lex(src)) && Text(Lex(src)) == src
    ensures forall pieces :: Lexed(pieces) && Text(pieces) == src ==> Strip(src) == CodeOf(pieces)
  {
    forall pieces | Lexed(pieces) && Text(pieces) == src ensures Strip(src) == CodeOf(pieces) {
      StripKeepsCode(pieces);
    }
  }

  /** No comment opener anywhere. */
  predicate Bare(s: string) {
    forall i :: 0 <= i < |s| ==> !OpensLine(s[i..]) && !OpensBlock(s[i..])
  }

  lemma {:induction false} BareCons(c: char, s: string)
    ensures Bare([c] + s) <==> Bare(s) && !OpensLine([c] + s) && !OpensBlock([c] + s)
  {
    var t := [c] + s;
    assert t[0..] == t;
    forall i | 0 <= i < |s| ensures s[i..] == t[i + 1..] {
    }
    if Bare(t) {
      forall i | 0 <= i < |s| ensures !OpensLine(s[i..]) && !OpensBlock(s[i..]) {
        assert !OpensLine(t[i + 1..]);
      }
    }
    if Bare(s) && !OpensLine(t) && !OpensBlock(t) {
      forall i | 0 <= i < |t| ensures !OpensLine(t[i..]) && !OpensBlock(t[i..]) {
        if i > 0 { assert !OpensLine(s[i - 1..]) && s[i - 1..] == t[i..]; }
      }
    }
  }

  /** A slash that survives is followed by the character it was followed by in the source. */
  lemma {:induction false} StripIsBare(s: string)
    ensures Bare(Strip(s))
    ensures s != "" && s[0] !in {'/', '*'} ==> Strip(s) != "" && Strip(s)[0] == s[0]
    decreases |s|
  {
    if s == "" {
    } else if OpensLine(s) {
      assert SkipLine(s) == SkipLine(s[1..]);
      StripIsBare(SkipLine(s));
    } else if OpensBlock(s) {
      StripIsBare(SkipBlock(s[2..]));
    } else {
      StripIsBare(s[1..]);
      BareCons(s[0], Strip(s[1..]));
    }
  }

  lemma {:induction false} StripBare(s: string)
    requires Bare(s)
    ensures Strip(s) == s
  {
    if s != "" {
      assert s[0..] == s && s == [s[0]] + s[1..];
      BareCons(s[0], s[1..]);
      StripBare(s[1..]);
    }
  }

  /** Stripping is the identity exactly on texts without an opener, and its output is one: it is idempotent. */
  lemma {:induction false} StripTwice(s: string)
    ensures Strip(s) == s <==> Bare(s)
    ensures Strip(Strip(s)) == Strip(s)
  {
    StripIsBare(s);
    StripBare(Strip(s));
    if Bare(s) { StripBare(s); }
  }

  /** Dropping characters, and nothing else, turns `s` into `t`. */
  predicate Subsequence(t: string, s: string)
    decreases |s|
  {
    t == "" || (s != "" && if t[0] == s[0] && Subsequence(t[1..], s[1..]) then true else Subsequence(t, s[1..]))
  }

  lemma {:induction false} SubsequenceOfTail(t: string, s: string, k: nat)
    requires k <= |s| && Subsequence(t, s[k..])
    ensures Subsequence(t, s)
    decreases k
  {
    if k == 0 {
      assert s[0..] == s;
    } else {
      assert s[1..][k - 1..] == s[k..];
      SubsequenceOfTail(t, s[1..], k - 1);
    }
  }

  lemma {:induction false} SkipBlockIsTail(s: string)
    ensures SkipBlock(s) == s[|s| - |SkipBlock(s)|..]
  {
    if |s| >= 2 && !ClosesBlock(s) {
      SkipBlockIsTail(s[1..]);
      assert s[1..][|s[1..]| - |SkipBlock(s[1..])|..] == s[|s| - |SkipBlock(s[1..])|..];
    }
  }

  lemma {:induction false} StripOnlyDrops(s: string)
    ensures Subsequence(Strip(s), s)
    decreases |s|
  {
    if s == "" {
    } else if OpensLine(s) {
      assert SkipLine(s) == SkipLine(s[1..]);
      StripOnlyDrops(SkipLine(s));
      NewlineSplits(s);
      assert s[|UntilNewline(s)|..] == SkipLine(s);
      SubsequenceOfTail(Strip(s), s, |UntilNewline(s)|);
    } else if OpensBlock(s) {
      var rest := SkipBlock(s[2..]);
      StripOnlyDrops(rest);
      SkipBlockIsTail(s[2..]);
      assert s[2..][|s[2..]| - |rest|..] == s[|s| - |rest|..];
      SubsequenceOfTail(Strip(s), s, |s| - |rest|);
    } else {
      StripOnlyDrops(s[1..]);
      assert Strip(s)[1..] == Strip(s[1..]);
    }
  }

  // ---------------------------------------------------------------- counting

  predicate OccursAt(text: string, needle: string, p: nat) {
    p + |needle| <= |text| && text[p..p + |needle|] == needle
  }

  /** `std::string::find`: the first occurrence at or behind `pos`. */
  function FindFrom(text: string, needle: string, pos: nat): (r: Option<nat>)
    ensures r.Some? ==> pos <= r.value <= |text| - |needle| && OccursAt(text, needle, r.value)
    ensures forall p :: pos <= p && (r.None? || p < r.value) ==> !OccursAt(text, needle, p)
    decreases if pos <= |text| then |text| - pos + 1 else 0
  {
    if pos + |needle| > |text| then None
    else if OccursAt(text, needle, pos) then Some(pos)
    else FindFrom(text, needle, pos + 1)
  }

  predicate Contains(text: string, needle: string) {
    FindFrom(text, needle, 0).Some?
  }

  /** The occurrences the greedy scan picks from `pos` on. */
  function Picked(text: string, needle: string, pos: nat): (s: set<nat>)
    requires needle != ""
    ensures Disjoint(text, needle, s) && forall p :: p in s ==> p >= pos
    decreases if pos <= |text| then |text| - pos + 1 else 0
  {
    var found := FindFrom(text, needle, pos);
    if found.None? then {} else Picked(text, needle, found.value + |needle|) + {found.value}
  }

  /** Occurrences no two of which share a character. */
  predicate Disjoint(text: string, needle: string, s: set<nat>) {
    && (forall p :: p in s ==> OccursAt(text, needle, p))
    && forall p, q :: p in s && q in s && p < q ==> p + |needle| <= q
  }

  lemma {:induction false} PickedStep(text: string, needle: string, pos: nat)
    requires needle != ""
    ensures var found := FindFrom(text, needle, pos);
            |Picked(text, needle, pos)| == if found.None? then 0 else 1 + |Picked(text, needle, found.value + |needle|)|
  {
    hide FindFrom;
    hide Disjoint;
    var found := FindFrom(text, needle, pos);
    if found.Some? {
      assert found.value !in Picked(text, needle, found.value + |needle|);
    }
  }

  method CountOccurrences(text: string, needle: string) returns (n: nat)
    requires needle != ""
    ensures n == |Picked(text, needle, 0)|
  {
    hide FindFrom;
    hide Picked;
    n := 0;
    var pos := 0;
    var found := FindFrom(text, needle, pos);
    PickedStep(text, needle, pos);
    while found.Some?
      invariant found == FindFrom(text, needle, pos)
      invariant n + |Picked(text, needle, pos)| == |Picked(text, needle, 0)|
      decreases if pos <= |text| then |text| - pos + 1 else 0
    {
      PickedStep(text, needle, pos);
      n := n + 1;
      pos := found.value + |needle|;
      found := FindFrom(text, needle, pos);
      PickedStep(text, needle, pos);
    }
  }

  lemma {:induction false} AllButOne(s: set<nat>, t: set<nat>)
    requires t <= s && forall p, q :: p in s - t && q in s - t ==> p == q
    ensures |s| <= |t| + 1
  {
    if s - t != {} {
      var p :| p in s - t;
      assert s - t == {p};
      assert s == t + {p};
    }
  }

  lemma {:induction false} GreedyStaysAhead(text: string, needle: string, pos: nat, s: set<nat>)
    requires needle != "" && Disjoint(text, needle, s) && forall p :: p in s ==> p >= pos
    ensures |s| <= |Picked(text, needle, pos)|
    decreases if pos <= |text| then |text| - pos + 1 else 0
  {
    hide FindFrom;
    hide OccursAt;
    hide Picked;
    PickedStep(text, needle, pos);
    var found := FindFrom(text, needle, pos);
    if found.None? {
      assert s == {};
    } else {
      var next := found.value + |needle|;
      var behind := set p | p in s && p >= next;
      GreedyStaysAhead(text, needle, next, behind);
      AllButOne(s, behind);
    }
  }

  /**
   The greedy count is the largest number of occurrences that share no character, and it is zero
   exactly when the needle does not occur.
   */
  lemma {:induction false} GreedyIsOptimal(text: string, needle: string)
    requires needle != ""
    ensures Disjoint(text, needle, Picked(text, needle, 0))
    ensures forall s :: Disjoint(text, needle, s) ==> |s| <= |Picked(text, needle, 0)|
    ensures |Picked(text, needle, 0)| == 0 <==> !Contains(text, needle)
    ensures Contains(text, needle) <==> exists p :: OccursAt(text, needle, p)
  {
    forall s | Disjoint(text, needle, s) ensures |s| <= |Picked(text, needle, 0)| {
      GreedyStaysAhead(text, needle, 0, s);
    }
    if exists p :: OccursAt(text, needle, p) {
      var p :| OccursAt(text, needle, p);
      GreedyStaysAhead(text, needle, 0, {p});
    }
  }

  /** Where the loop stands after k rounds, or None if it has ended. */
  function Position(text: string, needle: string, rounds: nat): (p: Option<nat>)
    ensures p.Some? ==> p.value <= |text| && p.value >= rounds * |needle|
  {
    if rounds == 0 then Some(0)
    else
      match Position(text, needle, rounds - 1)
      case None => None
      case Some(pos) =>
        match FindFrom(text, needle, pos)
        case None => None
        case Some(found) => OneRound(rounds, |needle|); Some(found + |needle|)
  }

  lemma {:induction false} OneRound(rounds: nat, n: nat)
    requires rounds > 0
    ensures (rounds - 1) * n + n == rounds * n
  {
  }

  /** The counting loop ends exactly for a non-empty needle; for the empty one it never moves. */
  lemma {:induction false} CountingEnds(text: string, needle: string)
    ensures (exists rounds :: Position(text, needle, rounds).None?) <==> needle != ""
    ensures needle == "" ==> forall rounds :: Position(text, needle, rounds) == Some(0)
  {
    if needle == "" {
      forall rounds: nat ensures Position(text, needle, rounds) == Some(0) {
        NeverMoves(text, rounds);
      }
    } else {
      var rounds := |text| + 1;
      AtLeastRounds(rounds, |needle|);
      assert Position(text, needle, rounds).None?;
    }
  }

  lemma {:induction false} AtLeastRounds(rounds: nat, n: nat)
    requires n > 0
    ensures rounds * n >= rounds
  {
    assert rounds * n == rounds * (n - 1) + rounds;
  }

  lemma {:induction false} NeverMoves(text: string, rounds: nat)
    ensures Position(text, "", rounds) == Some(0)
  {
    if rounds > 0 {
      NeverMoves(text, rounds - 1);
      assert OccursAt(text, "", 0);
    }
  }

  // ---------------------------------------------------------------- one file audit

  const MAX_SOURCE: nat := 4 * 1024 * 1024

  /** What the scanner sees of a file: nothing of one it cannot open, no content of an empty or huge one. */
  function Loaded(file: Option<string>): Option<string> {
    match file
    case None => None
    case Some(content) => Some(if |content| > MAX_SOURCE then "" else content)
  }

  /** How many required patterns the code misses. */
  function Missing(code: string, required: seq<string>): nat {
    if required == [] then 0
    else Missing(code, required[..|required| - 1]) + if Contains(code, required[|required| - 1]) then 0 else 1
  }

  /** How many prohibited patterns the code contains. */
  function Present(code: string, prohibited: seq<string>): nat {
    if prohibited == [] then 0
    else Present(code, prohibited[..|prohibited| - 1]) + if Contains(code, prohibited[|prohibited| - 1]) then 1 else 0
  }

  lemma {:induction false} MissingStep(code: string, required: seq<string>, i: nat)
    requires i < |required|
    ensures Missing(code, required[..i + 1]) == Missing(code, required[..i]) + if Contains(code, required[i]) then 0 else 1
  {
    assert required[..i + 1][..i] == required[..i];
  }

  lemma {:induction false} PresentStep(code: string, prohibited: seq<string>, i: nat)
    requires i < |prohibited|
    ensures Present(code, prohibited[..i + 1]) == Present(code, prohibited[..i]) + if Contains(code, prohibited[i]) then 1 else 0
  {
    assert prohibited[..i + 1][..i] == prohibited[..i];
  }

  lemma {:induction false} NonePicked(code: string, needle: string)
    requires needle != ""
    ensures |Picked(code, needle, 0)| == 0 <==> !Contains(code, needle)
  {
    GreedyIsOptimal(code, needle);
  }

  function Failures(file: Option<string>, required: seq<string>, prohibited: seq<string>): nat {
    match Loaded(file)
    case None => 1
    case Some(content) => Missing(Strip(content), required) + Present(Strip(content), prohibited)
  }

  /** The module-wide pass and fail counters. */
  class Counters {
    var pass: nat
    var fail: nat

    constructor ()
      ensures pass == 0 && fail == 0
    {
      pass, fail := 0, 0;
    }

    method Check(condition: bool)
      modifies this
      ensures pass == old(pass) + (if condition then 1 else 0)
      ensures fail == old(fail) + (if condition then 0 else 1)
    {
      if condition {
        pass := pass + 1;
      } else {
        fail := fail + 1;
      }
    }

    /** An empty prohibited pattern would make the counting loop run forever. */
    method RunFileAudit(file: Option<string>, required: seq<string>, prohibited: seq<string>, checkNum: int)
      returns (failures: nat, nextNum: int)
      requires forall i :: 0 <= i < |prohibited| ==> prohibited[i] != ""
      modifies this
      ensures failures == Failures(file, required, prohibited)
      ensures nextNum == checkNum + if file.None? then 1 else |required| + |prohibited|
      ensures fail == old(fail) + failures
      ensures pass + fail == old(pass + fail) + if file.None? then 1 else |required| + |prohibited|
    {
      hide Strip;
      hide Picked;
      hide Contains;
      hide OccursAt;
      failures, nextNum := 0, checkNum;
      var loaded := Loaded(file);
      if loaded.None? {
        Check(false);
        return 1, nextNum + 1;
      }
      var code := StripComments(loaded.value);
      for i := 0 to |required|
        invariant nextNum == checkNum + i && failures == Missing(code, required[..i])
        invariant fail == old(fail) + failures && pass + fail == old(pass + fail) + i
      {
        MissingStep(code, required, i);
        Check(Contains(code, required[i]));
        if !Contains(code, required[i]) {
          failures := failures + 1;
        }
        nextNum := nextNum + 1;
      }
      assert required[..|required|] == required;
      for i := 0 to |prohibited|
        invariant nextNum == checkNum + |required| + i
        invariant failures == Missing(code, required) + Present(code, prohibited[..i])
        invariant fail == old(fail) + failures && pass + fail == old(pass + fail) + |required| + i
      {
        PresentStep(code, prohibited, i);
        var found := CountOccurrences(code, prohibited[i]);
        NonePicked(code, prohibited[i]);
        Check(found == 0);
        if found != 0 {
          failures := failures + 1;
        }
        nextNum := nextNum + 1;
      }
      assert prohibited[..|prohibited|] == prohibited;
    }
  }

  lemma {:induction false} OneMorePlace(places: set<int>, more: set<int>, n: int, extra: bool)
    requires n !in places && more == places + if extra then {n} else {}
    ensures |more| == |places| + if extra then 1 else 0
  {
  }

  /** Which of the patterns are in the code, or are not. */
  function Places(code: string, patterns: seq<string>, present: bool): set<int> {
    set i | 0 <= i < |patterns| && Contains(code, patterns[i]) == present
  }

  lemma {:induction false} PlacesStep(code: string, patterns: seq<string>, present: bool)
    requires patterns != []
    ensures var n := |patterns| - 1;
            |Places(code, patterns, present)| == |Places(code, patterns[..n], present)| + if Contains(code, patterns[n]) == present then 1 else 0
  {
    hide Contains;
    var n := |patterns| - 1;
    forall i ensures i in Places(code, patterns, present) <==>
                       i in Places(code, patterns[..n], present) || (i == n && Contains(code, patterns[n]) == present)
    {
      if 0 <= i < n { assert patterns[..n][i] == patterns[i]; }
    }
    OneMorePlace(Places(code, patterns[..n], present), Places(code, patterns, present), n, Contains(code, patterns[n]) == present);
  }

  lemma {:induction false} MissingCounts(code: string, required: seq<string>)
    ensures Missing(code, required) == |Places(code, required, false)|
  {
    if required != [] {
      MissingCounts(code, required[..|required| - 1]);
      PlacesStep(code, required, false);
    }
  }

  lemma {:induction false} PresentCounts(code: string, prohibited: seq<string>)
    ensures Present(code, prohibited) == |Places(code, prohibited, true)|
  {
    if prohibited != [] {
      PresentCounts(code, prohibited[..|prohibited| - 1]);
      PlacesStep(code, prohibited, true);
    }
  }

  /**
   The number of failures: one for a missing file, and otherwise as many as there are required patterns
   missing and prohibited ones present in the code of the file, or of nothing if it is over 4 MiB.
   */
  lemma {:induction false} FailuresExactly(file: Option<string>, required: seq<string>, prohibited: seq<string>)
    ensures file.None? ==> Failures(file, required, prohibited) == 1
    ensures file.Some? ==>
              var code := Strip(if |file.value| > 4_194_304 then "" else file.value);
              Failures(file, required, prohibited)
              == |Places(code, required, false)| + |Places(code, prohibited, true)|
  {
    hide Strip;
    hide Contains;
    if file.Some? {
      var code := Strip(if |file.value| > 4_194_304 then "" else file.value);
      MissingCounts(code, required);
      PresentCounts(code, prohibited);
    }
  }

  lemma {:induction false} NothingMissing(code: string, required: seq<string>)
    ensures Missing(code, required) == 0 <==> forall i :: 0 <= i < |required| ==> Contains(code, required[i])
  {
    if required != [] {
      NothingMissing(code, required[..|required| - 1]);
      assert forall i :: 0 <= i < |required| - 1 ==> required[i] == required[..|required| - 1][i];
    }
  }

  lemma {:induction false} NothingPresent(code: string, prohibited: seq<string>)
    ensures Present(code, prohibited) == 0 <==> forall i :: 0 <= i < |prohibited| ==> !Contains(code, prohibited[i])
  {
    if prohibited != [] {
      NothingPresent(code, prohibited[..|prohibited| - 1]);
      assert forall i :: 0 <= i < |prohibited| - 1 ==> prohibited[i] == prohibited[..|prohibited| - 1][i];
    }
  }

  /**
   A file that reads as `pieces` passes the audit exactly if its code, comments aside, contains every
   required and no prohibited pattern.
   */
  lemma {:induction false} AuditReadsCodeOnly(pieces: seq<Piece>, required: seq<string>, prohibited: seq<string>)
    requires Lexed(pieces) && |Text(pieces)| <= MAX_SOURCE
    ensures Failures(Some(Text(pieces)), required, prohibited) == 0 <==>
              && (forall i :: 0 <= i < |required| ==> Contains(CodeOf(pieces), required[i]))
              && (forall i :: 0 <= i < |prohibited| ==> !Contains(CodeOf(pieces), prohibited[i]))
  {
    StripKeepsCode(pieces);
    NothingMissing(CodeOf(pieces), required);
    NothingPresent(CodeOf(pieces), prohibited);
  }

  /** A missing file never passes; an empty or huge one passes exactly if only empty patterns are required. */
  lemma {:induction false} UnreadableFiles(file: Option<string>, required: seq<string>, prohibited: seq<string>)
    requires file.None? || file.value == "" || |file.value| > MAX_SOURCE
    requires forall i :: 0 <= i < |prohibited| ==> prohibited[i] != ""
    ensures Failures(file, required, prohibited) == 0 <==>
              file.Some? && forall i :: 0 <= i < |required| ==> required[i] == ""
  {
    if file.Some? {
      assert Strip("") == "";
      NothingMissing("", required);
      NothingPresent("", prohibited);
      assert forall needle: string :: Contains("", needle) <==> OccursAt("", needle, 0);
    }
  }
}
