/**
 GNU `ar` archives as bytes: the member walker and name resolver `parse_archive`, and the second,
 independent walker `_archive_raw_blocks` that cuts an archive into self-contained blocks.

 Member names stay bytes here; the source decodes them at the end, which cannot turn other bytes into
 an ASCII name.
 */
module ArchiveFormat {
  import opened Basics

  type Bytes = seq<byte>

  const MAGIC: Bytes := [0x21, 0x3C, 0x61, 0x72, 0x63, 0x68, 0x3E, 0x0A]
  const TERMINATOR: Bytes := [0x60, 0x0A]
  const SLASH: byte := 47
  const NEWLINE: byte := 10
  const SPACE: byte := 32
  const INDEX_NAME: Bytes := [47]
  const TABLE_NAME: Bytes := [47, 47]

  // ---------------------------------------------------------------- text helpers

  predicate IsSpace(b: byte) {
    9 <= b <= 13 || b == SPACE
  }

  function RStrip(s: Bytes): Bytes {
    if s != [] && IsSpace(s[|s| - 1]) then RStrip(s[..|s| - 1]) else s
  }

  function LStrip(s: Bytes): Bytes {
    if s != [] && IsSpace(s[0]) then LStrip(s[1..]) else s
  }

  function Strip(s: Bytes): Bytes {
    LStrip(RStrip(s))
  }

  /** Drop trailing slashes, and trailing newlines too if asked. */
  function RStripSlash(s: Bytes, newlines: bool): Bytes {
    if s != [] && (s[|s| - 1] == SLASH || (newlines && s[|s| - 1] == NEWLINE)) then RStripSlash(s[..|s| - 1], newlines) else s
  }

  predicate IsDigits(s: Bytes) {
    s != [] && forall i :: 0 <= i < |s| ==> 48 <= s[i] <= 57
  }

  function Number(s: Bytes): nat
    requires s == [] || IsDigits(s)
  {
    if s == [] then 0 else 10 * Number(s[..|s| - 1]) + (s[|s| - 1] - 48)
  }

  /** The first index at or after `start` that holds `b`. */
  function Find(s: Bytes, b: byte, start: nat): (r: Option<nat>)
    ensures r.Some? ==> start <= r.value < |s| && s[r.value] == b && forall i :: start <= i < r.value ==> s[i] != b
    ensures r.None? ==> forall i :: start <= i < |s| ==> s[i] != b
    decreases |s| - start
  {
    if start >= |s| then None else if s[start] == b then Some(start) else Find(s, b, start + 1)
  }

  /** A slice that is cut short at the end of the bytes. */
  function Slice(s: Bytes, lo: nat, hi: nat): Bytes {
    if lo >= |s| || hi <= lo then [] else s[lo..Min(hi, |s|)]
  }

  // ---------------------------------------------------------------- the two walkers

  datatype Error = BadMagic | BadTerminator | BadSize | NoLongName

  /** The fields of a member's 60-byte header, and where its content starts. */
  datatype Head = Head(rawName: Bytes, mtime: Bytes, uid: Bytes, gid: Bytes, mode: Bytes, size: nat)

  datatype Raw = Raw(head: Head, offset: nat)

  datatype Member = Member(name: Bytes, isIndex: bool, raw: Raw)

  datatype Block = Block(rawName: Bytes, bytes: Bytes)

  const HEADER: nat := 60

  function RawName(hdr: Bytes): Bytes
    requires |hdr| == HEADER
  {
    RStrip(hdr[0..16])
  }

  function SizeField(hdr: Bytes): Bytes
    requires |hdr| == HEADER
  {
    Strip(hdr[48..58])
  }

  function ReadHeader(hdr: Bytes): Result<Head, Error>
    requires |hdr| == HEADER
  {
    if hdr[58..60] != TERMINATOR then Err(BadTerminator)
    else if !IsDigits(SizeField(hdr)) then Err(BadSize)
    else Ok(Head(RawName(hdr), Strip(hdr[16..28]), Strip(hdr[28..34]), Strip(hdr[34..40]), Strip(hdr[40..48]),
                 Number(SizeField(hdr))))
  }

  /** Where the next header starts: contents are padded to an even length. */
  function After(content: nat, size: nat): nat {
    content + size + if size % 2 == 1 then 1 else 0
  }

  function Left(data: Bytes, off: nat): nat {
    if off <= |data| then |data| - off else 0
  }

  function Prepend<T>(front: seq<T>, r: Result<seq<T>, Error>): Result<seq<T>, Error> {
    match r
    case Err(e) => Err(e)
    case Ok(rest) => Ok(front + rest)
  }

  function Walk(data: Bytes, off: nat): Result<seq<Raw>, Error>
    decreases Left(data, off)
  {
    if off + HEADER > |data| then Ok([])
    else
      match ReadHeader(data[off..off + HEADER])
      case Err(e) => Err(e)
      case Ok(head) => Prepend([Raw(head, off + HEADER)], Walk(data, After(off + HEADER, head.size)))
  }

  /** The second walker does not look at the terminator. */
  function Blocks(data: Bytes, off: nat): Result<seq<Block>, Error>
    decreases Left(data, off)
  {
    if off + HEADER > |data| then Ok([])
    else
      var hdr := data[off..off + HEADER];
      if !IsDigits(SizeField(hdr)) then Err(BadSize)
      else
        var end := After(off + HEADER, Number(SizeField(hdr)));
        Prepend([Block(RawName(hdr), Slice(data, off, end))], Blocks(data, end))
  }

  function Joined(blocks: seq<Block>): Bytes {
    if blocks == [] then [] else blocks[0].bytes + Joined(blocks[1..])
  }

  // ---------------------------------------------------------------- names

  /** The contents of the first extended-name table. */
  function LongNames(data: Bytes, raws: seq<Raw>): Bytes {
    if raws == [] then []
    else if raws[0].head.rawName == TABLE_NAME then Slice(data, raws[0].offset, raws[0].offset + raws[0].head.size)
    else LongNames(data, raws[1..])
  }

  predicate IsIndex(rn: Bytes) {
    rn == INDEX_NAME || rn == TABLE_NAME
  }

  /** A name field that refers into the extended-name table. */
  predicate IsLongReference(rn: Bytes) {
    rn != [] && rn[0] == SLASH && IsDigits(rn[1..])
  }

  function Resolve(rn: Bytes, longNames: Bytes): Result<Bytes, Error> {
    if IsIndex(rn) then Ok(rn)
    else if IsLongReference(rn) then
      var start := Number(rn[1..]);
      match Find(longNames, NEWLINE, start)
      case None => Err(NoLongName)
      case Some(end) => Ok(RStripSlash(longNames[start..end], true))
    else Ok(RStripSlash(rn, false))
  }

  function ResolveAll(raws: seq<Raw>, longNames: Bytes): (r: Result<seq<Member>, Error>)
    ensures r.Ok? ==> |r.value| == |raws|
    ensures r.Ok? <==> forall i :: 0 <= i < |raws| ==> Resolve(raws[i].head.rawName, longNames).Ok?
    ensures r.Ok? ==> forall i :: 0 <= i < |raws| ==>
              r.value[i] == Member(Resolve(raws[i].head.rawName, longNames).value, IsIndex(raws[i].head.rawName), raws[i])
  {
    if raws == [] then Ok([])
    else
      match Resolve(raws[0].head.rawName, longNames)
      case Err(e) =>
        assert Resolve(raws[0].head.rawName, longNames).Err?;
        Err(e)
      case Ok(name) =>
        match ResolveAll(raws[1..], longNames)
        case Err(e) =>
          assert exists i :: 0 <= i < |raws[1..]| && Resolve(raws[1..][i].head.rawName, longNames).Err?;
          Err(e)
        case Ok(rest) => Ok([Member(name, IsIndex(raws[0].head.rawName), raws[0])] + rest)
  }

  function Parse(data: Bytes): Result<seq<Member>, Error> {
    if !(MAGIC <= data) then Err(BadMagic)
    else
      match Walk(data, 8)
      case Err(e) => Err(e)
      case Ok(raws) => ResolveAll(raws, LongNames(data, raws))
  }

  // ---------------------------------------------------------------- the code

  lemma {:induction false} PrependOne<T>(front: seq<T>, next: T, r: Result<seq<T>, Error>)
    ensures Prepend(front, Prepend([next], r)) == Prepend(front + [next], r)
  {
    if r.Ok? {
      assert front + ([next] + r.value) == (front + [next]) + r.value;
    }
  }

  lemma {:induction false} PrependNone<T>(r: Result<seq<T>, Error>)
    ensures Prepend([], r) == r
  {
    if r.Ok? {
      assert [] + r.value == r.value;
    }
  }

  method WalkMembers(data: Bytes) returns (r: Result<seq<Raw>, Error>)
    ensures r == Walk(data, 8)
  {
    hide ReadHeader;
    var off: nat, raws: seq<Raw> := 8, [];
    PrependNone(Walk(data, 8));
    while off + HEADER <= |data|
      invariant Walk(data, 8) == Prepend(raws, Walk(data, off))
      decreases Left(data, off)
    {
      match ReadHeader(data[off..off + HEADER]) {
        case Err(e) => return Err(e);
        case Ok(head) =>
          var raw := Raw(head, off + HEADER);
          PrependOne(raws, raw, Walk(data, After(raw.offset, head.size)));
          raws := raws + [raw];
          off := raw.offset + head.size;
          if head.size % 2 == 1 {
            off := off + 1;
          }
      }
    }
    assert raws + [] == raws;
    return Ok(raws);
  }

  method FindLongNames(data: Bytes, raws: seq<Raw>) returns (longNames: Bytes)
    ensures longNames == LongNames(data, raws)
  {
    var n := 0;
    while n < |raws|
      invariant n <= |raws|
      invariant LongNames(data, raws) == LongNames(data, raws[n..])
    {
      if raws[n].head.rawName == TABLE_NAME {
        return Slice(data, raws[n].offset, raws[n].offset + raws[n].head.size);
      }
      n := n + 1;
    }
    return [];
  }

  method ResolveMembers(raws: seq<Raw>, longNames: Bytes) returns (r: Result<seq<Member>, Error>)
    ensures r == ResolveAll(raws, longNames)
  {
    var members: seq<Member> := [];
    for i := 0 to |raws|
      invariant |members| == i
      invariant forall k :: 0 <= k < i ==>
                  Resolve(raws[k].head.rawName, longNames).Ok?
                  && members[k] == Member(Resolve(raws[k].head.rawName, longNames).value, IsIndex(raws[k].head.rawName), raws[k])
    {
      var resolved := Resolve(raws[i].head.rawName, longNames);
      if resolved.Err? {
        FirstFailure(raws, longNames, i);
        return Err(resolved.error);
      }
      members := members + [Member(resolved.value, IsIndex(raws[i].head.rawName), raws[i])];
    }
    assert ResolveAll(raws, longNames).value == members;
    return Ok(members);
  }

  method ParseArchive(data: Bytes) returns (r: Result<seq<Member>, Error>)
    ensures r == Parse(data)
  {
    if !(MAGIC <= data) {
      return Err(BadMagic);
    }
    var walked := WalkMembers(data);
    if walked.Err? {
      return Err(walked.error);
    }
    var longNames := FindLongNames(data, walked.value);
    r := ResolveMembers(walked.value, longNames);
  }

  lemma {:induction false} FirstFailure(raws: seq<Raw>, longNames: Bytes, i: nat)
    requires i < |raws| && Resolve(raws[i].head.rawName, longNames).Err?
    requires forall k :: 0 <= k < i ==> Resolve(raws[k].head.rawName, longNames).Ok?
    ensures ResolveAll(raws, longNames) == Err(Resolve(raws[i].head.rawName, longNames).error)
    decreases i
  {
    if i > 0 {
      FirstFailure(raws[1..], longNames, i - 1);
    }
  }

  method CutBlocks(data: Bytes) returns (r: Result<seq<Block>, Error>)
    ensures r == Blocks(data, 8)
  {
    hide SizeField;
    hide RawName;
    hide Number;
    var off: nat, blocks: seq<Block> := 8, [];
    PrependNone(Blocks(data, 8));
    while off + HEADER <= |data|
      invariant Blocks(data, 8) == Prepend(blocks, Blocks(data, off))
      decreases Left(data, off)
    {
      var hdr := data[off..off + HEADER];
      var field := SizeField(hdr);
      if !IsDigits(field) {
        return Err(BadSize);
      }
      var size := Number(field);
      var end := off + HEADER + size + if size % 2 == 1 then 1 else 0;
      var next := Block(RawName(hdr), Slice(data, off, end));
      PrependOne(blocks, next, Blocks(data, end));
      blocks := blocks + [next];
      off := end;
    }
    assert blocks + [] == blocks;
    return Ok(blocks);
  }
}
