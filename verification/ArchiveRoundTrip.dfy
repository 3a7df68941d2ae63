/** Writing an archive and reading it back: the format the parser accepts, seen from the writer's side. */
module ArchiveRoundTrip {
  import opened Basics
  import opened ArchiveFormat
  import opened ArchiveWalkers

  // ---------------------------------------------------------------- numbers and fields

  function Dec(n: nat): (s: Bytes)
    ensures IsDigits(s)
  {
    if n < 10 then [48 + n] else Dec(n / 10) + [48 + n % 10]
  }

  lemma {:induction false} NumberOfDec(n: nat)
    ensures Number(Dec(n)) == n
  {
    if n < 10 {
      assert Dec(n)[..0] == [];
    } else {
      NumberOfDec(n / 10);
      assert Dec(n)[..|Dec(n)| - 1] == Dec(n / 10);
    }
  }

  function Pow10(k: nat): nat {
    if k == 0 then 1 else 10 * Pow10(k - 1)
  }

  lemma {:induction false} DecWidth(n: nat, k: nat)
    requires k > 0 && n < Pow10(k)
    ensures |Dec(n)| <= k
    decreases k
  {
    if n >= 10 {
      assert k > 1 by { assert Pow10(0) == 1; }
      DecWidth(n / 10, k - 1);
    }
  }

  function Spaces(k: nat): (s: Bytes)
    ensures |s| == k && forall i :: 0 <= i < k ==> s[i] == SPACE
  {
    seq(k, i => SPACE)
  }

  /** Neither end is white space. */
  predicate Tight(field: Bytes) {
    field != [] ==> !IsSpace(field[0]) && !IsSpace(field[|field| - 1])
  }

  predicate Fits(field: Bytes, width: nat) {
    |field| <= width && Tight(field)
  }

  function Pad(field: Bytes, width: nat): (s: Bytes)
    requires |field| <= width
    ensures |s| == width
  {
    field + Spaces(width - |field|)
  }

  lemma {:induction false} RStripPadded(field: Bytes, k: nat)
    requires field != [] ==> !IsSpace(field[|field| - 1])
    ensures RStrip(field + Spaces(k)) == field
    decreases k
  {
    var s := field + Spaces(k);
    if k == 0 {
      assert s == field;
    } else {
      assert s[..|s| - 1] == field + Spaces(k - 1);
      RStripPadded(field, k - 1);
    }
  }

  lemma {:induction false} StripPad(field: Bytes, width: nat)
    requires Fits(field, width)
    ensures Strip(Pad(field, width)) == field && RStrip(Pad(field, width)) == field
  {
    RStripPadded(field, width - |field|);
  }

  // ---------------------------------------------------------------- writing

  /** The four metadata fields of a header. */
  datatype Meta = Meta(mtime: Bytes, uid: Bytes, gid: Bytes, mode: Bytes)

  /** An object file, the symbol index, or the extended-name table. */
  datatype Part = File(name: Bytes, meta: Meta, content: Bytes) | Symbols(meta: Meta, content: Bytes) | Table(meta: Meta)

  const MAX_SIZE: nat := 10_000_000_000

  predicate IsLong(p: Part) {
    p.File? && |p.name| > 15
  }

  /** Long names, each ended by a slash and a newline. */
  function TableOf(parts: seq<Part>): Bytes {
    if parts == [] then []
    else
      var last := parts[|parts| - 1];
      TableOf(parts[..|parts| - 1]) + if IsLong(last) then last.name + [SLASH, NEWLINE] else []
  }

  /** A short name ends with a slash; a long one is its offset in the table. */
  function NameField(p: Part, tableOffset: nat): Bytes {
    match p
    case File(name, _, _) => if |name| > 15 then [SLASH] + Dec(tableOffset) else name + [SLASH]
    case Symbols(_, _) => INDEX_NAME
    case Table(_) => TABLE_NAME
  }

  function ContentOf(p: Part, table: Bytes): Bytes {
    if p.Table? then table else p.content
  }

  function NameOf(p: Part): Bytes {
    match p
    case File(name, _, _) => name
    case Symbols(_, _) => INDEX_NAME
    case Table(_) => TABLE_NAME
  }

  predicate ValidMeta(m: Meta) {
    Fits(m.mtime, 12) && Fits(m.uid, 6) && Fits(m.gid, 6) && Fits(m.mode, 8)
  }

  /** What can be written: names that do not end in a slash, and a long name on one line. */
  predicate ValidPart(p: Part) {
    && ValidMeta(p.meta)
    && (p.File? ==> p.name != [] && p.name[|p.name| - 1] != SLASH && (IsLong(p) ==> NEWLINE !in p.name))
    && (!p.Table? ==> |p.content| < MAX_SIZE)
  }

  predicate ValidParts(parts: seq<Part>) {
    && (forall i :: 0 <= i < |parts| ==> ValidPart(parts[i]))
    && |TableOf(parts)| < MAX_SIZE
    && ((exists i :: 0 <= i < |parts| && IsLong(parts[i])) ==> exists i :: 0 <= i < |parts| && parts[i].Table?)
  }

  function HeaderOf(rawName: Bytes, m: Meta, size: nat): (h: Bytes)
    requires |rawName| <= 16 && ValidMeta(m) && |Dec(size)| <= 10
    ensures |h| == HEADER
  {
    Pad(rawName, 16) + Pad(m.mtime, 12) + Pad(m.uid, 6) + Pad(m.gid, 6) + Pad(m.mode, 8) + Pad(Dec(size), 10) + TERMINATOR
  }

  function Padding(size: nat): Bytes {
    if size % 2 == 1 then [NEWLINE] else []
  }

  lemma {:induction false} SizeFits(size: nat)
    requires size < MAX_SIZE
    ensures |Dec(size)| <= 10
  {
    assert Pow10(4) == 10_000;
    assert Pow10(7) == 10_000_000;
    assert Pow10(10) == MAX_SIZE;
    DecWidth(size, 10);
  }

  lemma {:induction false} TableGrows(parts: seq<Part>, i: nat)
    requires i <= |parts|
    ensures TableOf(parts[..i]) <= TableOf(parts)
    decreases |parts| - i
  {
    if i < |parts| {
      TableGrows(parts, i + 1);
      assert parts[..i + 1][..i] == parts[..i];
    } else {
      assert parts[..i] == parts;
    }
  }

  function RawNameOf(parts: seq<Part>, i: nat): Bytes
    requires i < |parts|
  {
    NameField(parts[i], |TableOf(parts[..i])|)
  }

  lemma {:induction false} RawNameFits(parts: seq<Part>, i: nat)
    requires ValidParts(parts) && i < |parts|
    ensures |RawNameOf(parts, i)| <= 16 && RawNameOf(parts, i) != []
    ensures !IsSpace(RawNameOf(parts, i)[|RawNameOf(parts, i)| - 1])
  {
    TableGrows(parts, i);
    SizeFits(|TableOf(parts[..i])|);
  }

  function BlockOf(parts: seq<Part>, i: nat): Block
    requires ValidParts(parts) && i < |parts|
  {
    RawNameFits(parts, i);
    var content := ContentOf(parts[i], TableOf(parts));
    SizeFits(|content|);
    Block(RawNameOf(parts, i), HeaderOf(RawNameOf(parts, i), parts[i].meta, |content|) + content + Padding(|content|))
  }

  function BlocksOf(parts: seq<Part>): (blocks: seq<Block>)
    requires ValidParts(parts)
    ensures |blocks| == |parts| && forall i :: 0 <= i < |parts| ==> blocks[i] == BlockOf(parts, i)
  {
    seq(|parts|, i requires 0 <= i < |parts| => BlockOf(parts, i))
  }

  function Write(parts: seq<Part>): Bytes
    requires ValidParts(parts)
  {
    MAGIC + Joined(BlocksOf(parts))
  }

  // ---------------------------------------------------------------- headers read back

  lemma {:induction false} Cuts(a: Bytes, b: Bytes, c: Bytes, d: Bytes, e: Bytes, f: Bytes, t: Bytes)
    requires |a| == 16 && |b| == 12 && |c| == 6 && |d| == 6 && |e| == 8 && |f| == 10 && |t| == 2
    ensures var h := a + b + c + d + e + f + t;
            && h[0..16] == a && h[16..28] == b && h[28..34] == c && h[34..40] == d
            && h[40..48] == e && h[48..58] == f && h[58..60] == t
  {
  }

  lemma {:induction false} HeaderReads(rawName: Bytes, m: Meta, size: nat)
    requires |rawName| <= 16 && (rawName != [] ==> !IsSpace(rawName[|rawName| - 1]))
    requires ValidMeta(m) && |Dec(size)| <= 10
    ensures ReadHeader(HeaderOf(rawName, m, size)) == Ok(Head(rawName, m.mtime, m.uid, m.gid, m.mode, size))
  {
    hide RStrip;
    hide LStrip;
    hide Strip;
    hide Number;
    hide Dec;
    hide Pad;
    Cuts(Pad(rawName, 16), Pad(m.mtime, 12), Pad(m.uid, 6), Pad(m.gid, 6), Pad(m.mode, 8), Pad(Dec(size), 10), TERMINATOR);
    PadReads(rawName, 16);
    StripPad(m.mtime, 12);
    StripPad(m.uid, 6);
    StripPad(m.gid, 6);
    StripPad(m.mode, 8);
    DigitsAreTight(Dec(size));
    StripPad(Dec(size), 10);
    NumberOfDec(size);
  }

  lemma {:induction false} PadReads(field: Bytes, width: nat)
    requires |field| <= width && (field != [] ==> !IsSpace(field[|field| - 1]))
    ensures RStrip(Pad(field, width)) == field
  {
    RStripPadded(field, width - |field|);
  }

  lemma {:induction false} DigitsAreTight(s: Bytes)
    requires IsDigits(s)
    ensures Tight(s)
  {
  }

  lemma {:induction false} ContentIsSmall(parts: seq<Part>, i: nat)
    requires ValidParts(parts) && i < |parts|
    ensures |ContentOf(parts[i], TableOf(parts))| < MAX_SIZE
    ensures ValidMeta(parts[i].meta)
  {
  }

  /** A written block is whole, and its header says what was written. */
  lemma {:induction false} BlockReads(parts: seq<Part>, i: nat)
    requires ValidParts(parts) && i < |parts|
    ensures var b, p := BlockOf(parts, i), parts[i];
            && WellFormed(b) && b.rawName == RawNameOf(parts, i) && Content(b) == ContentOf(p, TableOf(parts))
            && HeadOf(b) == Head(b.rawName, p.meta.mtime, p.meta.uid, p.meta.gid, p.meta.mode, |ContentOf(p, TableOf(parts))|)
  {
    hide ReadHeader;
    hide HeaderOf;
    hide RawNameOf;
    hide ContentOf;
    RawNameFits(parts, i);
    ContentIsSmall(parts, i);
    var content := ContentOf(parts[i], TableOf(parts));
    SizeFits(|content|);
    HeaderReads(RawNameOf(parts, i), parts[i].meta, |content|);
    assert BlockOf(parts, i).bytes[..HEADER] == HeaderOf(RawNameOf(parts, i), parts[i].meta, |content|);
  }

  // ---------------------------------------------------------------- names read back

  lemma {:induction false} RStripSlashStops(s: Bytes, newlines: bool)
    requires s != [] && s[|s| - 1] != SLASH && (newlines ==> s[|s| - 1] != NEWLINE)
    ensures RStripSlash(s, newlines) == s && RStripSlash(s + [SLASH], newlines) == s
  {
    assert (s + [SLASH])[..|s|] == s;
  }

  lemma {:induction false} LongNameInTable(parts: seq<Part>, i: nat)
    requires i < |parts| && IsLong(parts[i])
    ensures var start := |TableOf(parts[..i])|;
            var end := start + |parts[i].name| + 1;
            var table := TableOf(parts);
            end < |table| && table[start..end] == parts[i].name + [SLASH] && table[end] == NEWLINE
  {
    assert parts[..i + 1][..i] == parts[..i];
    TableGrows(parts, i + 1);
    var front, name := TableOf(parts[..i]), parts[i].name;
    assert TableOf(parts[..i + 1]) == front + (name + [SLASH]) + [NEWLINE];
  }

  lemma {:induction false} FindsEnd(table: Bytes, line: Bytes, start: nat)
    requires start + |line| < |table| && table[start..start + |line|] == line && table[start + |line|] == NEWLINE
    requires NEWLINE !in line
    ensures Find(table, NEWLINE, start) == Some(start + |line|)
  {
    hide Find;
    forall k | start <= k < start + |line| ensures table[k] != NEWLINE {
      assert table[k] == line[k - start];
    }
  }

  lemma {:induction false} LongNameReads(parts: seq<Part>, i: nat)
    requires ValidParts(parts) && i < |parts| && IsLong(parts[i])
    ensures Resolve(RawNameOf(parts, i), TableOf(parts)) == Ok(parts[i].name)
  {
    hide TableOf;
    hide Dec;
    hide Number;
    hide Find;
    hide RStripSlash;
    hide ValidMeta;
    var table, start, name := TableOf(parts), |TableOf(parts[..i])|, parts[i].name;
    LongNameInTable(parts, i);
    var rn := RawNameOf(parts, i);
    assert rn[1..] == Dec(start) && rn[1] == Dec(start)[0];
    NumberOfDec(start);
    FindsEnd(table, name + [SLASH], start);
    RStripSlashStops(name, true);
  }

  lemma {:induction false} NameReads(parts: seq<Part>, i: nat)
    requires ValidParts(parts) && i < |parts|
    ensures Resolve(RawNameOf(parts, i), TableOf(parts)) == Ok(NameOf(parts[i]))
    ensures !IsLong(parts[i]) ==> Resolve(RawNameOf(parts, i), []) == Ok(NameOf(parts[i]))
    ensures IsIndex(RawNameOf(parts, i)) <==> !parts[i].File?
    ensures RawNameOf(parts, i) == TABLE_NAME <==> parts[i].Table?
  {
    var p, rn := parts[i], RawNameOf(parts, i);
    if IsLong(p) {
      LongNameReads(parts, i);
      assert 48 <= rn[1] <= 57;
    } else if p.File? {
      assert rn == p.name + [SLASH];
      assert rn[|rn| - 1] == SLASH && rn[|rn| - 2] == p.name[|p.name| - 1];
      assert rn[1..][|rn| - 2] == SLASH;
      RStripSlashStops(p.name, false);
    }
  }

  // ---------------------------------------------------------------- the round trip

  /** The member carries the part's name, metadata, size and content. */
  predicate Restores(archive: Bytes, m: Member, p: Part, table: Bytes) {
    && m.name == NameOf(p) && m.isIndex == !p.File?
    && m.raw.head.mtime == p.meta.mtime && m.raw.head.uid == p.meta.uid
    && m.raw.head.gid == p.meta.gid && m.raw.head.mode == p.meta.mode
    && m.raw.head.size == |ContentOf(p, table)|
    && Slice(archive, m.raw.offset, m.raw.offset + m.raw.head.size) == ContentOf(p, table)
  }

  /**
   Parsing a written archive gives back every part, in order: names short and long, metadata, sizes,
   and offsets that point at the contents.
   */
  lemma {:induction false} RoundTrip(parts: seq<Part>)
    requires ValidParts(parts)
    ensures var archive := Write(parts);
            && Parse(archive).Ok? && |Parse(archive).value| == |parts|
            && forall i :: 0 <= i < |parts| ==> Restores(archive, Parse(archive).value[i], parts[i], TableOf(parts))
  {
    hide *;
    var names := ParsedWith(parts);
    var raws := RawsAt(BlocksOf(parts), 8);
    forall i | 0 <= i < |parts| ensures Resolve(raws[i].head.rawName, names) == Ok(NameOf(parts[i])) {
      BlockReads(parts, i);
      NameReads(parts, i);
      NoTableNoLongName(parts, i);
    }
    forall i | 0 <= i < |parts|
      ensures Restores(Write(parts), ResolveAll(raws, names).value[i], parts[i], TableOf(parts))
    {
      RestoresPart(parts, BlocksOf(parts), names, i);
    }
  }

  /** A table is missing only if no name needs it. */
  lemma {:induction false} NoTableNoLongName(parts: seq<Part>, i: nat)
    requires ValidParts(parts) && i < |parts|
    ensures IsLong(parts[i]) ==> exists k :: 0 <= k < |parts| && parts[k].Table?
  {
  }

  lemma {:induction false} RestoresPart(parts: seq<Part>, blocks: seq<Block>, names: Bytes, i: nat)
    requires ValidParts(parts) && i < |parts| && blocks == BlocksOf(parts) && AllWellFormed(blocks)
    requires ResolveAll(RawsAt(blocks, 8), names).Ok?
    requires Resolve(RawsAt(blocks, 8)[i].head.rawName, names) == Ok(NameOf(parts[i]))
    ensures Restores(Write(parts), ResolveAll(RawsAt(blocks, 8), names).value[i], parts[i], TableOf(parts))
  {
    hide BlockOf;
    hide Joined;
    hide RawNameOf;
    hide Resolve;
    hide Slice;
    hide WellFormed;
    hide HeadOf;
    hide Content;
    hide RawsAt;
    hide IsIndex;
    hide NameOf;
    hide ContentOf;
    hide ValidParts;
    BlockReads(parts, i);
    NameReads(parts, i);
    ContentsJoined(MAGIC, blocks, i);
  }

  lemma {:induction false} BlocksReadBack(parts: seq<Part>)
    requires ValidParts(parts)
    ensures AllWellFormed(BlocksOf(parts))
  {
    hide BlockOf;
    hide ValidParts;
    hide WellFormed;
    forall i | 0 <= i < |parts| ensures WellFormed(BlocksOf(parts)[i]) {
      BlockReads(parts, i);
    }
  }

  /** The table the parser finds in a written archive. */
  lemma {:induction false} ParsedWith(parts: seq<Part>) returns (names: Bytes)
    requires ValidParts(parts)
    ensures AllWellFormed(BlocksOf(parts))
    ensures names == if exists k :: 0 <= k < |parts| && parts[k].Table? then TableOf(parts) else []
    ensures Parse(Write(parts)) == ResolveAll(RawsAt(BlocksOf(parts), 8), names)
  {
    hide BlockOf;
    hide Joined;
    hide RawNameOf;
    hide WellFormed;
    hide HeadOf;
    hide Content;
    hide RawsAt;
    hide ValidParts;
    hide ContentOf;
    hide ResolveAll;
    hide Parse;
    hide TableOf;
    var blocks, table := BlocksOf(parts), TableOf(parts);
    BlocksReadBack(parts);
    forall i | 0 <= i < |parts|
      ensures blocks[i].rawName == TABLE_NAME <==> parts[i].Table?
      ensures blocks[i].rawName == TABLE_NAME ==> Content(blocks[i]) == table
    {
      BlockReads(parts, i);
      NameReads(parts, i);
      TableContent(parts[i], table);
    }
    ParseJoined(blocks, table);
    names := if exists i :: 0 <= i < |blocks| && blocks[i].rawName == TABLE_NAME then table else [];
  }

  lemma {:induction false} TableContent(p: Part, table: Bytes)
    ensures p.Table? ==> ContentOf(p, table) == table
  {
  }

  // ---------------------------------------------------------------- a table that is needed

  const BLANK: Meta := Meta([], [], [], [])

  /** A name of sixteen letters, one too many to be stored inline. */
  function LongName(): (name: Bytes)
    ensures |name| == 16 && forall i :: 0 <= i < 16 ==> name[i] == 97
  {
    seq(16, _ => 97)
  }

  function LongNamed(): seq<Part> {
    [Symbols(BLANK, []), Table(BLANK), File(LongName(), BLANK, [])]
  }

  lemma {:induction false} LongNamedIsValid()
    ensures ValidParts(LongNamed()) && TableOf(LongNamed()[..2]) == []
  {
    var parts := LongNamed();
    assert parts[..2][..1] == parts[..1] && parts[..1][..0] == [] && parts[..|parts| - 1] == parts[..2];
    assert TableOf(parts[..1]) == [] + [];
    assert parts[1].Table?;
  }

  /** The archive of the first and the third of three blocks. */
  function OuterTwo(blocks: seq<Block>): Bytes
    requires |blocks| == 3
  {
    MAGIC + Joined([blocks[0], blocks[2]])
  }

  /**
   An archive with one long name, written as index, table and object, parses; the same without its
   table, that is, blocks 0 and 2, does not.
   */
  lemma {:induction false} TableIsNeeded()
    ensures ValidParts(LongNamed()) && Parse(Write(LongNamed())).Ok?
    ensures !Parse(OuterTwo(BlocksOf(LongNamed()))).Ok?
  {
    hide *;
    LongNamedIsValid();
    LongNamedBlocks();
    RoundTrip(LongNamed());
    BlocksReadBack(LongNamed());
    WriteJoins(LongNamed());
    WithoutTable(BlocksOf(LongNamed()));
  }

  lemma {:induction false} WriteJoins(parts: seq<Part>)
    requires ValidParts(parts)
    ensures Write(parts) == MAGIC + Joined(BlocksOf(parts))
  {
  }

  lemma {:induction false} WithoutTable(blocks: seq<Block>)
    requires AllWellFormed(blocks) && OnlyTable(blocks, 1) && Parse(MAGIC + Joined(blocks)).Ok?
    requires |blocks| == 3 && IsLongReference(blocks[2].rawName)
    ensures !Parse(OuterTwo(blocks)).Ok?
  {
    hide Parse;
    hide Joined;
    hide WellFormed;
    hide Carries;
    hide IsLongReference;
    var places: seq<nat> := [0, 2];
    AnyChoiceParses(blocks, 1, places);
    assert Select(blocks, places)[1] == blocks[2];
    assert Select(blocks, places) == [blocks[0], blocks[2]];
  }

  lemma {:induction false} LongNamedBlocks()
    requires ValidParts(LongNamed())
    ensures var blocks := BlocksOf(LongNamed());
            |blocks| == 3 && OnlyTable(blocks, 1) && IsLongReference(blocks[2].rawName)
  {
    var parts := LongNamed();
    LongNamedIsValid();
    NameReads(parts, 0);
    NameReads(parts, 1);
    NameReads(parts, 2);
    assert RawNameOf(parts, 2) == [SLASH] + Dec(0);
    assert ([SLASH] + Dec(0))[1..] == Dec(0);
  }
}
