/**
 The three-member archive contract, and the mutants that a build derives from an accepted archive to
 show that the contract catches a missing index, a changed order and a changed mode.
 */
module ArchiveContract {
  import opened Basics
  import opened ArchiveFormat
  import opened ArchiveWalkers
  import opened ArchiveRoundTrip

  const ZERO: Bytes := [48]
  const MODE_644: Bytes := [54, 52, 52]
  const MODE_755: Bytes := [55, 53, 53]

  // ---------------------------------------------------------------- the contract

  datatype Contract = Contract(
    countOk: bool, orderOk: bool, indexMetaOk: bool, strtabMetaOk: bool, objectMetaOk: bool, objectIdentityOk: bool)
  {
    predicate Ok() {
      orderOk && indexMetaOk && strtabMetaOk && objectMetaOk && objectIdentityOk
    }
  }

  predicate Zeroed(field: Bytes) {
    field == ZERO || field == []
  }

  predicate Unstamped(h: Head) {
    Zeroed(h.mtime) && Zeroed(h.uid) && Zeroed(h.gid)
  }

  function Evaluate(members: seq<Member>, objectName: Bytes, objectSize: nat): Contract {
    var countOk := |members| == 3;
    var orderOk := countOk && members[0].name == INDEX_NAME && members[1].name == TABLE_NAME && members[2].name == objectName;
    if orderOk then
      var idx, strtab, obj := members[0], members[1], members[2];
      Contract(countOk, orderOk,
               Unstamped(idx.raw.head) && idx.raw.head.mode == ZERO,
               Unstamped(strtab.raw.head) && Zeroed(strtab.raw.head.mode),
               Unstamped(obj.raw.head) && obj.raw.head.mode == MODE_644,
               !obj.isIndex && obj.raw.head.size == objectSize)
    else Contract(countOk, orderOk, false, false, false, false)
  }

  /** An archive passes when it parses and its members meet the contract. */
  predicate Accepted(data: Bytes, objectName: Bytes, objectSize: nat) {
    Parse(data).Ok? && Evaluate(Parse(data).value, objectName, objectSize).Ok()
  }

  // ---------------------------------------------------------------- the mutants

  function DropIndex(blocks: seq<Block>): seq<Block> {
    if blocks == [] then []
    else (if blocks[0].rawName != INDEX_NAME then [blocks[0]] else []) + DropIndex(blocks[1..])
  }

  /** The blocks that are, or are not, index blocks, in their order. */
  function Only(blocks: seq<Block>, index: bool): seq<Block> {
    if blocks == [] then []
    else (if IsIndex(blocks[0].rawName) == index then [blocks[0]] else []) + Only(blocks[1..], index)
  }

  /** The stable sort by "is an index block". */
  function ObjectsFirst(blocks: seq<Block>): seq<Block> {
    Only(blocks, false) + Only(blocks, true)
  }

  const SPACES_5: Bytes := [SPACE, SPACE, SPACE, SPACE, SPACE]

  function WithMode755(bytes: Bytes): Bytes
    requires |bytes| >= HEADER
  {
    bytes[..40] + (MODE_755 + SPACES_5) + bytes[48..]
  }

  /** The builder goes on only for a mode field that holds 644 from its first byte. */
  predicate LeftJustified644(b: Block) {
    |b.bytes| >= HEADER && RStrip(b.bytes[40..48]) == MODE_644
  }

  function AlterMode(blocks: seq<Block>): Option<seq<Block>> {
    if blocks == [] then Some([])
    else if IsIndex(blocks[0].rawName) then
      match AlterMode(blocks[1..])
      case None => None
      case Some(rest) => Some([blocks[0]] + rest)
    else if !LeftJustified644(blocks[0]) then None
    else
      match AlterMode(blocks[1..])
      case None => None
      case Some(rest) => Some([Block(blocks[0].rawName, WithMode755(blocks[0].bytes))] + rest)
  }

  function Then(front: seq<Block>, rest: Option<seq<Block>>): Option<seq<Block>> {
    if rest.None? then None else Some(front + rest.value)
  }

  /** The builder's loop. It gives up on an object whose mode field is not as expected. */
  method BuildAlteredMode(blocks: seq<Block>) returns (r: Option<seq<Block>>)
    ensures r == AlterMode(blocks)
  {
    hide LeftJustified644;
    var altered: seq<Block> := [];
    assert blocks[0..] == blocks && (AlterMode(blocks).Some? ==> [] + AlterMode(blocks).value == AlterMode(blocks).value);
    for i := 0 to |blocks|
      invariant AlterMode(blocks) == Then(altered, AlterMode(blocks[i..]))
    {
      var b := blocks[i];
      assert blocks[i..][0] == b && blocks[i..][1..] == blocks[i + 1..];
      if !IsIndex(b.rawName) {
        if !LeftJustified644(b) {
          return None;
        }
        HasHeader(b);
        var hdr := b.bytes[..60];
        hdr := hdr[..40] + (MODE_755 + SPACES_5) + hdr[48..];
        assert hdr + b.bytes[60..] == WithMode755(b.bytes);
        b := Block(b.rawName, hdr + b.bytes[60..]);
      }
      ThenOne(altered, b, AlterMode(blocks[i + 1..]));
      altered := altered + [b];
    }
    assert altered + [] == altered;
    return Some(altered);
  }

  lemma {:induction false} ThenOne(front: seq<Block>, b: Block, rest: Option<seq<Block>>)
    ensures Then(front, Then([b], rest)) == Then(front + [b], rest)
  {
    if rest.Some? {
      assert front + ([b] + rest.value) == (front + [b]) + rest.value;
    }
  }

  lemma {:induction false} HasHeader(b: Block)
    requires LeftJustified644(b)
    ensures |b.bytes| >= HEADER
  {
  }

  // ---------------------------------------------------------------- names

  /** Only the index and the table themselves are called `/` or `//`: no long or padded name is. */
  lemma {:induction false} IndexNamesAreReserved(rn: Bytes, longNames: Bytes)
    requires Resolve(rn, longNames).Ok?
    ensures IsIndex(Resolve(rn, longNames).value) <==> IsIndex(rn)
    ensures IsIndex(rn) ==> Resolve(rn, longNames).value == rn
  {
    var name := Resolve(rn, longNames).value;
    if !IsIndex(rn) {
      if IsLongReference(rn) {
        RStripSlashEnd(longNames[Number(rn[1..])..Find(longNames, NEWLINE, Number(rn[1..])).value], true);
      } else {
        RStripSlashEnd(rn, false);
      }
      assert name != [] ==> name[|name| - 1] != SLASH;
    }
  }

  // ---------------------------------------------------------------- blocks of an accepted archive

  /** Every cut block starts with its own header. */
  lemma {:induction false} BlocksHaveHeaders(data: Bytes, off: nat, i: nat)
    requires Blocks(data, off).Ok? && i < |Blocks(data, off).value|
    ensures var b := Blocks(data, off).value[i]; |b.bytes| >= HEADER && b.rawName == RawName(b.bytes[..HEADER])
    decreases Left(data, off)
  {
    hide Number;
    hide IsDigits;
    var hdr := data[off..off + HEADER];
    var end := After(off + HEADER, Number(SizeField(hdr)));
    if i == 0 {
      assert Slice(data, off, end)[..HEADER] == hdr;
    } else {
      BlocksHaveHeaders(data, end, i - 1);
    }
  }

  /** Every block but the last is whole. */
  lemma {:induction false} EarlierBlocksAreWhole(data: Bytes, off: nat, i: nat)
    requires Walk(data, off).Ok? && Blocks(data, off).Ok? && i + 1 < |Blocks(data, off).value|
    ensures WellFormed(Blocks(data, off).value[i])
    decreases Left(data, off)
  {
    hide Number;
    var hdr := data[off..off + HEADER];
    var end := After(off + HEADER, Number(SizeField(hdr)));
    assert Blocks(data, off) == Prepend([Block(RawName(hdr), Slice(data, off, end))], Blocks(data, end));
    if i == 0 {
      assert end + HEADER <= |data|;
      assert Slice(data, off, end)[..HEADER] == hdr;
    } else {
      EarlierBlocksAreWhole(data, end, i - 1);
    }
  }

  /** What acceptance says about the blocks: index, table and object, in this order. */
  lemma {:induction false} AcceptedBlocks(data: Bytes, objectName: Bytes, objectSize: nat)
    requires Accepted(data, objectName, objectSize)
    ensures Blocks(data, 8).Ok?
    ensures var blocks := Blocks(data, 8).value;
            && |blocks| == 3 && blocks[0].rawName == INDEX_NAME && blocks[1].rawName == TABLE_NAME && !IsIndex(blocks[2].rawName)
            && WellFormed(blocks[0]) && WellFormed(blocks[1])
            && |blocks[2].bytes| >= HEADER && blocks[2].rawName == RawName(blocks[2].bytes[..HEADER])
  {
    hide ReadHeader;
    WalkersAgree(data);
    var raws := Walk(data, 8).value;
    var names := LongNames(data, raws);
    var members := ResolveAll(raws, names).value;
    IndexNamesAreReserved(raws[0].head.rawName, names);
    IndexNamesAreReserved(raws[1].head.rawName, names);
    EarlierBlocksAreWhole(data, 8, 0);
    EarlierBlocksAreWhole(data, 8, 1);
    BlocksHaveHeaders(data, 8, 2);
  }

  // ---------------------------------------------------------------- a missing index, a changed order

  /** An archive whose first block is not the index is not accepted. */
  lemma {:induction false} FirstBlockMustBeIndex(b: Block, tail: Bytes, objectName: Bytes, objectSize: nat)
    requires |b.bytes| >= HEADER && RawName(b.bytes[..HEADER]) != INDEX_NAME
    ensures !Accepted(MAGIC + (b.bytes + tail), objectName, objectSize)
  {
    var data := MAGIC + (b.bytes + tail);
    if Parse(data).Ok? {
      assert data[8..8 + HEADER] == b.bytes[..HEADER];
      FirstHead(data, 8);
      var raws := Walk(data, 8).value;
      IndexNamesAreReserved(raws[0].head.rawName, LongNames(data, raws));
    }
  }

  lemma {:induction false} FirstHead(data: Bytes, off: nat)
    requires off + HEADER <= |data| && Walk(data, off).Ok?
    ensures ReadHeader(data[off..off + HEADER]).Ok?
    ensures Walk(data, off).value != [] && Walk(data, off).value[0] == Raw(ReadHeader(data[off..off + HEADER]).value, off + HEADER)
    ensures Walk(data, off).value[0].head.rawName == RawName(data[off..off + HEADER])
  {
  }

  lemma {:induction false} JoinedThree(a: Block, b: Block, c: Block)
    ensures Joined([a, b, c]) == a.bytes + (b.bytes + c.bytes)
  {
    assert [a, b, c][1..] == [b, c] && [b, c][1..] == [c] && [c][1..] == [];
    assert Joined([c]) == c.bytes + [] == c.bytes;
    assert Joined([b, c]) == b.bytes + c.bytes;
  }

  lemma {:induction false} MutantSteps(b: Block, rest: seq<Block>)
    ensures DropIndex([b] + rest) == (if b.rawName != INDEX_NAME then [b] else []) + DropIndex(rest)
    ensures forall index :: Only([b] + rest, index) == (if IsIndex(b.rawName) == index then [b] else []) + Only(rest, index)
    ensures IsIndex(b.rawName) && AlterMode(rest).Some? ==> AlterMode([b] + rest) == Some([b] + AlterMode(rest).value)
    ensures IsIndex(b.rawName) && AlterMode(rest).None? ==> AlterMode([b] + rest) == None
  {
    assert ([b] + rest)[1..] == rest;
  }

  lemma {:induction false} MutantShapes(a: Block, b: Block, c: Block)
    requires a.rawName == INDEX_NAME && b.rawName == TABLE_NAME && !IsIndex(c.rawName)
    ensures DropIndex([a, b, c]) == [b, c]
    ensures ObjectsFirst([a, b, c]) == [c, a, b]
    ensures AlterMode([a, b, c])
         == if LeftJustified644(c) then Some([a, b, Block(c.rawName, WithMode755(c.bytes))]) else None
  {
    assert [a, b, c] == [a] + [b, c] && [b, c] == [b] + [c] && [c] == [c] + [];
    MutantSteps(a, [b, c]);
    MutantSteps(b, [c]);
    MutantSteps(c, []);
    var x := Block(c.rawName, if |c.bytes| >= HEADER then WithMode755(c.bytes) else c.bytes);
    assert AlterMode([c][1..]) == Some([]) && [x] + [] == [x];
    assert [a] + ([b] + [x]) == [a, b, x];
    assert |c.bytes| < HEADER ==> !LeftJustified644(c);
  }

  /** Without the index block the archive is rejected. */
  lemma {:induction false} DroppingIndexIsCaught(data: Bytes, objectName: Bytes, objectSize: nat)
    requires Accepted(data, objectName, objectSize)
    ensures Blocks(data, 8).Ok? && !Accepted(MAGIC + Joined(DropIndex(Blocks(data, 8).value)), objectName, objectSize)
  {
    hide Accepted;
    AcceptedBlocks(data, objectName, objectSize);
    var blocks := Blocks(data, 8).value;
    assert blocks == [blocks[0], blocks[1], blocks[2]];
    MutantShapes(blocks[0], blocks[1], blocks[2]);
    assert [blocks[1], blocks[2]][1..] == [blocks[2]];
    FirstBlockMustBeIndex(blocks[1], Joined([blocks[2]]), objectName, objectSize);
  }

  /** With the object moved to the front the archive is rejected, even if its content was cut short. */
  lemma {:induction false} ReorderingIsCaught(data: Bytes, objectName: Bytes, objectSize: nat)
    requires Accepted(data, objectName, objectSize)
    ensures Blocks(data, 8).Ok? && !Accepted(MAGIC + Joined(ObjectsFirst(Blocks(data, 8).value)), objectName, objectSize)
  {
    hide Accepted;
    AcceptedBlocks(data, objectName, objectSize);
    var blocks := Blocks(data, 8).value;
    assert blocks == [blocks[0], blocks[1], blocks[2]];
    MutantShapes(blocks[0], blocks[1], blocks[2]);
    JoinedThree(blocks[2], blocks[0], blocks[1]);
    FirstBlockMustBeIndex(blocks[2], blocks[0].bytes + blocks[1].bytes, objectName, objectSize);
  }

  // ---------------------------------------------------------------- a changed mode

  /** The third member's head comes from the third block. */
  lemma {:induction false} ThirdHead(a: Block, b: Block, c: Bytes)
    requires WellFormed(a) && WellFormed(b) && |c| >= HEADER
    ensures var r := Walk(MAGIC + (a.bytes + (b.bytes + c)), 8);
            r.Ok? ==> |r.value| >= 3 && ReadHeader(c[..HEADER]) == Ok(r.value[2].head)
  {
    hide ReadHeader;
    hide WellFormed;
    WalkFirst(MAGIC, a, b.bytes + c);
    var front := MAGIC + a.bytes;
    WalkFirst(front, b, c);
    var data := MAGIC + (a.bytes + (b.bytes + c));
    var off := |front + b.bytes|;
    assert data == (front + b.bytes) + c;
    assert data[off..off + HEADER] == c[..HEADER];
    if Walk(data, 8).Ok? {
      FirstHead(data, off);
    }
  }

  lemma {:induction false} Stripped755()
    ensures Strip(MODE_755 + SPACES_5) == MODE_755
  {
    var s := MODE_755 + SPACES_5;
    assert s[..7][..6] == s[..6] && s[..6][..5] == s[..5] && s[..5][..4] == s[..4] && s[..4][..3] == MODE_755;
    assert RStrip(s[..4]) == RStrip(MODE_755) == MODE_755;
    assert RStrip(s[..6]) == RStrip(s[..5]) == RStrip(s[..4]);
    assert RStrip(s) == RStrip(s[..7]) == RStrip(s[..6]);
  }

  lemma {:induction false} ModeOfAltered(bytes: Bytes)
    requires |bytes| >= HEADER
    ensures |WithMode755(bytes)| == |bytes|
    ensures var r := ReadHeader(WithMode755(bytes)[..HEADER]); r.Ok? ==> r.value.mode == MODE_755
  {
    Stripped755();
    var w := WithMode755(bytes);
    assert w[40..48] == MODE_755 + SPACES_5;
    assert w[..HEADER][40..48] == w[40..48];
  }

  /** An archive whose third member does not have mode 644 is not accepted. */
  lemma {:induction false} ThirdModeMustBe644(data: Bytes, objectName: Bytes, objectSize: nat)
    requires Walk(data, 8).Ok? ==> |Walk(data, 8).value| >= 3 && Walk(data, 8).value[2].head.mode != MODE_644
    ensures !Accepted(data, objectName, objectSize)
  {
    hide Walk;
    hide LongNames;
    hide Resolve;
  }

  /**
   With the object's mode changed from 644 to 755 the archive is rejected. The mutant is built exactly
   when the object's mode field starts with its digits.
   */
  lemma {:induction false} ChangedModeIsCaught(data: Bytes, objectName: Bytes, objectSize: nat)
    requires Accepted(data, objectName, objectSize)
    ensures Blocks(data, 8).Ok? && |Blocks(data, 8).value| == 3
    ensures AlterMode(Blocks(data, 8).value).Some? <==> LeftJustified644(Blocks(data, 8).value[2])
    ensures AlterMode(Blocks(data, 8).value).Some? ==>
              !Accepted(MAGIC + Joined(AlterMode(Blocks(data, 8).value).value), objectName, objectSize)
  {
    hide Accepted;
    hide ReadHeader;
    AcceptedBlocks(data, objectName, objectSize);
    var blocks := Blocks(data, 8).value;
    assert blocks == [blocks[0], blocks[1], blocks[2]];
    MutantShapes(blocks[0], blocks[1], blocks[2]);
    if LeftJustified644(blocks[2]) {
      var altered := Block(blocks[2].rawName, WithMode755(blocks[2].bytes));
      JoinedThree(blocks[0], blocks[1], altered);
      ModeOfAltered(blocks[2].bytes);
      ThirdHead(blocks[0], blocks[1], altered.bytes);
      ThirdModeMustBe644(MAGIC + Joined([blocks[0], blocks[1], altered]), objectName, objectSize);
    }
  }

  // ---------------------------------------------------------------- what is accepted

  predicate NoStamp(m: Meta) {
    m.mtime in {[48], []} && m.uid in {[48], []} && m.gid in {[48], []}
  }

  /** Symbol index, table and the one object, without stamps and with the modes `ar` gives them. */
  predicate GenuineParts(parts: seq<Part>, objectName: Bytes, objectSize: nat) {
    && |parts| == 3 && parts[0].Symbols? && parts[1].Table? && parts[2].File?
    && NoStamp(parts[0].meta) && NoStamp(parts[1].meta) && NoStamp(parts[2].meta)
    && parts[0].meta.mode == [48] && parts[1].meta.mode in {[48], []} && parts[2].meta.mode == [54, 52, 52]
    && parts[2].name == objectName && |parts[2].content| == objectSize
  }

  /** Of all archives that can be written, the contract accepts exactly the genuine ones. */
  lemma {:induction false} AcceptedExactly(parts: seq<Part>, objectName: Bytes, objectSize: nat)
    requires ValidParts(parts)
    ensures Accepted(Write(parts), objectName, objectSize) <==> GenuineParts(parts, objectName, objectSize)
  {
    hide Write;
    hide Parse;
    hide Evaluate;
    hide ValidParts;
    OrderExactly(parts, objectName, objectSize);
    if InOrder(parts, objectName) {
      TermsExactly(parts, objectName, objectSize);
    }
  }

  // ---------------------------------------------------------------- the single terms

  /** The parts are an index, a table and the named object, in this order. */
  predicate InOrder(parts: seq<Part>, objectName: Bytes) {
    |parts| == 3 && parts[0].Symbols? && parts[1].Table? && parts[2].File? && parts[2].name == objectName
  }

  /** Written parts in the right order: each term of the contract holds exactly if its part is as it should be. */
  lemma {:induction false} TermsExactly(parts: seq<Part>, objectName: Bytes, objectSize: nat)
    requires ValidParts(parts) && InOrder(parts, objectName)
    ensures Parse(Write(parts)).Ok?
    ensures var c := Evaluate(Parse(Write(parts)).value, objectName, objectSize);
            && c.countOk && c.orderOk
            && (c.indexMetaOk <==> NoStamp(parts[0].meta) && parts[0].meta.mode == [48])
            && (c.strtabMetaOk <==> NoStamp(parts[1].meta) && parts[1].meta.mode in {[48], []})
            && (c.objectMetaOk <==> NoStamp(parts[2].meta) && parts[2].meta.mode == [54, 52, 52])
            && (c.objectIdentityOk <==> |parts[2].content| == objectSize)
  {
    hide Write;
    hide Parse;
    hide TableOf;
    hide Slice;
    hide ValidParts;
    RoundTrip(parts);
    var members := Parse(Write(parts)).value;
    forall i | 0 <= i < |parts| ensures Restores(Write(parts), members[i], parts[i], TableOf(parts)) {
    }
  }

  /** Written parts in any number and order: the count and order terms. */
  lemma {:induction false} OrderExactly(parts: seq<Part>, objectName: Bytes, objectSize: nat)
    requires ValidParts(parts)
    ensures Parse(Write(parts)).Ok?
    ensures var c := Evaluate(Parse(Write(parts)).value, objectName, objectSize);
            && (c.countOk <==> |parts| == 3)
            && (c.orderOk <==> |parts| == 3 && parts[0].Symbols? && parts[1].Table? && NameOf(parts[2]) == objectName)
            && (c.objectIdentityOk ==> c.orderOk && parts[2].File?)
  {
    hide Write;
    hide Parse;
    hide TableOf;
    hide Slice;
    RoundTrip(parts);
    var members := Parse(Write(parts)).value;
    forall i | 0 <= i < |parts| ensures Restores(Write(parts), members[i], parts[i], TableOf(parts)) && ValidPart(parts[i]) {
    }
  }
}
