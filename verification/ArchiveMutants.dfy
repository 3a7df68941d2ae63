/** What the contract says, term by term, of the three mutants of an accepted archive. */
module ArchiveMutants {
  import opened Basics
  import opened ArchiveFormat
  import opened ArchiveWalkers
  import opened ArchiveContract

  // ---------------------------------------------------------------- the last block

  /** A good header, whose content the end of the file may cut short. */
  predicate LastBlock(b: Block) {
    && |b.bytes| >= HEADER && ReadHeader(b.bytes[..HEADER]).Ok?
    && |b.bytes| <= After(HEADER, HeadOf(b).size) && b.rawName == HeadOf(b).rawName
  }

  lemma {:induction false} WalkLast(front: Bytes, b: Block)
    requires LastBlock(b)
    ensures Walk(front + b.bytes, |front|) == Ok([Raw(HeadOf(b), |front| + HEADER)])
  {
    hide ReadHeader;
    var data := front + b.bytes;
    assert data[|front|..|front| + HEADER] == b.bytes[..HEADER];
    var raw := Raw(HeadOf(b), |front| + HEADER);
    assert Walk(data, After(|front| + HEADER, HeadOf(b).size)) == Ok([]);
    assert Walk(data, |front|) == Prepend([raw], Ok([]));
    assert [raw] + [] == [raw];
  }

  /** A cut block has its member's head. If it is whole, the member's offset points at its content. */
  predicate CutFits(data: Bytes, b: Block, raw: Raw, whole: bool) {
    && LastBlock(b) && HeadOf(b) == raw.head
    && (whole ==> WellFormed(b) && Slice(data, raw.offset, raw.offset + raw.head.size) == Content(b))
  }

  /** One step of both walkers: the member and the block at `off`, and where the rest goes on. */
  lemma {:induction false} CutOne(data: Bytes, off: nat) returns (raw: Raw, b: Block, end: nat)
    requires Walk(data, off).Ok? && Walk(data, off).value != []
    ensures Walk(data, off) == Prepend([raw], Walk(data, end)) && Blocks(data, off) == Prepend([b], Blocks(data, end))
    ensures CutFits(data, b, raw, end <= |data|) && (end > |data| ==> Walk(data, end) == Ok([]))
  {
    hide Number;
    hide IsDigits;
    hide Strip;
    hide RStrip;
    var hdr := data[off..off + HEADER];
    var head := ReadHeader(hdr).value;
    raw, end := Raw(head, off + HEADER), After(off + HEADER, head.size);
    b := Block(head.rawName, Slice(data, off, end));
    assert b.bytes[..HEADER] == hdr;
    if end <= |data| {
      CutTwice(data, off, end, HEADER, HEADER + head.size);
    }
  }

  /** Blocks cut from an archive: every head is its member's, the earlier ones are whole, the last may be cut. */
  lemma {:induction false} CutBlocksFit(data: Bytes, off: nat, i: nat)
    requires Walk(data, off).Ok? && Blocks(data, off).Ok?
    requires i < |Blocks(data, off).value| && |Blocks(data, off).value| == |Walk(data, off).value|
    ensures CutFits(data, Blocks(data, off).value[i], Walk(data, off).value[i], i + 1 < |Blocks(data, off).value|)
    decreases i
  {
    hide Walk;
    hide Blocks;
    hide CutFits;
    var raw, b, end := CutOne(data, off);
    if i > 0 {
      CutBlocksFit(data, end, i - 1);
    } else {
      CutFitsWeakens(data, b, raw, end <= |data|, 1 < |Blocks(data, off).value|);
    }
  }

  lemma {:induction false} CutFitsWeakens(data: Bytes, b: Block, raw: Raw, whole: bool, ask: bool)
    requires CutFits(data, b, raw, whole) && (ask ==> whole)
    ensures CutFits(data, b, raw, ask)
  {
  }

  lemma {:induction false} CutTwice(data: Bytes, lo: nat, hi: nat, from: nat, to: nat)
    requires lo <= hi <= |data| && from <= to <= hi - lo
    ensures |Slice(data, lo, hi)| == hi - lo && Slice(data, lo, hi)[from..to] == Slice(data, lo + from, lo + to)
  {
    assert |Slice(data, lo, hi)| == hi - lo;
    assert data[lo..hi][from..to] == data[lo + from..lo + to];
  }

  lemma {:induction false} Whole(b: Block)
    requires WellFormed(b)
    ensures LastBlock(b)
  {
  }

  // ---------------------------------------------------------------- archives of two and three blocks

  lemma {:induction false} ParseTwo(t: Block, o: Block)
    requires WellFormed(t) && LastBlock(o) && t.rawName == TABLE_NAME
    ensures Parse(MAGIC + (t.bytes + o.bytes))
         == ResolveAll([Raw(HeadOf(t), 8 + HEADER), Raw(HeadOf(o), 8 + |t.bytes| + HEADER)], Content(t))
  {
    hide ReadHeader;
    hide Resolve;
    hide Slice;
    var data, front := MAGIC + (t.bytes + o.bytes), MAGIC + t.bytes;
    WalkFirst(MAGIC, t, o.bytes);
    WalkLast(front, o);
    var raws := [Raw(HeadOf(t), 8 + HEADER), Raw(HeadOf(o), 8 + |t.bytes| + HEADER)];
    assert data == front + o.bytes && |MAGIC| == 8;
    assert [raws[0]] + [raws[1]] == raws;
    assert Walk(data, 8) == Ok(raws);
    assert LongNames(data, raws) == Content(t);
  }

  lemma {:induction false} WalkThree(i: Block, t: Block, o: Block)
    requires WellFormed(i) && WellFormed(t) && LastBlock(o)
    ensures var data := MAGIC + (i.bytes + (t.bytes + o.bytes));
            && Walk(data, 8) == Ok([Raw(HeadOf(i), 8 + HEADER), Raw(HeadOf(t), 8 + |i.bytes| + HEADER),
                                    Raw(HeadOf(o), 8 + |i.bytes| + |t.bytes| + HEADER)])
            && Slice(data, 8 + |i.bytes| + HEADER, 8 + |i.bytes| + HEADER + HeadOf(t).size) == Content(t)
  {
    hide ReadHeader;
    hide Slice;
    hide WellFormed;
    Whole(i);
    Whole(t);
    var front := MAGIC + i.bytes;
    var data := MAGIC + (i.bytes + (t.bytes + o.bytes));
    WalkFirst(MAGIC, i, t.bytes + o.bytes);
    WalkFirst(front, t, o.bytes);
    WalkLast(front + t.bytes, o);
    assert data == (front + t.bytes) + o.bytes && |MAGIC| == 8;
    var x, y := Raw(HeadOf(i), 8 + HEADER), Raw(HeadOf(t), 8 + |i.bytes| + HEADER);
    var z := Raw(HeadOf(o), 8 + |i.bytes| + |t.bytes| + HEADER);
    assert Walk(data, |front|) == Ok([y] + [z]);
    assert [x] + ([y] + [z]) == [x, y, z];
  }

  lemma {:induction false} ParseThree(i: Block, t: Block, o: Block)
    requires WellFormed(i) && WellFormed(t) && LastBlock(o) && i.rawName == INDEX_NAME && t.rawName == TABLE_NAME
    ensures Parse(MAGIC + (i.bytes + (t.bytes + o.bytes)))
         == ResolveAll([Raw(HeadOf(i), 8 + HEADER), Raw(HeadOf(t), 8 + |i.bytes| + HEADER),
                        Raw(HeadOf(o), 8 + |i.bytes| + |t.bytes| + HEADER)], Content(t))
  {
    hide ReadHeader;
    hide Resolve;
    hide Slice;
    hide Walk;
    WalkThree(i, t, o);
    var data := MAGIC + (i.bytes + (t.bytes + o.bytes));
    var raws := Walk(data, 8).value;
    assert raws[1..][0] == raws[1];
    assert LongNames(data, raws) == LongNames(data, raws[1..]) == Content(t);
  }

  /** What the mutants start from: the three blocks of an accepted archive, and what the contract found in them. */
  ghost predicate Genuine(i: Block, t: Block, o: Block, objectName: Bytes, objectSize: nat) {
    && WellFormed(i) && i.rawName == INDEX_NAME && Unstamped(HeadOf(i)) && HeadOf(i).mode == [48]
    && WellFormed(t) && t.rawName == TABLE_NAME && Unstamped(HeadOf(t)) && Zeroed(HeadOf(t).mode)
    && LastBlock(o) && !IsIndex(o.rawName) && Unstamped(HeadOf(o)) && HeadOf(o).mode == [54, 52, 52]
    && HeadOf(o).size == objectSize && Resolve(o.rawName, Content(t)) == Ok(objectName)
  }

  lemma {:induction false} AcceptedIsGenuine(data: Bytes, objectName: Bytes, objectSize: nat)
    requires Accepted(data, objectName, objectSize)
    ensures Blocks(data, 8).Ok? && |Blocks(data, 8).value| == 3
    ensures var blocks := Blocks(data, 8).value; Genuine(blocks[0], blocks[1], blocks[2], objectName, objectSize)
  {
    hide ReadHeader;
    hide Walk;
    hide Blocks;
    hide Slice;
    AcceptedBlocks(data, objectName, objectSize);
    WalkersAgree(data);
    CutBlocksFit(data, 8, 0);
    CutBlocksFit(data, 8, 1);
    CutBlocksFit(data, 8, 2);
    var raws := Walk(data, 8).value;
    assert raws[1..][0] == raws[1];
    assert LongNames(data, raws) == LongNames(data, raws[1..]);
    assert ResolveAll(raws, LongNames(data, raws)).value[2].raw == raws[2];
  }

  // ---------------------------------------------------------------- the mutants

  /** Without its index an accepted archive still parses, and the count term catches it. */
  lemma {:induction false} MissingIndexTerm(data: Bytes, objectName: Bytes, objectSize: nat)
    requires Accepted(data, objectName, objectSize)
    ensures Blocks(data, 8).Ok?
    ensures var mutant := Parse(MAGIC + Joined(DropIndex(Blocks(data, 8).value)));
            && mutant.Ok? && |mutant.value| == 2 && mutant.value[0].name == TABLE_NAME && mutant.value[1].name == objectName
            && !Evaluate(mutant.value, objectName, objectSize).countOk
  {
    hide Accepted;
    hide WellFormed;
    hide ReadHeader;
    hide Parse;
    hide Blocks;
    AcceptedIsGenuine(data, objectName, objectSize);
    var blocks := Blocks(data, 8).value;
    assert blocks == [blocks[0], blocks[1], blocks[2]];
    MutantShapes(blocks[0], blocks[1], blocks[2]);
    JoinedTwo(blocks[1], blocks[2]);
    ParseTwo(blocks[1], blocks[2]);
    TwoResolve(blocks[0], blocks[1], blocks[2], 8 + HEADER, 8 + |blocks[1].bytes| + HEADER, objectName, objectSize);
  }

  lemma {:induction false} TwoResolve(i: Block, t: Block, o: Block, a: nat, b: nat, objectName: Bytes, objectSize: nat)
    requires Genuine(i, t, o, objectName, objectSize)
    ensures |t.bytes| >= HEADER && ReadHeader(t.bytes[..HEADER]).Ok?
    ensures var r := ResolveAll([Raw(HeadOf(t), a), Raw(HeadOf(o), b)], Content(t));
            r.Ok? && |r.value| == 2 && r.value[0].name == TABLE_NAME && r.value[1].name == objectName
  {
    hide ReadHeader;
    hide WellFormed;
    hide Resolve;
    Whole(t);
    TableResolves(Content(t));
    var raws := [Raw(HeadOf(t), a), Raw(HeadOf(o), b)];
    assert raws[0].head.rawName == TABLE_NAME && raws[1].head.rawName == o.rawName;
  }

  lemma {:induction false} JoinedTwo(a: Block, b: Block)
    ensures Joined([a, b]) == a.bytes + b.bytes
  {
    assert [a, b][1..] == [b] && [b][1..] == [];
    assert Joined([b]) == b.bytes + [] == b.bytes;
  }

  lemma {:induction false} TableResolves(table: Bytes)
    ensures Resolve(TABLE_NAME, table) == Ok(TABLE_NAME) && Resolve(INDEX_NAME, table) == Ok(INDEX_NAME)
  {
  }

  /** With mode 755 the index, table and identity terms stay as they were; the object term alone catches it. */
  lemma {:induction false} ChangedModeTerms(data: Bytes, objectName: Bytes, objectSize: nat)
    requires Accepted(data, objectName, objectSize)
    ensures Blocks(data, 8).Ok?
    ensures AlterMode(Blocks(data, 8).value).Some? ==>
              var mutant := Parse(MAGIC + Joined(AlterMode(Blocks(data, 8).value).value));
              && mutant.Ok?
              && var c := Evaluate(mutant.value, objectName, objectSize);
                 c.countOk && c.orderOk && c.indexMetaOk && c.strtabMetaOk && c.objectIdentityOk && !c.objectMetaOk
  {
    hide Accepted;
    hide WellFormed;
    hide ReadHeader;
    hide Parse;
    hide Blocks;
    hide WithMode755;
    hide LeftJustified644;
    AcceptedIsGenuine(data, objectName, objectSize);
    var blocks := Blocks(data, 8).value;
    assert blocks == [blocks[0], blocks[1], blocks[2]];
    MutantShapes(blocks[0], blocks[1], blocks[2]);
    if LeftJustified644(blocks[2]) {
      var altered := Block(blocks[2].rawName, WithMode755(blocks[2].bytes));
      AlteredHead(blocks[2]);
      JoinedThree(blocks[0], blocks[1], altered);
      ParseThree(blocks[0], blocks[1], altered);
      ThreeTerms(blocks[0], blocks[1], blocks[2], altered, objectName, objectSize);
    }
  }

  lemma {:induction false} ThreeTerms(i: Block, t: Block, o: Block, changed: Block, objectName: Bytes, objectSize: nat)
    requires Genuine(i, t, o, objectName, objectSize)
    requires LastBlock(changed) && HeadOf(changed) == HeadOf(o).(mode := [55, 53, 53])
    ensures LastBlock(i) && LastBlock(t)
    ensures var r := ResolveAll([Raw(HeadOf(i), 8 + HEADER), Raw(HeadOf(t), 8 + |i.bytes| + HEADER),
                                 Raw(HeadOf(changed), 8 + |i.bytes| + |t.bytes| + HEADER)], Content(t));
            && r.Ok?
            && var c := Evaluate(r.value, objectName, objectSize);
               c.countOk && c.orderOk && c.indexMetaOk && c.strtabMetaOk && c.objectIdentityOk && !c.objectMetaOk
  {
    hide ReadHeader;
    hide WellFormed;
    hide Resolve;
    Whole(i);
    Whole(t);
    TableResolves(Content(t));
    var raws := [Raw(HeadOf(i), 8 + HEADER), Raw(HeadOf(t), 8 + |i.bytes| + HEADER),
                 Raw(HeadOf(changed), 8 + |i.bytes| + |t.bytes| + HEADER)];
    assert raws[0].head.rawName == INDEX_NAME && raws[1].head.rawName == TABLE_NAME && raws[2].head.rawName == o.rawName;
  }

  /** The mode edit changes the mode in the header and nothing else. */
  lemma {:induction false} AlteredHead(b: Block)
    requires LastBlock(b)
    ensures var altered := Block(b.rawName, WithMode755(b.bytes));
            LastBlock(altered) && HeadOf(altered) == HeadOf(b).(mode := [55, 53, 53])
  {
    hide Strip;
    hide RStrip;
    hide Number;
    hide IsDigits;
    Stripped755();
    hide WithMode755;
    EditKeeps(b.bytes, 0, 16);
    EditKeeps(b.bytes, 16, 28);
    EditKeeps(b.bytes, 28, 34);
    EditKeeps(b.bytes, 34, 40);
    EditKeeps(b.bytes, 48, 58);
    EditKeeps(b.bytes, 58, 60);
  }

  lemma {:induction false} EditKeeps(bytes: Bytes, lo: nat, hi: nat)
    requires |bytes| >= HEADER && lo <= hi <= HEADER && (hi <= 40 || 48 <= lo)
    ensures |WithMode755(bytes)| == |bytes| && WithMode755(bytes)[..HEADER][lo..hi] == bytes[..HEADER][lo..hi]
    ensures WithMode755(bytes)[..HEADER][40..48] == MODE_755 + SPACES_5
  {
    var w := WithMode755(bytes);
    assert w[40..48] == MODE_755 + SPACES_5;
    assert w[..HEADER][40..48] == w[40..48];
    assert forall k :: lo <= k < hi ==> w[k] == bytes[k];
  }

  /** With the whole object in front the archive parses with three members, and the order term catches it. */
  lemma {:induction false} ReorderedTerm(data: Bytes, objectName: Bytes, objectSize: nat)
    requires Accepted(data, objectName, objectSize)
    ensures Blocks(data, 8).Ok? && |Blocks(data, 8).value| == 3
    ensures WellFormed(Blocks(data, 8).value[2]) ==>
              var mutant := Parse(MAGIC + Joined(ObjectsFirst(Blocks(data, 8).value)));
              && mutant.Ok? && |mutant.value| == 3
              && mutant.value[0].name == objectName && mutant.value[1].name == INDEX_NAME && mutant.value[2].name == TABLE_NAME
              && Evaluate(mutant.value, objectName, objectSize).countOk && !Evaluate(mutant.value, objectName, objectSize).orderOk
  {
    hide Accepted;
    hide ReadHeader;
    hide Parse;
    hide Blocks;
    AcceptedIsGenuine(data, objectName, objectSize);
    var blocks := Blocks(data, 8).value;
    assert blocks == [blocks[0], blocks[1], blocks[2]];
    MutantShapes(blocks[0], blocks[1], blocks[2]);
    if WellFormed(blocks[2]) {
      ReorderedParses(blocks[0], blocks[1], blocks[2], objectName, objectSize);
    }
  }

  lemma {:induction false} ReorderedParses(i: Block, t: Block, o: Block, objectName: Bytes, objectSize: nat)
    requires Genuine(i, t, o, objectName, objectSize) && WellFormed(o)
    ensures var mutant := Parse(MAGIC + Joined([o, i, t]));
            && mutant.Ok? && |mutant.value| == 3
            && mutant.value[0].name == objectName && mutant.value[1].name == INDEX_NAME && mutant.value[2].name == TABLE_NAME
            && objectName != INDEX_NAME
  {
    hide ReadHeader;
    hide Parse;
    hide WellFormed;
    hide Resolve;
    var mutant := [o, i, t];
    ParseJoined(mutant, Content(t));
    assert mutant[2].rawName == TABLE_NAME;
    TableResolves(Content(t));
    IndexNamesAreReserved(o.rawName, Content(t));
    Whole(i);
    Whole(t);
    var raws := RawsAt(mutant, 8);
    assert raws[0].head == HeadOf(o) && raws[1].head == HeadOf(i) && raws[2].head == HeadOf(t);
  }

  // ---------------------------------------------------------------- broken archives

  lemma {:induction false} BrokenHeader(broken: Bytes)
    requires |broken| >= HEADER && (broken[58] != 0x60 || broken[59] != 0x0A)
    ensures ReadHeader(broken[..HEADER]) == Err(BadTerminator)
  {
    var hdr := broken[..HEADER];
    assert hdr[58..60][0] == broken[58] && hdr[58..60][1] == broken[59];
  }

  /** One block with a wrong terminator makes the whole archive unreadable. */
  lemma {:induction false} BrokenTerminatorFails(front: Bytes, whole: seq<Block>, broken: Bytes, tail: Bytes)
    requires AllWellFormed(whole) && |broken| >= HEADER && (broken[58] != 0x60 || broken[59] != 0x0A)
    ensures Walk(front + (Joined(whole) + (broken + tail)), |front|) == Err(BadTerminator)
    decreases |whole|
  {
    hide ReadHeader;
    var rest := Joined(whole) + (broken + tail);
    if whole == [] {
      assert rest == broken + tail;
      assert (front + rest)[|front|..|front| + HEADER] == broken[..HEADER];
      BrokenHeader(broken);
    } else {
      var b, more := whole[0], Joined(whole[1..]) + (broken + tail);
      assert rest == b.bytes + more;
      WalkFirst(front, b, more);
      BrokenTerminatorFails(front + b.bytes, whole[1..], broken, tail);
    }
  }

  /** Such an archive does not parse, nor does one without the magic. */
  lemma {:induction false} UnreadableArchives(whole: seq<Block>, broken: Bytes, tail: Bytes, data: Bytes)
    ensures AllWellFormed(whole) && |broken| >= HEADER && (broken[58] != 0x60 || broken[59] != 0x0A) ==>
              Parse(MAGIC + (Joined(whole) + (broken + tail))).Err?
    ensures (|data| < 8 || data[..8] != [0x21, 0x3C, 0x61, 0x72, 0x63, 0x68, 0x3E, 0x0A]) ==> Parse(data).Err?
  {
    if AllWellFormed(whole) && |broken| >= HEADER && (broken[58] != 0x60 || broken[59] != 0x0A) {
      BrokenTerminatorFails(MAGIC, whole, broken, tail);
    }
    if MAGIC <= data {
      assert data[..8] == MAGIC;
    }
  }
}
