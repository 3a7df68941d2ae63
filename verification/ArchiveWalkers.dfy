/** The two archive walkers agree, and blocks may be dropped or reordered without disturbing names. */
module ArchiveWalkers {
  import opened Basics
  import opened ArchiveFormat

  // ---------------------------------------------------------------- text helpers

  lemma {:induction false} RStripKeepsPrefix(s: Bytes)
    ensures RStrip(s) <= s
    ensures RStrip(s) != [] ==> !IsSpace(RStrip(s)[|RStrip(s)| - 1])
  {
    if s != [] && IsSpace(s[|s| - 1]) {
      RStripKeepsPrefix(s[..|s| - 1]);
    }
  }

  lemma {:induction false} RStripSlashEnd(s: Bytes, newlines: bool)
    ensures RStripSlash(s, newlines) != [] ==> RStripSlash(s, newlines)[|RStripSlash(s, newlines)| - 1] != SLASH
  {
    if s != [] && (s[|s| - 1] == SLASH || (newlines && s[|s| - 1] == NEWLINE)) {
      RStripSlashEnd(s[..|s| - 1], newlines);
    }
  }

  // ---------------------------------------------------------------- agreement

  /** Where the i-th content must start: behind the start, all earlier blocks and its own header. */
  ghost predicate OffsetsFit(raws: seq<Raw>, blocks: seq<Block>, off: nat) {
    |raws| == |blocks| && forall i :: 0 <= i < |raws| ==> raws[i].offset == off + |Joined(blocks[..i])| + HEADER
  }

  ghost predicate SameNames(raws: seq<Raw>, blocks: seq<Block>) {
    |raws| == |blocks| && forall i :: 0 <= i < |raws| ==> raws[i].head.rawName == blocks[i].rawName
  }

  lemma {:induction false} OffsetsShift(first: Raw, raws: seq<Raw>, block: Block, blocks: seq<Block>, off: nat)
    requires first.offset == off + HEADER
    requires raws == [] || OffsetsFit(raws, blocks, off + |block.bytes|)
    requires |raws| == |blocks|
    ensures OffsetsFit([first] + raws, [block] + blocks, off)
  {
    var rs, bs := [first] + raws, [block] + blocks;
    forall i | 0 <= i < |rs| ensures rs[i].offset == off + |Joined(bs[..i])| + HEADER {
      if i > 0 {
        assert bs[..i][0] == block && bs[..i][1..] == blocks[..i - 1];
        assert rs[i] == raws[i - 1];
      }
    }
  }

  lemma {:induction false} WalkersAgreeFrom(data: Bytes, off: nat)
    requires off <= |data| && Walk(data, off).Ok?
    ensures Blocks(data, off).Ok?
    ensures var raws, blocks := Walk(data, off).value, Blocks(data, off).value;
            && SameNames(raws, blocks) && OffsetsFit(raws, blocks, off)
            && Joined(blocks) <= data[off..] && |data| - off - |Joined(blocks)| < HEADER
    decreases Left(data, off)
  {
    hide Number;
    if off + HEADER <= |data| {
      var hdr := data[off..off + HEADER];
      var raw := Raw(ReadHeader(hdr).value, off + HEADER);
      var end := After(off + HEADER, raw.head.size);
      var block := Block(RawName(hdr), Slice(data, off, end));
      assert Walk(data, off) == Prepend([raw], Walk(data, end));
      assert Blocks(data, off) == Prepend([block], Blocks(data, end));
      if end <= |data| {
        WalkersAgreeFrom(data, end);
        var rest := Blocks(data, end).value;
        assert ([block] + rest)[1..] == rest;
        assert data[off..] == data[off..end] + data[end..];
        OffsetsShift(raw, Walk(data, end).value, block, rest, off);
      } else {
        assert Walk(data, end) == Ok([]) && Blocks(data, end) == Ok([]);
        OffsetsShift(raw, [], block, [], off);
        assert Joined([block]) == block.bytes + Joined([]) == data[off..];
      }
    }
  }

  /**
   Whenever the parser's walk succeeds, the block cutter finds the same members: equally many, with the
   same raw names, each content just behind the magic, the earlier blocks and its own header; and the
   magic with the joined blocks is the file up to fewer than 60 stray bytes.
   */
  lemma {:induction false} WalkersAgree(data: Bytes)
    requires MAGIC <= data && Walk(data, 8).Ok?
    ensures Blocks(data, 8).Ok?
    ensures var raws, blocks := Walk(data, 8).value, Blocks(data, 8).value;
            && SameNames(raws, blocks) && OffsetsFit(raws, blocks, 8)
            && MAGIC + Joined(blocks) <= data && |data| - |MAGIC + Joined(blocks)| < 60
  {
    WalkersAgreeFrom(data, 8);
    assert data == MAGIC + data[8..];
  }

  // ---------------------------------------------------------------- self-contained blocks

  /** A whole block: a good header, and exactly the content and padding it announces. */
  predicate WellFormed(b: Block) {
    && |b.bytes| >= HEADER && ReadHeader(b.bytes[..HEADER]).Ok?
    && |b.bytes| == After(HEADER, HeadOf(b).size) && b.rawName == HeadOf(b).rawName
  }

  function HeadOf(b: Block): Head
    requires |b.bytes| >= HEADER && ReadHeader(b.bytes[..HEADER]).Ok?
  {
    ReadHeader(b.bytes[..HEADER]).value
  }

  function Content(b: Block): Bytes
    requires WellFormed(b)
  {
    b.bytes[HEADER..HEADER + HeadOf(b).size]
  }

  predicate AllWellFormed(blocks: seq<Block>) {
    forall i :: 0 <= i < |blocks| ==> WellFormed(blocks[i])
  }

  /** The members of an archive made of `blocks`, the first block starting at `off`. */
  function RawsAt(blocks: seq<Block>, off: nat): (raws: seq<Raw>)
    requires AllWellFormed(blocks)
    ensures |raws| == |blocks|
    ensures forall i :: 0 <= i < |blocks| ==> raws[i].head == HeadOf(blocks[i])
  {
    if blocks == [] then []
    else [Raw(HeadOf(blocks[0]), off + HEADER)] + RawsAt(blocks[1..], off + |blocks[0].bytes|)
  }

  lemma {:induction false} InMiddle(front: Bytes, middle: Bytes, tail: Bytes, lo: nat, hi: nat)
    requires lo <= hi <= |middle|
    ensures var data := front + (middle + tail);
            data == (front + middle) + tail && data[|front| + lo..|front| + hi] == middle[lo..hi]
  {
  }

  lemma {:induction false} WalkFirst(front: Bytes, b: Block, tail: Bytes)
    requires WellFormed(b)
    ensures var data := front + (b.bytes + tail);
            && data == (front + b.bytes) + tail
            && Walk(data, |front|) == Prepend([Raw(HeadOf(b), |front| + HEADER)], Walk(data, |front + b.bytes|))
            && Slice(data, |front| + HEADER, |front| + HEADER + HeadOf(b).size) == Content(b)
  {
    hide ReadHeader;
    var data := front + (b.bytes + tail);
    InMiddle(front, b.bytes, tail, 0, HEADER);
    InMiddle(front, b.bytes, tail, HEADER, HEADER + HeadOf(b).size);
    assert b.bytes[0..HEADER] == b.bytes[..HEADER];
  }

  lemma {:induction false} WalkJoined(front: Bytes, blocks: seq<Block>)
    requires AllWellFormed(blocks)
    ensures Walk(front + Joined(blocks), |front|) == Ok(RawsAt(blocks, |front|))
    decreases |blocks|
  {
    hide ReadHeader;
    if blocks != [] {
      WalkFirst(front, blocks[0], Joined(blocks[1..]));
      WalkJoined(front + blocks[0].bytes, blocks[1..]);
    }
  }

  /** Every member's offset points at its block's content. */
  lemma {:induction false} ContentsJoined(front: Bytes, blocks: seq<Block>, i: nat)
    requires AllWellFormed(blocks) && i < |blocks|
    ensures var o := RawsAt(blocks, |front|)[i].offset;
            Slice(front + Joined(blocks), o, o + HeadOf(blocks[i]).size) == Content(blocks[i])
    decreases |blocks|
  {
    hide ReadHeader;
    hide Slice;
    WalkFirst(front, blocks[0], Joined(blocks[1..]));
    if i > 0 {
      ContentsJoined(front + blocks[0].bytes, blocks[1..], i - 1);
    }
  }

  // ---------------------------------------------------------------- any choice of blocks

  /** The blocks at the given places, in the given order. */
  function Select(blocks: seq<Block>, places: seq<nat>): (r: seq<Block>)
    requires forall i :: 0 <= i < |places| ==> places[i] < |blocks|
    ensures |r| == |places| && forall i :: 0 <= i < |places| ==> r[i] == blocks[places[i]]
  {
    seq(|places|, i requires 0 <= i < |places| => blocks[places[i]])
  }

  /** The only extended-name table among the blocks is at place `t`. */
  predicate OnlyTable(blocks: seq<Block>, t: nat) {
    t < |blocks| && forall i :: 0 <= i < |blocks| ==> (blocks[i].rawName == TABLE_NAME <==> i == t)
  }

  lemma {:induction false} LongNamesFound(data: Bytes, raws: seq<Raw>, table: Bytes, t: nat)
    requires t < |raws| && raws[t].head.rawName == TABLE_NAME
    requires forall i :: 0 <= i < |raws| && raws[i].head.rawName == TABLE_NAME ==>
               Slice(data, raws[i].offset, raws[i].offset + raws[i].head.size) == table
    ensures LongNames(data, raws) == table
  {
    hide Slice;
    if raws[0].head.rawName != TABLE_NAME {
      LongNamesFound(data, raws[1..], table, t - 1);
    }
  }

  lemma {:induction false} LongNamesMissing(data: Bytes, raws: seq<Raw>)
    requires forall i :: 0 <= i < |raws| ==> raws[i].head.rawName != TABLE_NAME
    ensures LongNames(data, raws) == []
  {
    hide Slice;
    if raws != [] {
      LongNamesMissing(data, raws[1..]);
    }
  }

  /** Parsing an archive of whole blocks, all of whose tables hold the same names. */
  lemma {:induction false} ParseJoined(blocks: seq<Block>, table: Bytes)
    requires AllWellFormed(blocks)
    requires forall i :: 0 <= i < |blocks| && blocks[i].rawName == TABLE_NAME ==> Content(blocks[i]) == table
    ensures var names := if exists i :: 0 <= i < |blocks| && blocks[i].rawName == TABLE_NAME then table else [];
            Parse(MAGIC + Joined(blocks)) == ResolveAll(RawsAt(blocks, 8), names)
  {
    hide ReadHeader;
    hide Slice;
    hide Resolve;
    WalkJoined(MAGIC, blocks);
    var data, raws := MAGIC + Joined(blocks), RawsAt(blocks, 8);
    forall i | 0 <= i < |blocks|
      ensures raws[i].head.rawName == blocks[i].rawName
      ensures Slice(data, raws[i].offset, raws[i].offset + raws[i].head.size) == Content(blocks[i])
    {
      ContentsJoined(MAGIC, blocks, i);
    }
    if t :| 0 <= t < |blocks| && blocks[t].rawName == TABLE_NAME {
      LongNamesFound(data, raws, table, t);
    } else {
      LongNamesMissing(data, raws);
    }
  }

  lemma {:induction false} ReferencesNeedATable(rn: Bytes, table: Bytes)
    ensures Resolve(rn, []).Ok? <==> !IsLongReference(rn)
    ensures !IsLongReference(rn) ==> Resolve(rn, table) == Resolve(rn, [])
  {
    if IsLongReference(rn) {
      assert 48 <= rn[1..][0];
    }
  }

  predicate NeedsTable(blocks: seq<Block>) {
    exists i :: 0 <= i < |blocks| && IsLongReference(blocks[i].rawName)
  }

  /** Member `m` of an archive is the block `b`, under the name and with the metadata of member `n`. */
  predicate Carries(archive: Bytes, m: Member, b: Block, n: Member) {
    && m == Member(n.name, n.isIndex, Raw(n.raw.head, m.raw.offset))
    && WellFormed(b) && Slice(archive, m.raw.offset, m.raw.offset + m.raw.head.size) == Content(b)
  }

  /**
   Cut an archive with one extended-name table into blocks and join any choice of them, in any order,
   behind the magic. The result parses exactly if it keeps the table or needs none; and then every
   block resolves to the name, metadata, size and content it had in the original archive.
   */
  lemma {:induction false} AnyChoiceParses(blocks: seq<Block>, t: nat, places: seq<nat>)
    requires AllWellFormed(blocks) && OnlyTable(blocks, t) && Parse(MAGIC + Joined(blocks)).Ok?
    requires forall i :: 0 <= i < |places| ==> places[i] < |blocks|
    ensures var chosen := Select(blocks, places);
            var before, after := Parse(MAGIC + Joined(blocks)), Parse(MAGIC + Joined(chosen));
            && |before.value| == |blocks|
            && (after.Ok? <==> t in places || !NeedsTable(chosen))
            && (after.Ok? ==> |after.value| == |places| && forall i :: 0 <= i < |places| ==>
                 Carries(MAGIC + Joined(chosen), after.value[i], blocks[places[i]], before.value[places[i]]))
  {
    hide ReadHeader;
    hide Resolve;
    var chosen := Select(blocks, places);
    var table := Content(blocks[t]);
    ParseJoined(blocks, table);
    assert blocks[t].rawName == TABLE_NAME;
    ParseJoined(chosen, table);
    var names := if t in places then table else [];
    TablePresence(blocks, t, places);
    ChosenResolve(blocks, table, places, names);
    if ResolveAll(RawsAt(chosen, 8), names).Ok? {
      forall i | 0 <= i < |places|
        ensures Carries(MAGIC + Joined(chosen), ResolveAll(RawsAt(chosen, 8), names).value[i], blocks[places[i]],
                        ResolveAll(RawsAt(blocks, 8), table).value[places[i]])
      {
        ChosenCarries(blocks, table, places, names, i);
      }
    }
  }

  lemma {:induction false} ChosenCarries(blocks: seq<Block>, table: Bytes, places: seq<nat>, names: Bytes, i: nat)
    requires AllWellFormed(blocks) && (forall k :: 0 <= k < |places| ==> places[k] < |blocks|) && i < |places|
    requires ResolveAll(RawsAt(blocks, 8), table).Ok? && ResolveAll(RawsAt(Select(blocks, places), 8), names).Ok?
    requires Resolve(RawsAt(Select(blocks, places), 8)[i].head.rawName, names) == Resolve(RawsAt(blocks, 8)[places[i]].head.rawName, table)
    ensures Carries(MAGIC + Joined(Select(blocks, places)), ResolveAll(RawsAt(Select(blocks, places), 8), names).value[i],
                    blocks[places[i]], ResolveAll(RawsAt(blocks, 8), table).value[places[i]])
  {
    hide Joined;
    hide Resolve;
    hide Slice;
    hide WellFormed;
    hide HeadOf;
    hide Content;
    hide RawsAt;
    hide IsIndex;
    ContentsJoined(MAGIC, Select(blocks, places), i);
  }

  lemma {:induction false} TablePresence(blocks: seq<Block>, t: nat, places: seq<nat>)
    requires OnlyTable(blocks, t) && forall i :: 0 <= i < |places| ==> places[i] < |blocks|
    ensures var chosen := Select(blocks, places);
            (exists i :: 0 <= i < |chosen| && chosen[i].rawName == TABLE_NAME) <==> t in places
  {
    var chosen := Select(blocks, places);
    if t in places {
      var k :| 0 <= k < |places| && places[k] == t;
      assert chosen[k].rawName == TABLE_NAME;
    }
  }

  /** Chosen blocks resolve against the table, or against nothing, as they did in the whole archive. */
  lemma {:induction false} ChosenResolve(blocks: seq<Block>, table: Bytes, places: seq<nat>, names: Bytes)
    requires AllWellFormed(blocks) && ResolveAll(RawsAt(blocks, 8), table).Ok?
    requires forall i :: 0 <= i < |places| ==> places[i] < |blocks|
    requires names == table || names == []
    ensures var chosen := Select(blocks, places);
            var raws := RawsAt(chosen, 8);
            && (names == table ==> ResolveAll(raws, names).Ok?)
            && (names == [] ==> (ResolveAll(raws, names).Ok? <==> !NeedsTable(chosen)))
            && (ResolveAll(raws, names).Ok? ==> forall i :: 0 <= i < |raws| ==>
                 Resolve(raws[i].head.rawName, names) == Resolve(RawsAt(blocks, 8)[places[i]].head.rawName, table))
  {
    hide ReadHeader;
    var chosen := Select(blocks, places);
    var raws, all := RawsAt(chosen, 8), RawsAt(blocks, 8);
    forall i | 0 <= i < |raws|
      ensures raws[i].head.rawName == all[places[i]].head.rawName == chosen[i].rawName
      ensures Resolve(raws[i].head.rawName, table).Ok?
      ensures Resolve(raws[i].head.rawName, []).Ok? <==> !IsLongReference(chosen[i].rawName)
      ensures Resolve(raws[i].head.rawName, []).Ok? ==> Resolve(raws[i].head.rawName, []) == Resolve(raws[i].head.rawName, table)
    {
      assert Resolve(all[places[i]].head.rawName, table).Ok?;
      ReferencesNeedATable(raws[i].head.rawName, table);
    }
  }
}
