/**
 Comparing calls: the reference's deliberate defects, the same call at another address, and two
 consumers judged against the model.
 */
module AbiCompare {
  import opened Basics
  import opened AbiQuery
  import opened AbiTheorems
  import opened AbiRepeat

  // ---------------------------------------------------------------- deliberate defects

  /** Leaving out the wrap check shows on every call with a wrapping range, and on no other. */
  lemma {:induction false} OmitWrapShows(a: seq<byte>, c: Call)
    ensures Query(a, c, OmitWrap) != Query(a, c, Genuine)
       <==> Wraps(c.baseReq, c.rs, c.ptrBits) || Wraps(c.baseRes, c.ss, c.ptrBits)
  {
    var addresses := CheckAddresses(c, OmitWrap);
    assert addresses != Some(AddrWrap);
    NeverWrapLater(addresses, a, c, OmitWrap);
    if !(Wraps(c.baseReq, c.rs, c.ptrBits) || Wraps(c.baseRes, c.ss, c.ptrBits)) {
      assert addresses == CheckAddresses(c, Genuine);
      SameWithoutDefect(addresses, a, c);
    }
  }

  lemma {:induction false} NeverWrapLater(addresses: Option<Status>, a: seq<byte>, c: Call, d: Defect)
    requires addresses != Some(AddrWrap)
    ensures var r := Perform(a, c.so, Decide(addresses, a, c, d)); r.Done? ==> r.status != AddrWrap
  {
  }

  lemma {:induction false} SameWithoutDefect(addresses: Option<Status>, a: seq<byte>, c: Call)
    ensures Decide(addresses, a, c, OmitWrap) == Decide(addresses, a, c, Genuine)
  {
  }

  lemma {:induction false} ImagesDiffer(m: nat, k: nat)
    ensures SuccessImage(m) == SuccessImage(k) <==> m % 2 == k % 2
  {
    ImageReadsAs(m);
    ImageReadsAs(k);
    MaskBits(m);
    MaskBits(k);
  }

  lemma {:induction false} FillsDiffer(a: seq<byte>, so: nat, m: nat, k: nat)
    requires so <= |a|
    ensures Perform(a, so, Fill(m)) == Perform(a, so, Fill(k)) <==> m % 2 == k % 2
  {
    ImagesDiffer(m, k);
    var p, q := Overwrite(a, so, SuccessImage(m)), Overwrite(a, so, SuccessImage(k));
    assert p[so..so + 72] == SuccessImage(m) && q[so..so + 72] == SuccessImage(k);
  }

  lemma {:induction false} IgnoringMaskDecides(addresses: Option<Status>, a: seq<byte>, c: Call)
    ensures var genuine, defective := Decide(addresses, a, c, Genuine), Decide(addresses, a, c, IgnoreMask);
            if genuine.Fill? then c.ro + 32 <= |a| && genuine.mask == U32(a, c.ro + 12) && defective == Fill(MASK_KNOWN)
            else defective == genuine
  {
  }

  lemma {:induction false} DifferentFill(a: seq<byte>, so: nat, genuine: Action, defective: Action)
    requires so <= |a| && genuine.Fill? && defective == Fill(MASK_KNOWN)
    ensures Perform(a, so, defective) != Perform(a, so, genuine) <==> genuine.mask % 2 == 0
  {
    FillsDiffer(a, so, genuine.mask, MASK_KNOWN);
  }

  /** Ignoring the mask shows exactly when the query succeeds and the request excludes the CPU. */
  lemma {:induction false} IgnoreMaskShows(a: seq<byte>, c: Call)
    ensures Query(a, c, IgnoreMask) != Query(a, c, Genuine)
       <==> Query(a, c, Genuine).Done? && Query(a, c, Genuine).status == Success
            && c.ro + 32 <= |a| && U32(a, c.ro + 12) % 2 == 0
  {
    var addresses := CheckAddresses(c, Genuine);
    assert addresses == CheckAddresses(c, IgnoreMask);
    IgnoringMaskDecides(addresses, a, c);
    var genuine := Decide(addresses, a, c, Genuine);
    if Query(a, c, Genuine).Done? {
      SuccessIsFill(a, c);
    }
    if genuine.Fill? {
      DifferentFill(a, c.so, genuine, Decide(addresses, a, c, IgnoreMask));
    }
  }

  lemma {:induction false} OffByOneDecides(addresses: Option<Status>, a: seq<byte>, c: Call)
    ensures var genuine, defective := Decide(addresses, a, c, Genuine), Decide(addresses, a, c, OffByOneClear);
            if genuine.ClearFirst? && genuine.status == ResultAbi
            then defective == ClearFirst(genuine.n + 1, ResultAbi) && genuine.n == Touchable(a, c)
            else defective == genuine
  {
  }

  lemma {:induction false} OneMoreClearedShows(a: seq<byte>, so: nat, n: nat)
    requires so + n <= |a|
    ensures Perform(a, so, ClearFirst(n, ResultAbi)) != Perform(a, so, ClearFirst(n + 1, ResultAbi))
       <==> so + n == |a| || a[so + n] != 0
  {
    if so + n < |a| {
      var p, q := Overwrite(a, so, Zeros(n)), Overwrite(a, so, Zeros(n + 1));
      assert p[so + n] == a[so + n] && q[so + n] == 0;
      if a[so + n] == 0 { assert p == q; }
    }
  }

  /**
   Clearing one byte too many shows exactly when the result is rejected and the byte after the
   clearable ones is not zero or lies outside the arena.
   */
  lemma {:induction false} OffByOneShows(a: seq<byte>, c: Call)
    requires Query(a, c, Genuine).Done?
    ensures Query(a, c, OffByOneClear) != Query(a, c, Genuine)
       <==> Query(a, c, Genuine).status == ResultAbi
            && (c.so + Touchable(a, c) >= |a| || a[c.so + Touchable(a, c)] != 0)
  {
    var addresses := CheckAddresses(c, Genuine);
    assert addresses == CheckAddresses(c, OffByOneClear);
    OffByOneDecides(addresses, a, c);
    var genuine := Decide(addresses, a, c, Genuine);
    if genuine.ClearFirst? && genuine.status == ResultAbi {
      OneMoreClearedShows(a, c.so, genuine.n);
    } else {
      RejectionIsClearing(addresses, a, c);
    }
  }

  lemma {:induction false} RejectionIsClearing(addresses: Option<Status>, a: seq<byte>, c: Call)
    requires addresses.Some? ==> addresses.value == AddrWrap || addresses.value == AddrOverlap
    ensures var action := Decide(addresses, a, c, Genuine);
            Perform(a, c.so, action).Done? && Perform(a, c.so, action).status == ResultAbi
            ==> action.ClearFirst? && action.status == ResultAbi
  {
  }

  // ---------------------------------------------------------------- position independence

  /** A pointer to a range inside an arena of `length` bytes, or one whose size is all ones. */
  predicate Inside(nonNull: bool, at: nat, size: nat, length: nat) {
    nonNull ==> at + size <= length || (size == MAX_U64 && at <= length)
  }

  predicate InsideArena(c: Call, length: nat) {
    c.ptrBits == 64 && Inside(c.rp, c.ro, c.rs, length) && Inside(c.sp, c.so, c.ss, length)
  }

  /** The same call on an arena that lies at `base`. */
  function At(c: Call, base: nat): Call {
    c.(baseReq := if c.rp then base + c.ro else 0, baseRes := if c.sp then base + c.so else 0)
  }

  lemma {:induction false} Pow64()
    ensures Pow2(64) == 0x1_0000_0000_0000_0000
  {
    assert Pow2(8) == 2 * (2 * (2 * (2 * Pow2(4)))) == 0x100;
    Pow2Add(8, 8);
    Pow2Add(16, 16);
    Pow2Add(32, 32);
  }

  lemma {:induction false} DoubleProduct(x: nat, y: nat)
    ensures 2 * (x * y) == (2 * x) * y
  {
  }

  lemma {:induction false} Pow2Add(m: nat, n: nat)
    ensures Pow2(m + n) == Pow2(m) * Pow2(n)
  {
    if m > 0 {
      Pow2Add(m - 1, n);
      DoubleProduct(Pow2(m - 1), Pow2(n));
    }
  }

  lemma {:induction false} WrapsInside(nonNull: bool, at: nat, size: nat, length: nat, base: nat)
    requires base > 0 && base + length < Pow2(64) && Inside(nonNull, at, size, length)
    ensures Wraps(if nonNull then base + at else 0, size, 64) <==> nonNull && size == MAX_U64
  {
    Pow64();
    var address := if nonNull then base + at else 0;
    WrapsExactly(address, size, 64);
    if !nonNull { NullNeverWraps(size, 64); }
  }

  lemma {:induction false} NullNeverWraps(size: nat, bits: nat)
    ensures !Wraps(0, size, bits)
  {
  }

  lemma {:induction false} OverlapInside(c: Call, length: nat, base: nat)
    requires base > 0 && base + length < Pow2(64) && InsideArena(c, length)
    requires !(c.rp && c.rs == MAX_U64) && !(c.sp && c.ss == MAX_U64)
    ensures Overlap(At(c, base).baseReq, c.rs, At(c, base).baseRes, c.ss, 64)
       <==> c.rp && c.sp && c.rs != 0 && c.ss != 0 && c.ro < c.so + c.ss && c.so < c.ro + c.rs
  {
    if c.rp && c.sp {
      MaskKeeps(base + c.ro + c.rs, 64);
      MaskKeeps(base + c.so + c.ss, 64);
    }
  }

  /**
   The verdict and the arena do not depend on where the arena lies: any two addresses that are not
   null, and from which the arena does not wrap, give the same outcome.
   */
  lemma {:induction false} PositionIndependent(a: seq<byte>, c: Call, x: nat, y: nat)
    requires InsideArena(c, |a|)
    requires x > 0 && x + |a| < Pow2(64) && y > 0 && y + |a| < Pow2(64)
    ensures Query(a, At(c, x), Genuine) == Query(a, At(c, y), Genuine)
  {
    SameChecks(c, |a|, x, y);
    AddressesBlind(CheckAddresses(At(c, x), Genuine), a, c, x, y);
  }

  lemma {:induction false} SameChecks(c: Call, length: nat, x: nat, y: nat)
    requires InsideArena(c, length)
    requires x > 0 && x + length < Pow2(64) && y > 0 && y + length < Pow2(64)
    ensures CheckAddresses(At(c, x), Genuine) == CheckAddresses(At(c, y), Genuine)
  {
    hide Wraps;
    hide Overlap;
    hide Inside;
    hide Pow2;
    WrapsInside(c.rp, c.ro, c.rs, length, x);
    WrapsInside(c.rp, c.ro, c.rs, length, y);
    WrapsInside(c.sp, c.so, c.ss, length, x);
    WrapsInside(c.sp, c.so, c.ss, length, y);
    if !(c.rp && c.rs == MAX_U64) && !(c.sp && c.ss == MAX_U64) {
      OverlapInside(c, length, x);
      OverlapInside(c, length, y);
    }
  }

  /** After the address checks the addresses are not looked at again. */
  lemma {:induction false} AddressesBlind(addresses: Option<Status>, a: seq<byte>, c: Call, x: nat, y: nat)
    ensures Decide(addresses, a, At(c, x), Genuine) == Decide(addresses, a, At(c, y), Genuine)
  {
  }

  // ---------------------------------------------------------------- two consumers

  datatype Case = Case(id: nat, arena: seq<byte>, rp: bool, ro: nat, rs: nat, sp: bool, so: nat, ss: nat)

  /** What a consumer reports for a case: its status, where its ranges lay, and the arena afterwards. */
  datatype Report = Report(id: nat, status: nat, baseReq: nat, baseRes: nat, arena: seq<byte>)

  datatype Divergence = Divergence(id: nat, got: nat, expected: nat)

  function StatusNumber(s: Status): nat {
    match s
    case Success => 0
    case AddrWrap => 1
    case AddrOverlap => 2
    case ResultNull => 3
    case ResultAbi => 4
    case RequestAbi => 5
    case RequestField => 6
  }

  /** The reports by case id; of two reports with one id the later counts. */
  function ById(reports: seq<Report>): map<nat, Report> {
    if reports == [] then map[]
    else
      var last := reports[|reports| - 1];
      ById(reports[..|reports| - 1])[last.id := last]
  }

  /** The modelled call for a case as a consumer ran it; null pointers count as address zero. */
  function CallOf(k: Case, ptrBits: nat, r: Report): Call {
    Call(ptrBits, k.rp, k.ro, k.rs, if k.rp then r.baseReq else 0, k.sp, k.so, k.ss, if k.sp then r.baseRes else 0)
  }

  /** The model's answer for a case, or None if it has no report or runs outside its arena. */
  function Expected(k: Case, ptrBits: nat, index: map<nat, Report>, d: Defect): Option<(nat, seq<byte>)> {
    if k.id !in index then None
    else
      match Query(k.arena, CallOf(k, ptrBits, index[k.id]), d)
      case OutOfBounds => None
      case Done(status, arena) => Some((StatusNumber(status), arena))
  }

  predicate Agrees(k: Case, ptrBits: nat, index: map<nat, Report>, d: Defect) {
    k.id in index && Expected(k, ptrBits, index, d) == Some((index[k.id].status, index[k.id].arena))
  }

  /** Of several reports with one id the last one counts. */
  lemma {:induction false} LastReportCounts(reports: seq<Report>, i: nat)
    requires i < |reports| && forall j :: i < j < |reports| ==> reports[j].id != reports[i].id
    ensures reports[i].id in ById(reports) && ById(reports)[reports[i].id] == reports[i]
    decreases |reports|
  {
    if i < |reports| - 1 {
      LastReportCounts(reports[..|reports| - 1], i);
    }
  }

  lemma {:induction false} OnlyReported(reports: seq<Report>, id: nat)
    ensures id in ById(reports) <==> exists i :: 0 <= i < |reports| && reports[i].id == id
  {
    if reports != [] {
      var front := reports[..|reports| - 1];
      OnlyReported(front, id);
      if i :| 0 <= i < |reports| && reports[i].id == id { assert i < |front| ==> front[i].id == id; }
      if i :| 0 <= i < |front| && front[i].id == id { assert reports[i].id == id; }
      assert reports[|reports| - 1].id in ById(reports);
    }
  }

  /** The statuses as the reports number them. */
  lemma {:induction false} StatusNumbers()
    ensures StatusNumber(Success) == 0 && StatusNumber(AddrWrap) == 1 && StatusNumber(AddrOverlap) == 2
    ensures StatusNumber(ResultNull) == 3 && StatusNumber(ResultAbi) == 4
    ensures StatusNumber(RequestAbi) == 5 && StatusNumber(RequestField) == 6
  {
  }

  /**
   The expectation for a case is what the query gives for the case's sizes and offsets and the addresses
   that the consumer used, null pointers being address zero; and a consumer agrees exactly if its report
   has that status and that arena.
   */
  lemma {:induction false} AgreesExactly(k: Case, ptrBits: nat, index: map<nat, Report>, d: Defect, status: nat, arena: seq<byte>)
    ensures Expected(k, ptrBits, index, d) == Some((status, arena)) <==>
              && k.id in index
              && var r := index[k.id];
                 var q := Query(k.arena, Call(ptrBits, k.rp, k.ro, k.rs, if k.rp then r.baseReq else 0,
                                              k.sp, k.so, k.ss, if k.sp then r.baseRes else 0), d);
                 q.Done? && StatusNumber(q.status) == status && q.arena == arena
    ensures Agrees(k, ptrBits, index, d) <==>
              k.id in index && Expected(k, ptrBits, index, d) == Some((index[k.id].status, index[k.id].arena))
  {
  }

  /** Places below n, each once and in order. */
  predicate Rising(places: seq<nat>, n: nat) {
    && (forall i, j :: 0 <= i < j < |places| ==> places[i] < places[j])
    && forall i :: 0 <= i < |places| ==> places[i] < n
  }

  /**
   The reported divergences, in the order of the cases: one for every case on which model and consumer
   differ. `places` are these cases.
   */
  method DiffAgainstReference(cases: seq<Case>, ptrBits: nat, reports: seq<Report>, mutate: Defect)
    returns (r: Option<seq<Divergence>>, ghost places: seq<nat>)
    ensures r.Some? <==> forall i :: 0 <= i < |cases| ==> Expected(cases[i], ptrBits, ById(reports), mutate).Some?
    ensures r == Some([]) <==> forall i :: 0 <= i < |cases| ==> Agrees(cases[i], ptrBits, ById(reports), mutate)
    ensures r.Some? ==>
              && Rising(places, |cases|) && |r.value| == |places|
              && (forall i: nat :: i in places <==> i < |cases| && !Agrees(cases[i], ptrBits, ById(reports), mutate))
              && forall j :: 0 <= j < |places| ==>
                   r.value[j] == Divergence(cases[places[j]].id, ById(reports)[cases[places[j]].id].status,
                                            Expected(cases[places[j]], ptrBits, ById(reports), mutate).value.0)
  {
    var index := ById(reports);
    var div: seq<Divergence> := [];
    places := [];
    hide Query;
    for n := 0 to |cases|
      invariant forall i :: 0 <= i < n ==> Expected(cases[i], ptrBits, index, mutate).Some?
      invariant Rising(places, n) && |div| == |places|
      invariant forall i: nat :: i in places <==> i < n && !Agrees(cases[i], ptrBits, index, mutate)
      invariant forall j :: 0 <= j < |places| ==> places[j] in places
      invariant forall j :: 0 <= j < |places| ==>
                  div[j] == Divergence(cases[places[j]].id, index[cases[places[j]].id].status,
                                       Expected(cases[places[j]], ptrBits, index, mutate).value.0)
    {
      var k := cases[n];
      if k.id !in index {
        return None, places;
      }
      var answer := Simulate(k.arena, CallOf(k, ptrBits, index[k.id]), mutate);
      if answer.OutOfBounds? {
        return None, places;
      }
      if index[k.id].status != StatusNumber(answer.status) || index[k.id].arena != answer.arena {
        div := div + [Divergence(k.id, index[k.id].status, StatusNumber(answer.status))];
        places := places + [n];
      }
    }
    assert places != [] ==> places[0] in places;
    r := Some(div);
  }

  /** The cases on which two consumers differ. */
  function CrossConsumerDiff(cases: seq<Case>, a: map<nat, Report>, b: map<nat, Report>): seq<nat>
    requires forall i :: 0 <= i < |cases| ==> cases[i].id in a && cases[i].id in b
  {
    if cases == [] then []
    else
      var last := cases[|cases| - 1].id;
      CrossConsumerDiff(cases[..|cases| - 1], a, b)
      + if a[last].status != b[last].status || a[last].arena != b[last].arena then [last] else []
  }

  predicate ReportsDiffer(k: Case, a: map<nat, Report>, b: map<nat, Report>)
    requires k.id in a && k.id in b
  {
    a[k.id].status != b[k.id].status || a[k.id].arena != b[k.id].arena
  }

  /** The places of the true flags. */
  function Raised(flags: seq<bool>): (places: seq<nat>)
    ensures Rising(places, |flags|)
    ensures forall i: nat :: i in places <==> i < |flags| && flags[i]
  {
    if flags == [] then []
    else
      var last := |flags| - 1;
      var front := Raised(flags[..last]);
      if flags[last] then front + [last] else front
  }

  function Differences(cases: seq<Case>, a: map<nat, Report>, b: map<nat, Report>): (flags: seq<bool>)
    requires forall i :: 0 <= i < |cases| ==> cases[i].id in a && cases[i].id in b
    ensures |flags| == |cases| && forall i :: 0 <= i < |cases| ==> flags[i] == ReportsDiffer(cases[i], a, b)
  {
    seq(|cases|, i requires 0 <= i < |cases| => ReportsDiffer(cases[i], a, b))
  }

  function Ids(cases: seq<Case>): (ids: seq<nat>)
    ensures |ids| == |cases| && forall i :: 0 <= i < |cases| ==> ids[i] == cases[i].id
  {
    seq(|cases|, i requires 0 <= i < |cases| => cases[i].id)
  }

  function Flagged(ids: seq<nat>, flags: seq<bool>): seq<nat>
    requires |ids| == |flags|
  {
    if ids == [] then []
    else
      var last := |ids| - 1;
      Flagged(ids[..last], flags[..last]) + if flags[last] then [ids[last]] else []
  }

  lemma {:induction false} FlaggedPlaces(ids: seq<nat>, flags: seq<bool>)
    requires |ids| == |flags|
    ensures var r, places := Flagged(ids, flags), Raised(flags);
            |r| == |places| && forall j :: 0 <= j < |places| ==> r[j] == ids[places[j]]
  {
    if ids != [] {
      var last := |ids| - 1;
      FlaggedPlaces(ids[..last], flags[..last]);
    }
  }

  lemma {:induction false} CrossConsumerFlags(cases: seq<Case>, a: map<nat, Report>, b: map<nat, Report>)
    requires forall i :: 0 <= i < |cases| ==> cases[i].id in a && cases[i].id in b
    ensures CrossConsumerDiff(cases, a, b) == Flagged(Ids(cases), Differences(cases, a, b))
  {
    if cases != [] {
      var last := |cases| - 1;
      CrossConsumerFlags(cases[..last], a, b);
      assert Differences(cases, a, b)[..last] == Differences(cases[..last], a, b);
      assert Ids(cases)[..last] == Ids(cases[..last]);
    }
  }

  /**
   The result names, in the order of the cases, exactly those whose two reports differ in status or
   arena; `places` are these cases. So it is empty exactly if the consumers agree on every case.
   */
  lemma {:induction false} CrossConsumerExactly(cases: seq<Case>, a: map<nat, Report>, b: map<nat, Report>) returns (places: seq<nat>)
    requires forall i :: 0 <= i < |cases| ==> cases[i].id in a && cases[i].id in b
    ensures Rising(places, |cases|)
    ensures forall i: nat :: i in places <==>
              i < |cases| && (a[cases[i].id].status != b[cases[i].id].status || a[cases[i].id].arena != b[cases[i].id].arena)
    ensures var r := CrossConsumerDiff(cases, a, b);
            |r| == |places| && forall j :: 0 <= j < |places| ==> r[j] == cases[places[j]].id
    ensures CrossConsumerDiff(cases, a, b) == [] <==>
              forall i :: 0 <= i < |cases| ==> a[cases[i].id].status == b[cases[i].id].status && a[cases[i].id].arena == b[cases[i].id].arena
  {
    hide CrossConsumerDiff;
    hide Raised;
    hide Differences;
    places := Raised(Differences(cases, a, b));
    hide Flagged;
    hide Ids;
    CrossConsumerFlags(cases, a, b);
    FlaggedPlaces(Ids(cases), Differences(cases, a, b));
    if places != [] { assert places[0] in places; }
    if i :| 0 <= i < |cases| && ReportsDiffer(cases[i], a, b) { assert i in places; }
  }

  /** A consumer laid the case's arena out at some address that is not null and does not wrap. */
  ghost predicate LaidOut(k: Case, index: map<nat, Report>) {
    && k.id in index
    && exists base {:trigger At(CallOf(k, 64, index[k.id]), base)} ::
         0 < base && base + |k.arena| < Pow2(64) && CallOf(k, 64, index[k.id]) == At(CallOf(k, 64, index[k.id]), base)
  }

  lemma {:induction false} SameExpectation(k: Case, a: map<nat, Report>, b: map<nat, Report>)
    requires LaidOut(k, a) && LaidOut(k, b) && InsideArena(CallOf(k, 64, a[k.id]), |k.arena|)
    ensures Expected(k, 64, a, Genuine) == Expected(k, 64, b, Genuine)
  {
    var c, e := CallOf(k, 64, a[k.id]), CallOf(k, 64, b[k.id]);
    var x :| 0 < x && x + |k.arena| < Pow2(64) && c == At(c, x);
    var y :| 0 < y && y + |k.arena| < Pow2(64) && e == At(e, y);
    assert At(c, y) == e;
    PositionIndependent(k.arena, c, x, y);
  }

  /**
   Two consumers that never diverge from the model never diverge from each other, although each ran
   the cases at its own addresses.
   */
  lemma {:induction false} NoDivergenceTransfers(cases: seq<Case>, a: map<nat, Report>, b: map<nat, Report>)
    requires forall i :: 0 <= i < |cases| ==> cases[i].id in a && cases[i].id in b
    requires forall i :: 0 <= i < |cases| ==>
               && LaidOut(cases[i], a) && LaidOut(cases[i], b)
               && InsideArena(CallOf(cases[i], 64, a[cases[i].id]), |cases[i].arena|)
    requires forall i :: 0 <= i < |cases| ==> Agrees(cases[i], 64, a, Genuine) && Agrees(cases[i], 64, b, Genuine)
    ensures CrossConsumerDiff(cases, a, b) == []
  {
    if cases != [] {
      var last := cases[|cases| - 1];
      SameExpectation(last, a, b);
      assert Agrees(last, 64, a, Genuine) && Agrees(last, 64, b, Genuine);
      NoDivergenceTransfers(cases[..|cases| - 1], a, b);
    }
  }

  // ---------------------------------------------------------------- a growing arena

  /** 40 bytes: a well-formed request, and the first two fields of a result that has no room. */
  function ShortArena(): seq<byte> {
    seq(40, i => if i == 0 then 32 else if i == 32 then 72 else if i in {4, 8, 12, 16, 24, 36} then 1 else 0)
  }

  function ShortCall(): Call {
    Call(64, true, 0, 32, 1000, true, 32, 72, 1032)
  }

  lemma {:induction false} ShortAddressesOk()
    ensures AddressesOk(ShortCall()) && Placed(ShortCall(), 1000)
  {
    hide Pow2;
    Pow64();
    WrapsExactly(1000, 32, 64);
    WrapsExactly(1032, 72, 64);
    MaskKeeps(1032, 64);
    MaskKeeps(1104, 64);
  }

  lemma {:induction false} ShortFields()
    ensures var a := ShortArena();
            U32(a, 0) == 32 && U32(a, 4) == 1 && U32(a, 8) == 1 && U32(a, 12) == 1 && U32(a, 16) == 1
  {
  }

  lemma {:induction false} MoreShortFields()
    ensures var a := ShortArena();
            U32(a, 20) == 0 && U32(a, 24) == 1 && U32(a, 28) == 0 && U32(a, 32) == 72 && U32(a, 36) == 1
  {
  }

  lemma {:induction false} ShortIsWellFormed()
    ensures |ShortArena()| == 40 && WellFormed(ShortArena(), ShortCall())
  {
    ShortFields();
    MoreShortFields();
    hide U32;
    assert U64(ShortArena(), 16) == 1;
  }

  /** A call that succeeds although only 8 of its 72 result bytes are in the arena: the arena grows by 64. */
  lemma {:induction false} ArenaGrows()
    ensures var r := Query(ShortArena(), ShortCall(), Genuine);
            |ShortArena()| == 40 && r.Done? && r.status == Success && |r.arena| == 104
  {
    ShortIsWellFormed();
    ShortAddressesOk();
    hide AddressesOk;
    hide WellFormed;
    hide Query;
    hide ShortArena;
    SuccessExactly(ShortArena(), ShortCall());
    TouchesOnlyResult(ShortArena(), ShortCall());
  }
}
