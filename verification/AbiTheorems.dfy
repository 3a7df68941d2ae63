/** What holds of every call of the batch-policy query, whatever the arena, offsets, sizes and pointers. */
module AbiTheorems {
  import opened Basics
  import opened AbiQuery

  // ---------------------------------------------------------------- addresses

  lemma {:induction false} ModBelow(x: nat, m: nat)
    requires x < m
    ensures x % m == x
  {
  }

  lemma {:induction false} ModStep(x: nat, m: nat)
    requires 0 < m <= x
    ensures x % m == (x - m) % m
  {
    var q, r := x / m, x % m;
    assert x == q * m + r;
    assert x - m == (q - 1) * m + r;
    ModUnique(x - m, m, q - 1, r);
  }

  lemma {:induction false} MulAtLeast(d: int, m: nat)
    requires d >= 1
    ensures d * m >= m
  {
    assert d * m == (d - 1) * m + m;
  }

  lemma {:induction false} ModUnique(x: nat, m: nat, q: int, r: nat)
    requires 0 < m && r < m && x == q * m + r
    ensures x % m == r
  {
    var q', r' := x / m, x % m;
    assert (q - q') * m == r' - r by {
      assert (q - q') * m == q * m - q' * m;
    }
    if q > q' { MulAtLeast(q - q', m); }
    if q < q' {
      assert (q' - q) * m == r - r' by { assert (q' - q) * m == q' * m - q * m; }
      MulAtLeast(q' - q, m);
    }
  }

  /** Adding whole turns of the address space does not move an address. */
  lemma {:induction false} ModAdd(x: nat, y: nat, m: nat)
    requires m > 0
    ensures (x + y) % m == (x + y % m) % m
  {
    var q := y / m;
    assert y == q * m + y % m;
    var r := (x + y % m) % m;
    var q2 := (x + y % m) / m;
    assert x + y == (q + q2) * m + r by {
      assert (q + q2) * m == q * m + q2 * m;
    }
    ModUnique(x + y, m, q + q2, r);
  }

  lemma {:induction false} HalfMod(x: nat, m: nat)
    requires m > 0
    ensures x % (2 * m) == 2 * (x / 2 % m) + x % 2
  {
    var q := x / 2 / m;
    assert x / 2 == q * m + x / 2 % m;
    assert q * (2 * m) == 2 * (q * m);
    ModUnique(x, 2 * m, q, 2 * (x / 2 % m) + x % 2);
  }

  /** Masking an address is reducing it modulo the address space. */
  lemma {:induction false} MaskedIsMod(x: nat, bits: nat)
    ensures Masked(x, bits) == x % Pow2(bits)
    decreases bits
  {
    if bits > 0 {
      HalfMod(x, Pow2(bits - 1));
      MaskedIsMod(x / 2, bits - 1);
      MaskHalves(x, Pow2(bits - 1));
    }
  }

  /** An address inside the address space is its own low bits. */
  lemma {:induction false} MaskKeeps(x: nat, bits: nat)
    requires x < Pow2(bits)
    ensures Masked(x, bits) == x
  {
    MaskedIsMod(x, bits);
    ModBelow(x, Pow2(bits));
  }

  lemma {:induction false} MaskHalves(x: nat, p: nat)
    requires p > 0
    ensures And(x, 2 * p - 1) == 2 * And(x / 2, p - 1) + x % 2
  {
    assert (2 * p - 1) / 2 == p - 1 && (2 * p - 1) % 2 == 1;
    if x == 0 { assert And(0, p - 1) == 0; }
  }

  /**
   For an address that fits the pointer width, the wrap test is exact on the size modulo the address
   space; so for a size that fits too, it says exactly that the range reaches the end of the address
   space, whether it goes beyond the last address or just ends there.
   */
  lemma {:induction false} WrapsExactly(base: nat, size: nat, bits: nat)
    requires base < Pow2(bits)
    ensures Wraps(base, size, bits) <==> base + size % Pow2(bits) >= Pow2(bits)
    ensures size < Pow2(bits) ==> (Wraps(base, size, bits) <==> base + size >= Pow2(bits))
  {
    var m := Pow2(bits);
    MaskedIsMod(base + size, bits);
    ModAdd(base, size, m);
    if base + size % m >= m {
      ModStep(base + size % m, m);
      ModBelow(base + size % m - m, m);
    } else {
      ModBelow(base + size % m, m);
    }
    if size < m { ModBelow(size, m); }
  }

  /** A range that ends exactly with the last address is refused too, although all its addresses exist. */
  lemma {:induction false} LastAddressIsRefused(base: nat, size: nat, bits: nat)
    requires base > 0 && size > 0 && base + size == Pow2(bits)
    ensures Wraps(base, size, bits)
    ensures forall x: nat :: InRange(x, base, size) ==> x < Pow2(bits)
  {
    hide Wraps;
    hide Pow2;
    WrapsExactly(base, size, bits);
  }

  ghost predicate InRange(x: nat, base: nat, size: nat) {
    base <= x < base + size
  }

  /** When neither range wraps, the overlap test is exactly that two non-null ranges share an address. */
  lemma {:induction false} OverlapExactly(a: nat, la: nat, b: nat, lb: nat, bits: nat)
    requires a + la < Pow2(bits) && b + lb < Pow2(bits)
    ensures Overlap(a, la, b, lb, bits) <==> a != 0 && b != 0 && exists x :: InRange(x, a, la) && InRange(x, b, lb)
  {
    MaskKeeps(a + la, bits);
    MaskKeeps(b + lb, bits);
    if Overlap(a, la, b, lb, bits) {
      var x := if a < b then b else a;
      assert InRange(x, a, la) && InRange(x, b, lb);
    }
  }

  // ---------------------------------------------------------------- bit masks

  lemma {:induction false} AndNotStep(x: nat, y: nat)
    ensures AndNot(x, y) == 2 * AndNot(x / 2, y / 2) + (if x % 2 == 1 && y % 2 == 0 then 1 else 0)
  {
  }

  lemma {:induction false} AndNotZero(x: nat)
    ensures AndNot(x, 0) == x
  {
    if x != 0 {
      AndNotZero(x / 2);
    }
  }

  /** A mask has no unknown bit exactly when it is below 32, and CPU is eligible exactly when its bit is set. */
  lemma {:induction false} MaskBits(mask: nat)
    ensures AndNot(mask, MASK_KNOWN) == 0 <==> mask < 32
    ensures And(And(AVAILABLE, mask), MASK_CPU) != 0 <==> mask % 2 == 1
  {
    AndNotStep(mask, 31);
    AndNotStep(mask / 2, 15);
    AndNotStep(mask / 2 / 2, 7);
    AndNotStep(mask / 2 / 2 / 2, 3);
    AndNotStep(mask / 2 / 2 / 2 / 2, 1);
    AndNotZero(mask / 2 / 2 / 2 / 2 / 2);
    CpuBit(mask);
  }

  lemma {:induction false} CpuBit(mask: nat)
    ensures And(And(AVAILABLE, mask), MASK_CPU) != 0 <==> mask % 2 == 1
  {
    var low := And(3, mask);
    assert low % 2 == mask % 2;
    assert low != 0 ==> And(low, 1) == 2 * And(low / 2, 0) + low % 2;
    assert And(low / 2, 0) == 0;
  }

  // ---------------------------------------------------------------- success

  lemma {:induction false} ProductTest(item: nat, conc: nat)
    requires conc != 0
    ensures item <= MAX_U64 / conc <==> item * conc <= MAX_U64
  {
    QuotientTest(MAX_U64, item, conc);
  }

  lemma {:induction false} QuotientTest(limit: nat, x: nat, m: nat)
    requires m > 0
    ensures x <= limit / m <==> x * m <= limit
  {
    var q, r := limit / m, limit % m;
    assert limit == q * m + r && r < m;
    if x <= q {
      Scaled(x, q, m);
    } else {
      Scaled(q + 1, x, m);
      OneMoreProduct(q, m);
    }
  }

  lemma {:induction false} Scaled(x: nat, y: nat, m: nat)
    requires x <= y
    ensures x * m <= y * m
  {
  }

  lemma {:induction false} OneMoreProduct(q: nat, m: nat)
    ensures (q + 1) * m == q * m + m
  {
  }

  /** The arena holds a usable result header and a well-formed request. */
  ghost predicate WellFormed(a: seq<byte>, c: Call) {
    && c.sp && c.ss >= 72 && c.so + 8 <= |a| && U32(a, c.so) >= 72 && U32(a, c.so + 4) == 1
    && c.rp && c.rs >= 32 && c.ro + 32 <= |a| && U32(a, c.ro) >= 32 && U32(a, c.ro + 4) == 1
    && U32(a, c.ro + 28) == 0 && 1 <= U32(a, c.ro + 8) <= 3 && U32(a, c.ro + 12) < 32
    && U64(a, c.ro + 16) != 0 && U32(a, c.ro + 24) != 0
    && U64(a, c.ro + 16) * U32(a, c.ro + 24) <= 0xFFFF_FFFF_FFFF_FFFF
  }

  predicate AddressesOk(c: Call) {
    && !Wraps(c.baseReq, c.rs, c.ptrBits) && !Wraps(c.baseRes, c.ss, c.ptrBits)
    && !Overlap(c.baseReq, c.rs, c.baseRes, c.ss, c.ptrBits)
  }

  lemma {:induction false} FieldsExactly(op: nat, mask: nat, item: nat, conc: nat, resv: nat)
    ensures FieldsOk(op, mask, item, conc, resv)
       <==> resv == 0 && 1 <= op <= 3 && mask < 32 && item != 0 && conc != 0 && item * conc <= 0xFFFF_FFFF_FFFF_FFFF
  {
    MaskBits(mask);
    if conc != 0 {
      ProductTest(item, conc);
    }
  }

  lemma {:induction false} FillExactly(a: seq<byte>, c: Call)
    ensures Decide(None, a, c, Genuine).Fill? <==> WellFormed(a, c)
    ensures WellFormed(a, c) ==> Decide(None, a, c, Genuine) == Fill(U32(a, c.ro + 12))
  {
    if c.ro + 32 <= |a| {
      FieldsExactly(U32(a, c.ro + 8), U32(a, c.ro + 12), U64(a, c.ro + 16), U32(a, c.ro + 24), U32(a, c.ro + 28));
    }
  }

  lemma {:induction false} SuccessIsFill(a: seq<byte>, c: Call)
    requires Query(a, c, Genuine).Done?
    ensures Query(a, c, Genuine).status == Success <==> Decide(CheckAddresses(c, Genuine), a, c, Genuine).Fill?
  {
  }

  /** The query succeeds exactly on safe addresses, a full result and a well-formed request. */
  lemma {:induction false} SuccessExactly(a: seq<byte>, c: Call)
    ensures Query(a, c, Genuine).Done? && Query(a, c, Genuine).status == Success <==> AddressesOk(c) && WellFormed(a, c)
  {
    FillExactly(a, c);
    assert AddressesOk(c) <==> CheckAddresses(c, Genuine) == None;
    if Query(a, c, Genuine).Done? {
      SuccessIsFill(a, c);
    }
  }

  /** Fields are little-endian: the byte at the field's start is the lowest, and the first word is the low one. */
  lemma {:induction false} LittleEndian(a: seq<byte>, o: nat)
    requires o + 8 <= |a|
    ensures var v := U32(a, o);
            a[o] == v % 0x100 && a[o + 1] == v / 0x100 % 0x100 && a[o + 2] == v / 0x1_0000 % 0x100 && a[o + 3] == v / 0x100_0000
    ensures U64(a, o) % 0x1_0000_0000 == U32(a, o) && U64(a, o) / 0x1_0000_0000 == U32(a, o + 4)
  {
    hide U64;
    var v := U32(a, o);
    var b0: int, b1: int, b2: int, b3: int := a[o], a[o + 1], a[o + 2], a[o + 3];
    assert v == b0 + 0x100 * (b1 + 0x100 * b2 + 0x1_0000 * b3);
    assert v / 0x100 == b1 + 0x100 * (b2 + 0x100 * b3);
    assert v / 0x1_0000 == b2 + 0x100 * b3;
    WordsOf(a, o);
  }

  lemma {:induction false} WordsOf(a: seq<byte>, o: nat)
    requires o + 8 <= |a|
    ensures U64(a, o) % 0x1_0000_0000 == U32(a, o) && U64(a, o) / 0x1_0000_0000 == U32(a, o + 4)
  {
    hide U32;
  }

  lemma {:induction false} Le32RoundTrip(v: nat, b: seq<byte>, o: nat)
    requires v < 0x1_0000_0000 && o + 4 <= |b| && b[o..o + 4] == Le32(v)
    ensures U32(b, o) == v
  {
    assert b[o] == b[o..o + 4][0] && b[o + 1] == b[o..o + 4][1] && b[o + 2] == b[o..o + 4][2] && b[o + 3] == b[o..o + 4][3];
  }

  /** The result's twelve fields, read back. */
  ghost predicate ReadsAs(b: seq<byte>, o: nat, mask: nat)
    requires o + 72 <= |b|
  {
    && U32(b, o) == 72 && U32(b, o + 4) == 1 && U64(b, o + 8) == 3
    && U32(b, o + 16) == mask % 2 && U32(b, o + 20) == mask % 2
    && U32(b, o + 24) == 0 && U32(b, o + 28) == 0
    && U64(b, o + 32) == 0 && U64(b, o + 40) == 0 && U64(b, o + 48) == 0 && U64(b, o + 56) == 0 && U64(b, o + 64) == 0
  }

  lemma {:induction false} FieldBetween(left: seq<byte>, field: seq<byte>, right: seq<byte>)
    ensures (left + field + right)[|left|..|left| + |field|] == field
  {
  }

  lemma {:induction false} WordBetween(left: seq<byte>, v: nat, right: seq<byte>, b: seq<byte>)
    requires v < 0x1_0000_0000 && b == left + Le32(v) + right
    ensures U32(b, |left|) == v
  {
    FieldBetween(left, Le32(v), right);
    Le32RoundTrip(v, b, |left|);
  }

  lemma {:induction false} WordsReadBack(v0: nat, v1: nat, v2: nat, v3: nat, v4: nat, v5: nat, tail: seq<byte>, b: seq<byte>)
    requires v0 < 0x1_0000_0000 && v1 < 0x1_0000_0000 && v2 < 0x1_0000_0000
    requires v3 < 0x1_0000_0000 && v4 < 0x1_0000_0000 && v5 < 0x1_0000_0000
    requires b == Le32(v0) + Le32(v1) + Le32(v2) + Le32(v3) + Le32(v4) + Le32(v5) + tail
    ensures U32(b, 0) == v0 && U32(b, 4) == v1 && U32(b, 8) == v2
    ensures U32(b, 12) == v3 && U32(b, 16) == v4 && U32(b, 20) == v5
  {
    var a0, a1, a2, a3, a4, a5 := Le32(v0), Le32(v1), Le32(v2), Le32(v3), Le32(v4), Le32(v5);
    assert b == [] + a0 + (a1 + a2 + a3 + a4 + a5 + tail);
    WordBetween([], v0, a1 + a2 + a3 + a4 + a5 + tail, b);
    assert b == a0 + a1 + (a2 + a3 + a4 + a5 + tail);
    WordBetween(a0, v1, a2 + a3 + a4 + a5 + tail, b);
    assert b == a0 + a1 + a2 + (a3 + a4 + a5 + tail);
    WordBetween(a0 + a1, v2, a3 + a4 + a5 + tail, b);
    assert b == a0 + a1 + a2 + a3 + (a4 + a5 + tail);
    WordBetween(a0 + a1 + a2, v3, a4 + a5 + tail, b);
    assert b == a0 + a1 + a2 + a3 + a4 + (a5 + tail);
    WordBetween(a0 + a1 + a2 + a3, v4, a5 + tail, b);
    WordBetween(a0 + a1 + a2 + a3 + a4, v5, tail, b);
  }

  lemma {:induction false} ImageReadsAs(mask: nat)
    ensures ReadsAs(SuccessImage(mask), 0, mask)
  {
    MaskBits(mask);
    var b := SuccessImage(mask);
    assert Le64(3) == Le32(3) + Le32(0);
    assert b == Le32(72) + Le32(1) + Le32(3) + Le32(0) + Le32(mask % 2) + Le32(mask % 2) + Zeros(48);
    WordsReadBack(72, 1, 3, 0, mask % 2, mask % 2, Zeros(48), b);
    assert forall i :: 24 <= i < 72 ==> b[i] == 0;
  }

  lemma {:induction false} ReadsAsMoved(image: seq<byte>, b: seq<byte>, o: nat, mask: nat)
    requires |image| == 72 && o + 72 <= |b| && b[o..o + 72] == image && ReadsAs(image, 0, mask)
    ensures ReadsAs(b, o, mask)
  {
    assert forall i :: 0 <= i < 72 ==> b[o + i] == b[o..o + 72][i] == image[i];
  }

  lemma {:induction false} FillReadsAs(a: seq<byte>, so: nat, mask: nat)
    requires so <= |a|
    ensures var post := Perform(a, so, Fill(mask)).arena; so + 72 <= |post| && ReadsAs(post, so, mask)
  {
    ImageReadsAs(mask);
    var post := Overwrite(a, so, SuccessImage(mask));
    assert post[so..so + 72] == SuccessImage(mask);
    ReadsAsMoved(SuccessImage(mask), post, so, mask);
  }

  /** A successful result decodes, field by field, to the CPU choice that the request's mask allows. */
  lemma {:induction false} SuccessDecodes(a: seq<byte>, c: Call)
    requires Query(a, c, Genuine).Done? && Query(a, c, Genuine).status == Success
    ensures c.so + 72 <= |Query(a, c, Genuine).arena| && c.ro + 32 <= |a|
    ensures ReadsAs(Query(a, c, Genuine).arena, c.so, U32(a, c.ro + 12))
  {
    SuccessExactly(a, c);
    FillExactly(a, c);
    FillReadsAs(a, c.so, U32(a, c.ro + 12));
  }

  // ---------------------------------------------------------------- every status

  /** A result of full size and of this ABI. */
  ghost predicate ResultOk(a: seq<byte>, c: Call) {
    c.sp && c.ss >= 72 && c.so + 8 <= |a| && U32(a, c.so) >= 72 && U32(a, c.so + 4) == 1
  }

  /** A request of full size and of this ABI. */
  ghost predicate RequestOk(a: seq<byte>, c: Call) {
    c.rp && c.rs >= 32 && c.ro + 8 <= |a| && U32(a, c.ro) >= 32 && U32(a, c.ro + 4) == 1
  }

  /** The status a call deserves, in the order of precedence: addresses, result, request, fields. */
  ghost function Deserved(a: seq<byte>, c: Call): Status {
    if Wraps(c.baseReq, c.rs, c.ptrBits) || Wraps(c.baseRes, c.ss, c.ptrBits) then AddrWrap
    else if !AddressesOk(c) then AddrOverlap
    else if !c.sp || c.ss < 4 then ResultNull
    else if !ResultOk(a, c) then ResultAbi
    else if !RequestOk(a, c) then RequestAbi
    else if !WellFormed(a, c) then RequestField
    else Success
  }

  /** How many result bytes each status leaves zero. */
  function Cleared(a: seq<byte>, c: Call, s: Status): nat {
    if s == ResultAbi && c.so + 4 <= |a| then Clearable(a, c)
    else if s == RequestAbi || s == RequestField then 72
    else 0
  }

  /** A result that is refused is cleared as far as its physical, its declared and the known size all allow. */
  lemma {:induction false} ClearedExactly(a: seq<byte>, c: Call)
    requires c.so + 4 <= |a|
    ensures var n := Cleared(a, c, ResultAbi);
            && n <= c.ss && n <= U32(a, c.so) && n <= 72
            && (n == c.ss || n == U32(a, c.so) || n == 72)
  {
  }

  lemma {:induction false} RequestDecision(a: seq<byte>, c: Call)
    ensures var action := DecideRequest(a, c, Genuine);
            || action.Fault?
            || (!RequestOk(a, c) && action == ClearFirst(72, RequestAbi))
            || (RequestOk(a, c) && c.ro + 32 <= |a|
                && action == if RequestFieldsOk(a, c.ro) then Fill(U32(a, c.ro + 12)) else ClearFirst(72, RequestField))
  {
  }

  lemma {:induction false} ResultDecision(a: seq<byte>, c: Call)
    requires c.sp && c.ss >= 4
    ensures var action := Decide(None, a, c, Genuine);
            action.Fault? || action == if !ResultOk(a, c) then ClearFirst(if c.so + 4 <= |a| then Clearable(a, c) else 0, ResultAbi)
                                       else DecideRequest(a, c, Genuine)
  {
  }

  lemma {:induction false} Decided(a: seq<byte>, c: Call)
    requires AddressesOk(c) && c.sp && c.ss >= 4
    ensures var action, s := Decide(None, a, c, Genuine), Deserved(a, c);
            action.Fault? || action == if s == Success then Fill(if c.ro + 16 <= |a| then U32(a, c.ro + 12) else 0)
                                       else ClearFirst(Cleared(a, c, s), s)
  {
    hide Wraps;
    hide Overlap;
    hide Clearable;
    hide Decide;
    hide DecideRequest;
    ResultDecision(a, c);
    RequestDecision(a, c);
    FillExactly(a, c);
    if c.ro + 32 <= |a| {
      FieldsExactly(U32(a, c.ro + 8), U32(a, c.ro + 12), U64(a, c.ro + 16), U32(a, c.ro + 24), U32(a, c.ro + 28));
    }
  }

  /**
   Every call that stays inside the arena gets the status it deserves; a rejected one leaves zeros in
   exactly the result bytes that status clears, and every other byte as it was.
   */
  lemma {:induction false} StatusExactly(a: seq<byte>, c: Call)
    requires Query(a, c, Genuine).Done?
    ensures var r := Query(a, c, Genuine);
            && r.status == Deserved(a, c)
            && (r.status != Success ==> |r.arena| == |a| && forall k :: 0 <= k < |a| ==>
                  r.arena[k] == if c.so <= k < c.so + Cleared(a, c, r.status) then 0 else a[k])
  {
    hide Wraps;
    hide Overlap;
    hide WellFormed;
    hide ResultOk;
    hide RequestOk;
    if AddressesOk(c) {
      assert CheckAddresses(c, Genuine) == None;
      if c.sp && c.ss >= 4 {
        Decided(a, c);
      }
    }
  }

  /** A call whose two ranges lie in the arena, or are null, never leaves the arena. */
  lemma {:induction false} InsideNeverFaults(a: seq<byte>, c: Call)
    requires (c.sp ==> c.so + c.ss <= |a|) && (c.rp ==> c.ro + c.rs <= |a|)
    ensures Query(a, c, Genuine).Done?
  {
    hide Wraps;
    hide Overlap;
    hide U32;
    hide U64;
  }
}
