/**
 The batch-policy ABI query, byte for byte: a 32-byte request and a 72-byte result that live in one
 arena of bytes, four caller-supplied sizes, and pointers of a given width.
 */
module AbiQuery {
  import opened Basics

  // ---------------------------------------------------------------- little-endian fields

  function U32(a: seq<byte>, o: nat): (v: nat)
    requires o + 4 <= |a|
    ensures v < 0x1_0000_0000
  {
    var b0: int, b1: int, b2: int, b3: int := a[o], a[o + 1], a[o + 2], a[o + 3];
    b0 + 0x100 * b1 + 0x1_0000 * b2 + 0x100_0000 * b3
  }

  function U64(a: seq<byte>, o: nat): (v: nat)
    requires o + 8 <= |a|
    ensures v < 0x1_0000_0000_0000_0000
  {
    U32(a, o) + 0x1_0000_0000 * U32(a, o + 4)
  }

  function Le32(v: nat): (b: seq<byte>)
    ensures |b| == 4
  {
    [v % 0x100, v / 0x100 % 0x100, v / 0x100 / 0x100 % 0x100, v / 0x100 / 0x100 / 0x100 % 0x100]
  }

  function Le64(v: nat): (b: seq<byte>)
    ensures |b| == 8
  {
    Le32(v) + Le32(v / 0x1_0000_0000)
  }

  function Zeros(n: nat): (z: seq<byte>)
    ensures |z| == n && forall i :: 0 <= i < n ==> z[i] == 0
  {
    seq(n, _ => 0)
  }

  // ---------------------------------------------------------------- bit masks

  function And(x: nat, y: nat): nat {
    if x == 0 || y == 0 then 0 else 2 * And(x / 2, y / 2) + (if x % 2 == 1 && y % 2 == 1 then 1 else 0)
  }

  /** The bits of x that y does not have. */
  function AndNot(x: nat, y: nat): nat {
    if x == 0 then 0 else 2 * AndNot(x / 2, y / 2) + (if x % 2 == 1 && y % 2 == 0 then 1 else 0)
  }

  // ---------------------------------------------------------------- addresses

  function Pow2(bits: nat): (p: nat)
    ensures p > 0
  {
    if bits == 0 then 1 else 2 * Pow2(bits - 1)
  }

  /** The low bits of an address, as a mask of the pointer width keeps them. */
  function Masked(x: nat, bits: nat): nat {
    And(x, Pow2(bits) - 1)
  }

  predicate Wraps(base: nat, size: nat, bits: nat) {
    size != 0 && Masked(base + size, bits) < base
  }

  predicate Overlap(a: nat, la: nat, b: nat, lb: nat, bits: nat) {
    a != 0 && b != 0 && la != 0 && lb != 0 && a < Masked(b + lb, bits) && b < Masked(a + la, bits)
  }

  // ---------------------------------------------------------------- the call

  const REQUEST_SIZE: nat := 32
  const RESULT_SIZE: nat := 72
  const ABI_V1: nat := 1
  const MASK_CPU: nat := 1
  const MASK_CUDA: nat := 2
  const MASK_KNOWN: nat := 31
  const AVAILABLE: nat := 3
  const BACKEND_CPU: nat := 1
  const PATH_CPU_INLINE: nat := 1
  const MAX_U64: nat := 0xFFFF_FFFF_FFFF_FFFF

  /** Pointers given as non-null flags, arena offsets, physical sizes and machine addresses. */
  datatype Call = Call(
    ptrBits: nat,
    rp: bool, ro: nat, rs: nat, baseReq: nat,
    sp: bool, so: nat, ss: nat, baseRes: nat)

  datatype Status = Success | AddrWrap | AddrOverlap | ResultNull | ResultAbi | RequestAbi | RequestField

  /** A status and the arena afterwards, or an access outside the arena. */
  datatype Outcome = Done(status: Status, arena: seq<byte>) | OutOfBounds

  /** The deliberate defects of the reference self-check. */
  datatype Defect = Genuine | OmitWrap | OffByOneClear | IgnoreMask

  /** How many bytes of the result may be touched: the least of the physical, declared and known sizes. */
  function Clearable(a: seq<byte>, c: Call): nat
    requires c.so + 4 <= |a|
  {
    Min(Min(c.ss, U32(a, c.so)), RESULT_SIZE)
  }

  /** Python's slice assignment: it extends the bytes when it runs past their end. */
  function Overwrite(a: seq<byte>, o: nat, image: seq<byte>): seq<byte>
    requires o <= |a|
  {
    a[..o] + image + a[Min(o + |image|, |a|)..]
  }

  /** What a call decides to do: leave the arena, clear the start of the result, fill it, or fault. */
  datatype Action = Keep(status: Status) | ClearFirst(n: nat, status: Status) | Fill(mask: nat) | Fault

  function Perform(a: seq<byte>, so: nat, action: Action): Outcome
    requires action.ClearFirst? || action.Fill? ==> so <= |a|
  {
    match action
    case Keep(status) => Done(status, a)
    case ClearFirst(n, status) => if so + n <= |a| then Done(status, Overwrite(a, so, Zeros(n))) else OutOfBounds
    case Fill(mask) => Done(Success, Overwrite(a, so, SuccessImage(mask)))
    case Fault => OutOfBounds
  }

  function SuccessImage(mask: nat): (image: seq<byte>)
    ensures |image| == RESULT_SIZE
  {
    var cpu := And(And(AVAILABLE, mask), MASK_CPU) != 0;
    Le32(RESULT_SIZE) + Le32(ABI_V1) + Le64(AVAILABLE)
    + Le32(if cpu then BACKEND_CPU else 0) + Le32(if cpu then PATH_CPU_INLINE else 0)
    + Zeros(48)
  }

  predicate FieldsOk(op: nat, mask: nat, item: nat, conc: nat, resv: nat) {
    && resv == 0 && 1 <= op <= 3 && AndNot(mask, MASK_KNOWN) == 0
    && item != 0 && conc != 0 && item <= MAX_U64 / conc
  }

  /** The address checks, which come before any access. */
  function CheckAddresses(c: Call, d: Defect): Option<Status> {
    if (Wraps(c.baseReq, c.rs, c.ptrBits) || Wraps(c.baseRes, c.ss, c.ptrBits)) && d != OmitWrap then Some(AddrWrap)
    else if Overlap(c.baseReq, c.rs, c.baseRes, c.ss, c.ptrBits) then Some(AddrOverlap)
    else None
  }

  /** The query as one function: addresses first, then the result, and only then the request. */
  function Query(a: seq<byte>, c: Call, d: Defect): Outcome {
    Perform(a, c.so, Decide(CheckAddresses(c, d), a, c, d))
  }

  function Decide(addresses: Option<Status>, a: seq<byte>, c: Call, d: Defect): (action: Action)
    ensures action.ClearFirst? || action.Fill? ==> c.so <= |a|
  {
    if addresses.Some? then Keep(addresses.value)
    else if !c.sp || c.ss < 4 then Keep(ResultNull)
    else if c.so + 4 > |a| then Fault
    else
      var n := Clearable(a, c) + if d == OffByOneClear then 1 else 0;
      if c.ss < 8 || U32(a, c.so) < 8 then ClearFirst(n, ResultAbi)
      else if c.so + 8 > |a| then Fault
      else if U32(a, c.so + 4) != ABI_V1 || U32(a, c.so) < RESULT_SIZE || c.ss < RESULT_SIZE then ClearFirst(n, ResultAbi)
      else DecideRequest(a, c, d)
  }

  function DecideRequest(a: seq<byte>, c: Call, d: Defect): (action: Action)
    ensures action.ClearFirst? ==> action.n == RESULT_SIZE
    ensures action.Keep? ==> false
  {
    if !c.rp || c.rs < 4 then ClearFirst(RESULT_SIZE, RequestAbi)
    else if c.ro + 4 > |a| then Fault
    else if c.rs < REQUEST_SIZE || U32(a, c.ro) < REQUEST_SIZE then ClearFirst(RESULT_SIZE, RequestAbi)
    else if c.ro + 8 > |a| then Fault
    else if U32(a, c.ro + 4) != ABI_V1 then ClearFirst(RESULT_SIZE, RequestAbi)
    else if c.ro + 32 > |a| then Fault
    else DecideFields(a, c, d)
  }

  function DecideFields(a: seq<byte>, c: Call, d: Defect): (action: Action)
    requires c.ro + 32 <= |a|
    ensures if action.ClearFirst? then action.n == RESULT_SIZE else action.Fill?
  {
    if RequestFieldsOk(a, c.ro) then Fill(if d == IgnoreMask then MASK_KNOWN else U32(a, c.ro + 12))
    else ClearFirst(RESULT_SIZE, RequestField)
  }

  predicate RequestFieldsOk(a: seq<byte>, ro: nat)
    requires ro + 32 <= |a|
  {
    FieldsOk(U32(a, ro + 8), U32(a, ro + 12), U64(a, ro + 16), U32(a, ro + 24), U32(a, ro + 28))
  }

  // ---------------------------------------------------------------- the code

  /** A growable buffer of bytes. */
  class ByteArray {
    var bytes: seq<byte>

    constructor (initial: seq<byte>)
      ensures bytes == initial
    {
      bytes := initial;
    }

    /** Store zeros one at a time, stopping with false at the first index outside the buffer. */
    method Clear(at: nat, n: nat) returns (ok: bool)
      requires at <= |bytes|
      modifies this
      ensures ok == (at + n <= |old(bytes)|)
      ensures ok ==> bytes == Overwrite(old(bytes), at, Zeros(n))
    {
      for i := 0 to n
        invariant at + i <= |bytes| && bytes == Overwrite(old(bytes), at, Zeros(i)) && |bytes| == |old(bytes)|
      {
        if at + i >= |bytes| {
          return false;
        }
        bytes := bytes[at + i := 0];
      }
      return true;
    }

    method Assign(at: nat, image: seq<byte>)
      requires at <= |bytes|
      modifies this
      ensures bytes == Overwrite(old(bytes), at, image)
    {
      bytes := bytes[..at] + image + bytes[Min(at + |image|, |bytes|)..];
    }

    method PackU32(at: nat, v: nat)
      requires at + 4 <= |bytes|
      modifies this
      ensures bytes == Packed(old(bytes), at, Le32(v))
    {
      Assign(at, Le32(v));
    }

    method PackU64(at: nat, v: nat)
      requires at + 8 <= |bytes|
      modifies this
      ensures bytes == Packed(old(bytes), at, Le64(v))
    {
      Assign(at, Le64(v));
    }
  }

  function Packed(a: seq<byte>, o: nat, field: seq<byte>): (a': seq<byte>)
    requires o + |field| <= |a|
    ensures |a'| == |a|
  {
    a[..o] + field + a[o + |field|..]
  }

  /** Packing a field right after `filled`, over zeros. */
  lemma {:induction false} PackOverZeros(filled: seq<byte>, field: seq<byte>, k: nat)
    requires |field| <= k
    ensures Packed(filled + Zeros(k), |filled|, field) == (filled + field) + Zeros(k - |field|)
  {
  }

  method BuildSuccessImage(mask: nat) returns (image: seq<byte>)
    ensures image == SuccessImage(mask)
  {
    var img := new ByteArray(Zeros(72));
    var eligible := And(AVAILABLE, mask);
    var cpu := And(eligible, MASK_CPU) != 0;
    var backend, path := if cpu then BACKEND_CPU else 0, if cpu then PATH_CPU_INLINE else 0;
    img.PackU32(0, RESULT_SIZE);
    img.PackU32(4, ABI_V1);
    img.PackU64(8, AVAILABLE);
    img.PackU32(16, backend);
    img.PackU32(20, path);
    img.PackU32(24, 0);
    img.PackU32(28, 0);
    image := img.bytes;
    ImageFromFields(backend, path, image);
  }

  /** The seven packs of the success image, laid end to end. */
  lemma {:induction false} ImageFromFields(backend: nat, path: nat, image: seq<byte>)
    requires image == Packed(Packed(Packed(Packed(Packed(Packed(Packed(Zeros(72),
      0, Le32(RESULT_SIZE)), 4, Le32(ABI_V1)), 8, Le64(AVAILABLE)), 16, Le32(backend)), 20, Le32(path)), 24, Le32(0)), 28, Le32(0))
    ensures image == Le32(RESULT_SIZE) + Le32(ABI_V1) + Le64(AVAILABLE) + Le32(backend) + Le32(path) + Zeros(48)
  {
    ImageFields(Le32(RESULT_SIZE), Le32(ABI_V1), Le64(AVAILABLE), Le32(backend), Le32(path), Le32(0), image);
    assert Le32(0) == Zeros(4);
    assert Zeros(4) + Zeros(4) + Zeros(40) == Zeros(48);
  }

  lemma {:induction false} ImageFields(a: seq<byte>, b: seq<byte>, c: seq<byte>, d: seq<byte>, e: seq<byte>, f: seq<byte>, image: seq<byte>)
    requires |a| == |b| == |d| == |e| == |f| == 4 && |c| == 8
    requires image == Packed(Packed(Packed(Packed(Packed(Packed(Packed(Zeros(72), 0, a), 4, b), 8, c), 16, d), 20, e), 24, f), 28, f)
    ensures image == a + b + c + d + e + (f + f + Zeros(40))
  {
    assert [] + Zeros(72) == Zeros(72) && [] + a == a;
    PackOverZeros([], a, 72);
    PackOverZeros(a, b, 68);
    PackOverZeros(a + b, c, 64);
    PackOverZeros(a + b + c, d, 56);
    PackOverZeros(a + b + c + d, e, 52);
    PackOverZeros(a + b + c + d + e, f, 48);
    PackOverZeros(a + b + c + d + e + f, f, 44);
    assert a + b + c + d + e + f + f + Zeros(40) == a + b + c + d + e + (f + f + Zeros(40));
  }

  method ClearAndReport(out: ByteArray, at: nat, n: nat, status: Status) returns (r: Outcome)
    requires at <= |out.bytes|
    modifies out
    ensures r == Perform(old(out.bytes), at, ClearFirst(n, status))
  {
    var ok := out.Clear(at, n);
    r := if ok then Done(status, out.bytes) else OutOfBounds;
  }

  method Simulate(arenaPre: seq<byte>, c: Call, mutate: Defect) returns (r: Outcome)
    ensures r == Query(arenaPre, c, mutate)
  {
    var out := new ByteArray(arenaPre);
    if Wraps(c.baseReq, c.rs, c.ptrBits) || Wraps(c.baseRes, c.ss, c.ptrBits) {
      if mutate != OmitWrap {
        return Done(AddrWrap, out.bytes);
      }
    }
    if Overlap(c.baseReq, c.rs, c.baseRes, c.ss, c.ptrBits) {
      return Done(AddrOverlap, out.bytes);
    }
    r := SimulateResult(out, c, mutate);
  }

  method SimulateResult(out: ByteArray, c: Call, mutate: Defect) returns (r: Outcome)
    modifies out
    ensures r == Perform(old(out.bytes), c.so, Decide(None, old(out.bytes), c, mutate))
  {
    if !c.sp || c.ss < 4 {
      return Done(ResultNull, out.bytes);
    }
    if c.so + 4 > |out.bytes| {
      return OutOfBounds;
    }
    var declared := U32(out.bytes, c.so);
    var clearable := Min(Min(c.ss, declared), RESULT_SIZE);
    if mutate == OffByOneClear {
      clearable := clearable + 1;
    }
    if c.ss < 8 || declared < 8 {
      r := ClearAndReport(out, c.so, clearable, ResultAbi);
      return;
    }
    if c.so + 8 > |out.bytes| {
      return OutOfBounds;
    }
    if U32(out.bytes, c.so + 4) != ABI_V1 {
      r := ClearAndReport(out, c.so, clearable, ResultAbi);
      return;
    }
    if declared < RESULT_SIZE || c.ss < RESULT_SIZE {
      r := ClearAndReport(out, c.so, clearable, ResultAbi);
      return;
    }
    r := SimulateRequest(out, c, mutate);
  }

  method SimulateRequest(out: ByteArray, c: Call, mutate: Defect) returns (r: Outcome)
    requires c.so + 8 <= |out.bytes|
    modifies out
    ensures r == Perform(old(out.bytes), c.so, DecideRequest(old(out.bytes), c, mutate))
  {
    if !c.rp || c.rs < 4 {
      r := ClearAndReport(out, c.so, RESULT_SIZE, RequestAbi);
      return;
    }
    if c.ro + 4 > |out.bytes| {
      return OutOfBounds;
    }
    if c.rs < REQUEST_SIZE || U32(out.bytes, c.ro) < REQUEST_SIZE {
      r := ClearAndReport(out, c.so, RESULT_SIZE, RequestAbi);
      return;
    }
    if c.ro + 8 > |out.bytes| {
      return OutOfBounds;
    }
    if U32(out.bytes, c.ro + 4) != ABI_V1 {
      r := ClearAndReport(out, c.so, RESULT_SIZE, RequestAbi);
      return;
    }
    if c.ro + 32 > |out.bytes| {
      return OutOfBounds;
    }
    r := SimulateFields(out, c, mutate);
  }

  method CheckFields(op: nat, mask: nat, item: nat, conc: nat, resv: nat) returns (ok: bool)
    ensures ok == FieldsOk(op, mask, item, conc, resv)
  {
    if resv != 0 {
      return false;
    }
    if op < 1 || op > 3 {
      return false;
    }
    if AndNot(mask, MASK_KNOWN) != 0 {
      return false;
    }
    if item == 0 || conc == 0 {
      return false;
    }
    return item <= MAX_U64 / conc;
  }

  method SimulateFields(out: ByteArray, c: Call, mutate: Defect) returns (r: Outcome)
    requires c.so <= |out.bytes| && c.ro + 32 <= |out.bytes|
    modifies out
    ensures r == Perform(old(out.bytes), c.so, DecideFields(old(out.bytes), c, mutate))
  {
    var mask := U32(out.bytes, c.ro + 12);
    var ok := CheckFields(U32(out.bytes, c.ro + 8), mask, U64(out.bytes, c.ro + 16), U32(out.bytes, c.ro + 24), U32(out.bytes, c.ro + 28));
    if !ok {
      r := ClearAndReport(out, c.so, RESULT_SIZE, RequestField);
      return;
    }
    r := FillAndReport(out, c.so, if mutate == IgnoreMask then MASK_KNOWN else mask);
  }

  method FillAndReport(out: ByteArray, at: nat, mask: nat) returns (r: Outcome)
    requires at <= |out.bytes|
    modifies out
    ensures r == Perform(old(out.bytes), at, Fill(mask))
  {
    var image := BuildSuccessImage(mask);
    out.Assign(at, image);
    r := Done(Success, out.bytes);
  }
}
