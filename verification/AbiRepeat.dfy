/** What a call of the batch-policy query may change, and what a second call then does. */
module AbiRepeat {
  import opened Basics
  import opened AbiQuery
  import opened AbiTheorems

  // ---------------------------------------------------------------- frame

  /** The number of result bytes a call may touch. */
  function Touchable(a: seq<byte>, c: Call): nat {
    if c.sp && c.ss >= 4 && c.so + 4 <= |a| then Clearable(a, c) else 0
  }

  lemma {:induction false} DecisionBounded(addresses: Option<Status>, a: seq<byte>, c: Call)
    ensures var action := Decide(addresses, a, c, Genuine);
            && (action.ClearFirst? ==> c.sp && c.ss >= 4 && c.so + 4 <= |a| && action.n == Touchable(a, c))
            && (action.Fill? ==> c.sp && c.so + 8 <= |a| && Touchable(a, c) == 72)
  {
  }

  lemma {:induction false} PerformTouches(a: seq<byte>, so: nat, action: Action, touchable: nat)
    requires action.ClearFirst? || action.Fill? ==> so <= |a|
    requires (action.ClearFirst? ==> action.n <= touchable) && (action.Fill? ==> touchable == 72)
    requires Perform(a, so, action).Done?
    ensures var post := Perform(a, so, action).arena;
            && |post| == (if action.Fill? then Max(|a|, so + 72) else |a|)
            && forall k :: 0 <= k < |a| && !(so <= k < so + touchable) ==> post[k] == a[k]
  {
  }

  /**
   Outside the first min(P, D, 72) bytes of the result nothing changes. The arena keeps its length,
   except that a success whose 72 result bytes run past the end extends it to hold them.
   */
  lemma {:induction false} TouchesOnlyResult(a: seq<byte>, c: Call)
    requires Query(a, c, Genuine).Done?
    ensures var post := Query(a, c, Genuine).arena;
            && |post| == (if Query(a, c, Genuine).status == Success then Max(|a|, c.so + 72) else |a|)
            && forall k :: 0 <= k < |a| && !(c.so <= k < c.so + Touchable(a, c)) ==> post[k] == a[k]
  {
    DecisionBounded(CheckAddresses(c, Genuine), a, c);
    PerformTouches(a, c.so, Decide(CheckAddresses(c, Genuine), a, c, Genuine), Touchable(a, c));
    SuccessIsFill(a, c);
  }

  /** The arena lies at `base`, and both pointers point into it or are null. */
  ghost predicate Placed(c: Call, base: nat) {
    && c.baseReq == (if c.rp then base + c.ro else 0)
    && c.baseRes == (if c.sp then base + c.so else 0)
  }

  /** Sizes and addresses of the pointer's width. */
  ghost predicate Fits(c: Call) {
    c.rs < Pow2(c.ptrBits) && c.ss < Pow2(c.ptrBits) && c.baseReq < Pow2(c.ptrBits) && c.baseRes < Pow2(c.ptrBits)
  }

  lemma {:induction false} RangesApart(c: Call, base: nat, k: nat)
    requires Placed(c, base) && Fits(c) && AddressesOk(c) && base > 0
    requires c.rp && c.sp && c.ro <= k < c.ro + c.rs
    ensures !(c.so <= k < c.so + c.ss)
  {
    WrapsExactly(c.baseReq, c.rs, c.ptrBits);
    WrapsExactly(c.baseRes, c.ss, c.ptrBits);
    OverlapExactly(c.baseReq, c.rs, c.baseRes, c.ss, c.ptrBits);
    if c.so <= k < c.so + c.ss {
      assert InRange(base + k, c.baseReq, c.rs) && InRange(base + k, c.baseRes, c.ss);
    }
  }

  lemma {:induction false} RejectedAddressesKeep(a: seq<byte>, c: Call)
    requires !AddressesOk(c)
    ensures Query(a, c, Genuine).Done? && Query(a, c, Genuine).arena == a
  {
  }

  /** No call changes a byte of a non-null request range. */
  lemma {:induction false} RequestUntouched(a: seq<byte>, c: Call, base: nat, k: nat)
    requires Query(a, c, Genuine).Done? && Placed(c, base) && Fits(c) && base > 0
    requires c.rp && c.ro <= k < c.ro + c.rs && k < |a|
    ensures k < |Query(a, c, Genuine).arena| && Query(a, c, Genuine).arena[k] == a[k]
  {
    TouchesOnlyResult(a, c);
    if !AddressesOk(c) {
      RejectedAddressesKeep(a, c);
    } else if c.sp {
      RangesApart(c, base, k);
      assert Touchable(a, c) <= c.ss;
    }
  }

  // ---------------------------------------------------------------- repeated calls

  function Settled(s: Status): Status {
    match s
    case RequestAbi => ResultAbi
    case RequestField => ResultAbi
    case _ => s
  }

  /** A declared size that has been cleared reads as zero, however few of its bytes had to be cleared. */
  lemma {:induction false} ClearedSizeIsZero(a: seq<byte>, so: nat, n: nat)
    requires so + 4 <= |a| && so + n <= |a|
    requires n >= 4 || n >= U32(a, so)
    ensures U32(Overwrite(a, so, Zeros(n)), so) == 0
  {
    var post := Overwrite(a, so, Zeros(n));
    assert forall k :: so <= k < so + n ==> post[k] == 0;
    assert forall k :: so + n <= k < |a| ==> post[k] == a[k];
  }

  lemma {:induction false} ZeroSizeIsRejected(a: seq<byte>, c: Call)
    requires c.sp && c.ss >= 4 && c.so + 4 <= |a| && U32(a, c.so) == 0
    ensures Decide(None, a, c, Genuine) == ClearFirst(0, ResultAbi)
    ensures Perform(a, c.so, ClearFirst(0, ResultAbi)) == Done(ResultAbi, a)
  {
    assert Overwrite(a, c.so, Zeros(0)) == a;
  }

  /** What a repeated decision does, given that the addresses pass. */
  lemma {:induction false} RepeatAfterClear(a: seq<byte>, c: Call)
    requires Decide(None, a, c, Genuine).ClearFirst? && Perform(a, c.so, Decide(None, a, c, Genuine)).Done?
    ensures var post := Perform(a, c.so, Decide(None, a, c, Genuine)).arena;
            Perform(post, c.so, Decide(None, post, c, Genuine)) == Done(ResultAbi, post)
  {
    var n := Decide(None, a, c, Genuine).n;
    DecisionBounded(None, a, c);
    ClearedSizeIsZero(a, c.so, n);
    ZeroSizeIsRejected(Overwrite(a, c.so, Zeros(n)), c);
  }

  lemma {:induction false} OverwriteTwice(a: seq<byte>, o: nat, image: seq<byte>)
    requires o <= |a|
    ensures Overwrite(Overwrite(a, o, image), o, image) == Overwrite(a, o, image)
  {
  }

  lemma {:induction false} SameField(a: seq<byte>, b: seq<byte>, o: nat)
    requires o + 4 <= |a| && o + 4 <= |b| && forall k :: o <= k < o + 4 ==> a[k] == b[k]
    ensures U32(a, o) == U32(b, o)
  {
  }

  /** The request decision looks at the 32 request bytes only. */
  lemma {:induction false} SameRequest(a: seq<byte>, b: seq<byte>, c: Call, d: Defect)
    requires c.ro + 32 <= |a| && c.ro + 32 <= |b| && forall k :: c.ro <= k < c.ro + 32 ==> a[k] == b[k]
    ensures DecideRequest(a, c, d) == DecideRequest(b, c, d)
  {
    SameField(a, b, c.ro);
    SameField(a, b, c.ro + 4);
    SameField(a, b, c.ro + 8);
    SameField(a, b, c.ro + 12);
    SameField(a, b, c.ro + 16);
    SameField(a, b, c.ro + 20);
    SameField(a, b, c.ro + 24);
    SameField(a, b, c.ro + 28);
  }

  /** Once the result header is good, the request decides. */
  lemma {:induction false} GoodResultDecides(a: seq<byte>, c: Call, d: Defect)
    requires c.sp && c.ss >= 72 && c.so + 8 <= |a| && U32(a, c.so) >= 72 && U32(a, c.so + 4) == 1
    ensures Decide(None, a, c, d) == DecideRequest(a, c, d)
  {
  }

  lemma {:induction false} RepeatAfterSuccess(a: seq<byte>, c: Call, base: nat)
    requires Query(a, c, Genuine).Done? && Query(a, c, Genuine).status == Success
    requires Placed(c, base) && Fits(c) && base > 0
    ensures Query(Query(a, c, Genuine).arena, c, Genuine) == Query(a, c, Genuine)
  {
    assert CheckAddresses(c, Genuine) == None;
    var post := Query(a, c, Genuine).arena;
    SuccessExactly(a, c);
    SuccessDecodes(a, c);
    GoodResultDecides(a, c, Genuine);
    GoodResultDecides(post, c, Genuine);
    TouchesOnlyResult(a, c);
    forall k | c.ro <= k < c.ro + 32 ensures k < |post| && post[k] == a[k] {
      RequestUntouched(a, c, base, k);
    }
    SameRequest(a, post, c, Genuine);
    FillTwice(a, c.so, DecideRequest(a, c, Genuine));
  }

  lemma {:induction false} FillTwice(a: seq<byte>, so: nat, action: Action)
    requires action.Fill? && so <= |a|
    ensures var post := Perform(a, so, action).arena; so <= |post| && Perform(post, so, action) == Perform(a, so, action)
  {
    OverwriteTwice(a, so, SuccessImage(action.mask));
  }

  /**
   A second call with the same pointers leaves the arena as the first call left it. Every status is
   final, except that a rejected request has cleared the result and so turns into a rejected result.
   */
  lemma {:induction false} SecondCall(a: seq<byte>, c: Call, base: nat)
    requires Query(a, c, Genuine).Done? && Placed(c, base) && Fits(c) && base > 0
    ensures var first := Query(a, c, Genuine);
            Query(first.arena, c, Genuine) == Done(Settled(first.status), first.arena)
  {
    var addresses := CheckAddresses(c, Genuine);
    var action := Decide(addresses, a, c, Genuine);
    SuccessIsFill(a, c);
    if action.Fill? {
      RepeatAfterSuccess(a, c, base);
    } else if action.ClearFirst? {
      ClearsOnlyAbiErrors(addresses, a, c);
      RepeatAfterClear(a, c);
    } else {
      KeepsOnlyEarlyErrors(addresses, a, c);
    }
  }

  lemma {:induction false} ClearsOnlyAbiErrors(addresses: Option<Status>, a: seq<byte>, c: Call)
    requires Decide(addresses, a, c, Genuine).ClearFirst?
    ensures addresses == None && Settled(Decide(addresses, a, c, Genuine).status) == ResultAbi
  {
  }

  lemma {:induction false} KeepsOnlyEarlyErrors(addresses: Option<Status>, a: seq<byte>, c: Call)
    requires Decide(addresses, a, c, Genuine).Keep?
    requires addresses.Some? ==> addresses.value == AddrWrap || addresses.value == AddrOverlap
    ensures Settled(Decide(addresses, a, c, Genuine).status) == Decide(addresses, a, c, Genuine).status
  {
  }

  // ---------------------------------------------------------------- result first

  /** The result is null, too small or not of this ABI, and lies in the arena as far as it is read. */
  predicate ResultInvalid(a: seq<byte>, c: Call) {
    || !c.sp || c.ss < 4
    || (c.so + 4 <= |a| && (c.ss < 8 || U32(a, c.so) < 8
        || (c.so + 8 <= |a| && (c.ss < 72 || U32(a, c.so) < 72 || U32(a, c.so + 4) != 1))))
  }

  /** A bad result decides on its own. */
  lemma {:induction false} ResultDecides(a: seq<byte>, c: Call)
    requires ResultInvalid(a, c)
    ensures Decide(None, a, c, Genuine)
         == if !c.sp || c.ss < 4 then Keep(ResultNull) else ClearFirst(Touchable(a, c), ResultAbi)
  {
  }

  /**
   A bad result is reported before the request is looked at: two calls that share the result pointer,
   size and bytes give the same status and the same result bytes, whatever their requests.
   */
  lemma {:induction false} ResultFirst(a: seq<byte>, c: Call, b: seq<byte>, e: Call)
    requires AddressesOk(c) && AddressesOk(e)
    requires c.sp == e.sp && c.so == e.so && c.ss == e.ss
    requires c.so + c.ss <= |a| && c.so + c.ss <= |b| && forall k :: c.so <= k < c.so + c.ss ==> a[k] == b[k]
    requires ResultInvalid(a, c)
    ensures var q, r := Query(a, c, Genuine), Query(b, e, Genuine);
            && q.Done? && r.Done? && q.status == r.status && (q.status == ResultNull || q.status == ResultAbi)
            && c.so + c.ss <= |q.arena| && c.so + c.ss <= |r.arena|
            && forall k :: c.so <= k < c.so + c.ss ==> q.arena[k] == r.arena[k]
  {
    SameResult(a, c, b, e);
    ResultDecides(a, c);
    ResultDecides(b, e);
    assert CheckAddresses(c, Genuine) == None && CheckAddresses(e, Genuine) == None;
    if c.sp && c.ss >= 4 {
      assert Touchable(a, c) <= c.ss;
      SameClearing(a, b, c.so, c.ss, Touchable(a, c));
    }
  }

  lemma {:induction false} SameResult(a: seq<byte>, c: Call, b: seq<byte>, e: Call)
    requires c.sp == e.sp && c.so == e.so && c.ss == e.ss
    requires c.so + c.ss <= |a| && c.so + c.ss <= |b| && forall k :: c.so <= k < c.so + c.ss ==> a[k] == b[k]
    ensures ResultInvalid(a, c) == ResultInvalid(b, e) && Touchable(a, c) == Touchable(b, e)
  {
    if c.ss >= 4 { SameField(a, b, c.so); }
    if c.ss >= 8 { SameField(a, b, c.so + 4); }
  }

  lemma {:induction false} SameClearing(a: seq<byte>, b: seq<byte>, so: nat, ss: nat, n: nat)
    requires n <= ss && so + ss <= |a| && so + ss <= |b| && forall k :: so <= k < so + ss ==> a[k] == b[k]
    ensures var p, q := Overwrite(a, so, Zeros(n)), Overwrite(b, so, Zeros(n));
            |p| == |a| && |q| == |b| && forall k :: so <= k < so + ss ==> p[k] == q[k]
  {
  }
}
