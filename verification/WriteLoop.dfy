/**
 The short-write loop `_write_all`: it offers the unwritten tail of a buffer to the kernel until
 everything is accepted, retries interruptions without limit, and gives up on an error or after
 more than 64 consecutive calls that accept nothing.

 The kernel is a sequence of replies. `Accepted(k)` means that the call takes k bytes, or the whole
 tail when the tail is shorter.
 */
module WriteLoop {
  import opened Basics

  const MAX_ZERO_WRITE_RETRIES: nat := 64

  datatype WriteReply = Interrupted | Failed | Accepted(count: nat)

  datatype WriteEnd = Unfinished | Written | WriteFailed | ZeroWrite

  /** The loop's variables, with `end` saying whether and how the loop has been left. */
  datatype Progress = Progress(total: nat, zeroStreak: nat, end: WriteEnd)

  function Start(size: nat): Progress {
    Progress(0, 0, if size == 0 then Written else Unfinished)
  }

  ghost predicate InLoop(size: nat, w: Progress) {
    w.total < size && w.zeroStreak <= MAX_ZERO_WRITE_RETRIES && w.end == Unfinished
  }

  /** One iteration of the loop body, on one reply. */
  function WriteStep(size: nat, w: Progress, reply: WriteReply): (w': Progress)
    requires w.total < size
    ensures w.total <= w'.total <= size
    ensures w'.end == Written <==> w'.total == size
  {
    match reply
    case Interrupted => w.(end := Unfinished)
    case Failed => w.(end := WriteFailed)
    case Accepted(count) =>
      var n := Min(count, size - w.total);
      if n == 0 then
        if w.zeroStreak + 1 > MAX_ZERO_WRITE_RETRIES
        then Progress(w.total, w.zeroStreak + 1, ZeroWrite)
        else Progress(w.total, w.zeroStreak + 1, Unfinished)
      else
        Progress(w.total + n, 0, if w.total + n == size then Written else Unfinished)
  }

  /** The loop run from `w` on `replies`, and the number of replies it takes before leaving. */
  function Drive(size: nat, w: Progress, replies: seq<WriteReply>): (r: (Progress, nat))
    requires w.end == Unfinished ==> w.total < size
    ensures r.1 <= |replies|
    ensures r.0.end == Unfinished ==> r.1 == |replies| && r.0.total < size
    decreases |replies|
  {
    if w.end != Unfinished || replies == [] then (w, 0)
    else
      var rest := Drive(size, WriteStep(size, w, replies[0]), replies[1..]);
      (rest.0, rest.1 + 1)
  }

  /** The write calls that were not interrupted. */
  function Calls(replies: seq<WriteReply>): nat {
    if replies == [] then 0
    else (if replies[0].Interrupted? then 0 else 1) + Calls(replies[1..])
  }

  /** An open file that is written at its end. */
  class OpenFile {
    var contents: seq<byte>

    constructor ()
      ensures contents == []
    {
      contents := [];
    }

    method Append(bytes: seq<byte>)
      modifies this
      ensures contents == old(contents) + bytes
    {
      contents := contents + bytes;
    }
  }

  /** The loop's variables at its head. */
  function AtHead(size: nat, total: nat, zeroStreak: nat): Progress {
    Progress(total, zeroStreak, if total == size then Written else Unfinished)
  }

  /** The loop run from its start is the loop run from where it stands, `used` replies later. */
  ghost predicate Reached(size: nat, replies: seq<WriteReply>, used: nat, w: Progress) {
    && used <= |replies| && w.total <= size && (w.end == Unfinished ==> w.total < size)
    && var rest := Drive(size, w, replies[used..]);
       Drive(size, Start(size), replies) == (rest.0, used + rest.1)
  }

  lemma {:induction false} ReachedNext(size: nat, replies: seq<WriteReply>, used: nat, w: Progress)
    requires Reached(size, replies, used, w) && w.end == Unfinished && used < |replies|
    ensures Reached(size, replies, used + 1, WriteStep(size, w, replies[used]))
  {
    assert replies[used..][0] == replies[used] && replies[used..][1..] == replies[used + 1..];
  }

  lemma {:induction false} ReachedEnd(size: nat, replies: seq<WriteReply>, used: nat, w: Progress)
    requires Reached(size, replies, used, w) && (w.end != Unfinished || used == |replies|)
    ensures Drive(size, Start(size), replies) == (w, used)
  {
  }

  method WriteAll(file: OpenFile, data: seq<byte>, replies: seq<WriteReply>) returns (w: Progress, used: nat)
    modifies file
    ensures (w, used) == Drive(|data|, Start(|data|), replies)
    ensures w.total <= |data| && file.contents == old(file.contents) + data[..w.total]
    ensures w.end == Written <==> file.contents == old(file.contents) + data
    ensures w.end == Unfinished ==> used == |replies|
  {
    hide Drive;
    hide Reached;
    var total: nat, zeroStreak: nat := 0, 0;
    used := 0;
    StartReached(|data|, replies);
    while total < |data| && used < |replies|
      invariant used <= |replies| && total <= |data| && zeroStreak <= MAX_ZERO_WRITE_RETRIES
      invariant file.contents == old(file.contents) + data[..total]
      invariant Reached(|data|, replies, used, AtHead(|data|, total, zeroStreak))
      decreases |replies| - used
    {
      ReachedNext(|data|, replies, used, AtHead(|data|, total, zeroStreak));
      var reply := replies[used];
      used := used + 1;
      if reply.Interrupted? {
        continue;
      }
      if reply.Failed? {
        w := Progress(total, zeroStreak, WriteFailed);
        ReachedEnd(|data|, replies, used, w);
        assert |data[..total]| < |data|;
        return;
      }
      var n := Min(reply.count, |data| - total);
      if n == 0 {
        zeroStreak := zeroStreak + 1;
        if zeroStreak > MAX_ZERO_WRITE_RETRIES {
          w := Progress(total, zeroStreak, ZeroWrite);
          ReachedEnd(|data|, replies, used, w);
          assert |data[..total]| < |data|;
          return;
        }
        continue;
      }
      zeroStreak := 0;
      assert data[..total + n] == data[..total] + data[total..total + n];
      file.Append(data[total..total + n]);
      total := total + n;
    }
    w := AtHead(|data|, total, zeroStreak);
    ReachedEnd(|data|, replies, used, w);
    assert total < |data| ==> |data[..total]| < |data|;
  }

  lemma {:induction false} StartReached(size: nat, replies: seq<WriteReply>)
    ensures Reached(size, replies, 0, AtHead(size, 0, 0))
  {
    assert replies[0..] == replies;
  }

  /** From any point inside the loop, every byte still missing costs at most 65 calls. */
  lemma {:induction false} CallsFrom(size: nat, w: Progress, replies: seq<WriteReply>)
    requires InLoop(size, w)
    ensures Calls(replies[..Drive(size, w, replies).1]) <= 65 * (size - w.total) - w.zeroStreak
    decreases |replies|
  {
    var used := Drive(size, w, replies).1;
    if replies != [] {
      var next := WriteStep(size, w, replies[0]);
      assert replies[..used][0] == replies[0] && replies[..used][1..] == replies[1..][..used - 1];
      if next.end == Unfinished {
        CallsFrom(size, next, replies[1..]);
      }
    }
  }

  /** Whatever the kernel answers, at most 65 uninterrupted calls are made per byte of data. */
  lemma {:induction false} CallBound(size: nat, replies: seq<WriteReply>)
    ensures Calls(replies[..Drive(size, Start(size), replies).1]) <= 65 * size
  {
    if size > 0 {
      CallsFrom(size, Start(size), replies);
    }
  }

  function Zeros(n: nat): (z: seq<WriteReply>)
    ensures |z| == n
  {
    seq(n, _ => Accepted(0))
  }

  /** The slowest kernel that still finishes: 64 empty calls before every single byte. */
  function Slowest(size: nat): seq<WriteReply> {
    if size == 0 then [] else Zeros(64) + [Accepted(1)] + Slowest(size - 1)
  }

  lemma {:induction false} ZerosFirst(n: nat, rest: seq<WriteReply>)
    requires n > 0
    ensures (Zeros(n) + rest)[0] == Accepted(0) && (Zeros(n) + rest)[1..] == Zeros(n - 1) + rest
  {
  }

  lemma {:induction false} CallsZeros(n: nat, rest: seq<WriteReply>)
    ensures Calls(Zeros(n) + rest) == n + Calls(rest)
    decreases n
  {
    if n == 0 {
      assert Zeros(0) + rest == rest;
    } else {
      ZerosFirst(n, rest);
      CallsZeros(n - 1, rest);
    }
  }

  lemma {:induction false} DriveZeros(size: nat, w: Progress, n: nat, rest: seq<WriteReply>)
    requires InLoop(size, w) && w.zeroStreak + n <= MAX_ZERO_WRITE_RETRIES
    ensures Drive(size, w, Zeros(n) + rest).0 == Drive(size, w.(zeroStreak := w.zeroStreak + n), rest).0
    ensures Drive(size, w, Zeros(n) + rest).1 == n + Drive(size, w.(zeroStreak := w.zeroStreak + n), rest).1
    decreases n
  {
    if n == 0 {
      assert Zeros(0) + rest == rest;
    } else {
      ZerosFirst(n, rest);
      assert WriteStep(size, w, Accepted(0)) == w.(zeroStreak := w.zeroStreak + 1);
      DriveZeros(size, w.(zeroStreak := w.zeroStreak + 1), n - 1, rest);
    }
  }

  /** The bound is met: the slowest kernel takes exactly 65 calls per byte, and then all is written. */
  lemma {:induction false} CallBoundIsTight(size: nat, total: nat)
    requires total <= size
    ensures var w := Progress(total, 0, if total == size then Written else Unfinished);
            Drive(size, w, Slowest(size - total)) == (Progress(size, 0, Written), |Slowest(size - total)|)
    ensures Calls(Slowest(size - total)) == 65 * (size - total)
    decreases size - total
  {
    if total < size {
      var w := Progress(total, 0, Unfinished);
      var rest := [Accepted(1)] + Slowest(size - total - 1);
      assert Slowest(size - total) == Zeros(64) + rest;
      DriveZeros(size, w, 64, rest);
      CallsZeros(64, rest);
      assert rest[1..] == Slowest(size - (total + 1));
      CallBoundIsTight(size, total + 1);
    }
  }

  // ---------------------------------------------------------------- how the loop ends

  function Last(replies: seq<WriteReply>): Option<WriteReply> {
    if replies == [] then None else Some(replies[|replies| - 1])
  }

  /** The calls at the end that accepted nothing, interrupted ones not counted. */
  function EmptyCalls(replies: seq<WriteReply>): nat {
    if replies == [] then 0
    else
      match replies[|replies| - 1]
      case Interrupted => EmptyCalls(replies[..|replies| - 1])
      case Failed => 0
      case Accepted(count) => if count == 0 then 1 + EmptyCalls(replies[..|replies| - 1]) else 0
  }

  /** The bytes the kernel would take, all together. */
  function Taken(replies: seq<WriteReply>): nat {
    if replies == [] then 0
    else Taken(replies[..|replies| - 1]) + match replies[|replies| - 1] case Accepted(count) => count case _ => 0
  }

  lemma {:induction false} OneMoreReply(replies: seq<WriteReply>, r: WriteReply)
    ensures Last(replies + [r]) == Some(r)
    ensures Taken(replies + [r]) == Taken(replies) + if r.Accepted? then r.count else 0
    ensures EmptyCalls(replies + [r]) == if r == Interrupted then EmptyCalls(replies) else if r == Accepted(0) then EmptyCalls(replies) + 1 else 0
  {
    assert (replies + [r])[..|replies|] == replies;
  }

  /** What the replies used so far say about the loop's variables. */
  predicate Tells(size: nat, w: Progress, used: seq<WriteReply>) {
    && w.total == Min(size, Taken(used))
    && (w.end == Written <==> Taken(used) >= size)
    && (w.end == WriteFailed <==> Taken(used) < size && Last(used) == Some(Failed))
    && (w.end == ZeroWrite <==> Taken(used) < size && EmptyCalls(used) == 65)
    && (w.end == Unfinished ==> w.zeroStreak == EmptyCalls(used) <= 64)
  }

  lemma {:induction false} StepTells(size: nat, w: Progress, used: seq<WriteReply>, r: WriteReply)
    requires w.end == Unfinished && Tells(size, w, used) && w.total < size
    ensures Tells(size, WriteStep(size, w, r), used + [r])
  {
    OneMoreReply(used, r);
  }

  lemma {:induction false} DriveTells(size: nat, w: Progress, before: seq<WriteReply>, replies: seq<WriteReply>)
    requires Tells(size, w, before)
    requires w.end == Unfinished ==> w.total < size
    ensures var (end, n) := Drive(size, w, replies); Tells(size, end, before + replies[..n])
    decreases |replies|
  {
    hide Tells;
    var (end, n) := Drive(size, w, replies);
    if w.end == Unfinished && replies != [] {
      StepTells(size, w, before, replies[0]);
      DriveTells(size, WriteStep(size, w, replies[0]), before + [replies[0]], replies[1..]);
      assert before + [replies[0]] + replies[1..][..n - 1] == before + replies[..n];
    } else {
      assert before + replies[..n] == before;
    }
  }

  /**
   How the loop ends, by the replies it has used. It has written what they accept, up to the whole;
   before that, it fails exactly if the last one failed, and gives up exactly after 65 that accepted
   nothing. Interruptions count for nothing.
   */
  lemma {:induction false} EndsExactly(size: nat, replies: seq<WriteReply>)
    ensures var (w, n) := Drive(size, Start(size), replies);
            var used := replies[..n];
            && w.total == Min(size, Taken(used))
            && (w.end == Written <==> Taken(used) >= size)
            && (w.end == WriteFailed <==> Taken(used) < size && Last(used) == Some(Failed))
            && (w.end == ZeroWrite <==> Taken(used) < size && EmptyCalls(used) == 65)
            && (w.end == Unfinished ==> n == |replies|)
  {
    DriveTells(size, Start(size), [], replies);
    var n := Drive(size, Start(size), replies).1;
    assert [] + replies[..n] == replies[..n];
  }
}
