/**
 The bounded reads of `validate_task_root`: three leaves are read one after the other from the
 pinned task-root directory, each chunk by chunk, each within the smaller of the per-leaf limit and
 what the earlier leaves have left of the aggregate limit.
 */
module TaskRoot {
  import opened Basics

  const CHUNK: nat := 1024 * 1024
  const ARTIFACT_LIMIT: nat := 16 * 1024 * 1024
  const AGGREGATE_LIMIT: nat := 24 * 1024 * 1024

  /** What opening a leaf by name without following symlinks finds. */
  datatype Leaf = Absent | NotRegular | Unreadable | File(contents: seq<byte>)

  datatype ReadError = FileNotFound | SymlinkAncestry | OsError | TooLarge

  datatype Verdict = TaskRootIdentity | ReadyMissing | ArtifactTooLarge | ReadLeaves(snapshot: seq<byte>, receipt: seq<byte>, ready: seq<byte>)

  /** What reading a leaf within a budget should give. */
  function Bounded(leaf: Leaf, budget: nat): Result<seq<byte>, ReadError> {
    match leaf
    case Absent => Err(FileNotFound)
    case NotRegular => Err(SymlinkAncestry)
    case Unreadable => Err(OsError)
    case File(contents) => if |contents| <= budget then Ok(contents) else Err(TooLarge)
  }

  /** An open leaf: a read returns between one byte and the asked-for number, until the end. */
  class Handle {
    const contents: seq<byte>
    var position: nat

    ghost predicate Valid() reads this { position <= |contents| }

    constructor (contents: seq<byte>)
      ensures Valid() && this.contents == contents && position == 0
    {
      this.contents := contents;
      position := 0;
    }

    method Read(wanted: nat, mood: nat) returns (chunk: seq<byte>)
      requires Valid() && wanted > 0
      modifies this
      ensures Valid() && position == old(position) + |chunk| && chunk == contents[old(position)..position]
      ensures |chunk| <= wanted && (chunk == [] <==> old(position) == |contents|)
    {
      var n := Min(Min(wanted, |contents| - position), mood + 1);
      chunk := contents[position..position + n];
      position := position + n;
    }
  }

  /**
   The chunked read. `moods` chooses how much each call returns; the answer does not depend on it,
   and what is buffered never exceeds the budget.
   */
  method ReadArtifact(leaf: Leaf, budget: nat, moods: nat -> nat) returns (r: Result<seq<byte>, ReadError>)
    ensures r == Bounded(leaf, budget)
  {
    match leaf {
      case Absent => return Err(FileNotFound);
      case NotRegular => return Err(SymlinkAncestry);
      case Unreadable => return Err(OsError);
      case File(contents) =>
        var handle := new Handle(contents);
        var buffered, calls := [], 0;
        while true
          invariant handle.Valid() && handle.contents == contents
          invariant buffered == contents[..handle.position] && |buffered| <= budget
          decreases |contents| - handle.position
        {
          var chunk := handle.Read(CHUNK, moods(calls));
          calls := calls + 1;
          if chunk == [] {
            assert contents[..|contents|] == contents;
            return Ok(buffered);
          }
          if |buffered| + |chunk| > budget {
            return Err(TooLarge);
          }
          buffered := buffered + chunk;
        }
    }
  }

  /**
   The three reads. When all leaves are regular files, size rejects exactly a leaf over 16 MiB or
   a sum over 24 MiB, in whatever chunks they arrive.
   */
  method ReadTaskRoot(snapshot: Leaf, receipt: Leaf, ready: Leaf, moods: nat -> nat) returns (v: Verdict)
    ensures v == Judge(snapshot, receipt, ready)
    ensures snapshot.File? && receipt.File? && ready.File? ==>
      (v == ArtifactTooLarge <==>
        || Size(snapshot) > ARTIFACT_LIMIT || Size(receipt) > ARTIFACT_LIMIT || Size(ready) > ARTIFACT_LIMIT
        || Size(snapshot) + Size(receipt) + Size(ready) > AGGREGATE_LIMIT)
  {
    var remaining := AGGREGATE_LIMIT;
    var first := ReadArtifact(snapshot, Min(ARTIFACT_LIMIT, remaining), moods);
    if first.Err? {
      return if first.error == TooLarge then ArtifactTooLarge else TaskRootIdentity;
    }
    remaining := remaining - |first.value|;
    var second := ReadArtifact(receipt, Min(ARTIFACT_LIMIT, remaining), moods);
    if second.Err? {
      return if second.error == TooLarge then ArtifactTooLarge else TaskRootIdentity;
    }
    remaining := remaining - |second.value|;
    var third := ReadArtifact(ready, Min(ARTIFACT_LIMIT, remaining), moods);
    match third {
      case Err(FileNotFound) => return ReadyMissing;
      case Err(TooLarge) => return ArtifactTooLarge;
      case Err(_) => return TaskRootIdentity;
      case Ok(text) => return ReadLeaves(first.value, second.value, text);
    }
  }

  function Size(leaf: Leaf): nat {
    if leaf.File? then |leaf.contents| else 0
  }

  /** A leaf that fits when the leaves before it use `before` bytes. */
  predicate Fits(leaf: Leaf, before: nat) {
    Size(leaf) <= ARTIFACT_LIMIT && before + Size(leaf) <= AGGREGATE_LIMIT
  }

  /** The verdict in terms of sizes alone: the first leaf that is missing, odd or too large decides. */
  function Judge(snapshot: Leaf, receipt: Leaf, ready: Leaf): Verdict {
    if !snapshot.File? then TaskRootIdentity
    else if !Fits(snapshot, 0) then ArtifactTooLarge
    else if !receipt.File? then TaskRootIdentity
    else if !Fits(receipt, Size(snapshot)) then ArtifactTooLarge
    else if ready.Absent? then ReadyMissing
    else if !ready.File? then TaskRootIdentity
    else if !Fits(ready, Size(snapshot) + Size(receipt)) then ArtifactTooLarge
    else ReadLeaves(snapshot.contents, receipt.contents, ready.contents)
  }

  /**
   Each verdict in bytes. Too large is a leaf over 16 MiB or one that brings the sum over 24 MiB, the
   leaves before it being good; the root has no identity when a leaf is no readable file, the ready
   leaf is missing when it is absent, and otherwise the three contents are handed on.
   */
  lemma {:induction false} JudgeExactly(snapshot: Leaf, receipt: Leaf, ready: Leaf)
    ensures var v := Judge(snapshot, receipt, ready);
            var one := snapshot.File? && |snapshot.contents| <= 16_777_216;
            var two := one && receipt.File? && |receipt.contents| <= 16_777_216
                       && |snapshot.contents| + |receipt.contents| <= 25_165_824;
            var three := two && ready.File? && |ready.contents| <= 16_777_216
                         && |snapshot.contents| + |receipt.contents| + |ready.contents| <= 25_165_824;
            && (v.ReadLeaves? <==> three)
            && (three ==> v == ReadLeaves(snapshot.contents, receipt.contents, ready.contents))
            && (v == ReadyMissing <==> two && ready == Absent)
            && (v == ArtifactTooLarge <==> (snapshot.File? && !one) || (one && receipt.File? && !two) || (two && ready.File? && !three))
            && (v == TaskRootIdentity <==> !snapshot.File? || (one && !receipt.File?) || (two && ready in {NotRegular, Unreadable}))
  {
    assert ARTIFACT_LIMIT == 16_777_216 && AGGREGATE_LIMIT == 25_165_824;
  }
}
