/** Which error a publish raises: over all runs, each code goes with one way for the kernel's replies to end. */
module PublishErrors {
  import opened Basics
  import opened WriteLoop
  import opened Publish
  import opened PublishSafety
  import opened PublishProgram
  import opened PublishOutcomes
  import opened PublishDescriptors

  // ---------------------------------------------------------------- how replies end

  function Front(replies: seq<Reply>): seq<Reply> {
    if replies == [] then [] else replies[..|replies| - 1]
  }

  function Last(replies: seq<Reply>): Option<Reply> {
    if replies == [] then None else Some(replies[|replies| - 1])
  }

  /** The replies without the interruptions at their end. */
  function Settled(replies: seq<Reply>): seq<Reply> {
    if Last(replies) == Some(Interrupt) then Settled(Front(replies)) else replies
  }

  /** The writes at the end that took nothing, not counting interrupted ones. */
  function EmptyWrites(replies: seq<Reply>): nat {
    if Last(replies) == Some(Wrote(Interrupted)) then EmptyWrites(Front(replies))
    else if Last(replies) == Some(Wrote(Accepted(0))) then 1 + EmptyWrites(Front(replies))
    else 0
  }

  /** The temporary names at the end that were taken. */
  function TakenNames(replies: seq<Reply>): nat {
    if Last(replies) == Some(Exists) then 1 + TakenNames(Front(replies)) else 0
  }

  /** A new file that no write is needed for, a write, or the link: what comes before an fsync. */
  predicate BeforeSync(r: Option<Reply>) {
    r.Some? && (r.value.MadeAnonymous? || r.value.MadeTemp? || r.value.Wrote? || r.value == Linked)
  }

  /** The last two replies are these. */
  predicate EndsWith(replies: seq<Reply>, r: Reply, last: Reply) {
    Last(Front(replies)) == Some(r) && Last(replies) == Some(last)
  }

  /** The last reply is an errno for an fsync. */
  predicate SyncRefused(replies: seq<Reply>) {
    Last(replies) == Some(Errno) && BeforeSync(Last(Settled(Front(replies))))
  }

  // ---------------------------------------------------------------- what a phase says about the replies

  predicate Fits(code: Code, replies: seq<Reply>) {
    match code
    case NoReplaceViolation => EndsWith(replies, Synced, Exists)
    case LinkFailed => EndsWith(replies, Synced, Errno)
    case AtomicPrimitiveUnavailable => EndsWith(replies, Synced, Unsupported)
    case WriteError => Last(replies) == Some(Wrote(Failed))
    case ZeroWriteError => EmptyWrites(replies) == 65
    case FsyncFailed => SyncRefused(replies)
    case TmpCreateFailed => TakenNames(replies) == 64
    case SymlinkAncestry => Last(replies) in {Some(IsSymlink), Some(NotADirectory)}
    case DirCreateFailed => EndsWith(replies, NotFound, Exists) || (Last(replies).Some? && Last(replies).value.MadeDirectory?)
  }

  predicate OnShape(p: Publisher, replies: seq<Reply>) {
    match p.phase
    case CheckAncestry(_) => Last(replies) in {None, Some(Clean)}
    case OpenRoot => Last(replies) == Some(Clean)
    case OpenComponent(_, _) =>
      Last(replies).Some? && (Last(replies).value.Opened? || Last(replies).value.MadeDirectory? || Last(replies) == Some(Exists))
    case MakeComponent(_, _) => Last(replies) == Some(NotFound)
    case StatDest => Last(replies).Some? && Last(replies).value.Opened?
    case OpenAnonymous => Last(replies) in {Some(NotFound), Some(NotASymlink)}
    case CreateTemp(attempts) => TakenNames(replies) == attempts && Last(replies) in {Some(Unsupported), Some(Exists)}
    case Writing(_, w) => EmptyWrites(replies) == w.zeroStreak && BeforeSync(Last(replies)) && Last(replies) != Some(Linked)
    case Syncing(_) => BeforeSync(Last(Settled(replies)))
    case Linking(_) => Last(replies) == Some(Synced)
    case SyncDirectory(_) => Last(Settled(replies)) == Some(Linked)
    case Finished(outcome) =>
      match outcome
      case Returned(_) => Last(replies) == Some(Synced)
      case Raised(code, leftover) => Fits(code, replies) && (code == AtomicPrimitiveUnavailable ==> leftover.Some?)
      case OsError => Last(replies) == Some(Errno) && Last(Front(replies)) != Some(Synced) && !SyncRefused(replies)
  }

  lemma {:induction false} OneMore(replies: seq<Reply>, r: Reply)
    ensures Front(replies + [r]) == replies && Last(replies + [r]) == Some(r)
    ensures r != Interrupt ==> Settled(replies + [r]) == replies + [r]
    ensures r == Interrupt ==> Settled(replies + [r]) == Settled(replies)
    ensures r != Exists ==> TakenNames(replies + [r]) == 0
    ensures r == Exists ==> TakenNames(replies + [r]) == TakenNames(replies) + 1
    ensures r == Wrote(Interrupted) ==> EmptyWrites(replies + [r]) == EmptyWrites(replies)
    ensures r == Wrote(Accepted(0)) ==> EmptyWrites(replies + [r]) == EmptyWrites(replies) + 1
    ensures r != Wrote(Interrupted) && r != Wrote(Accepted(0)) ==> EmptyWrites(replies + [r]) == 0
  {
  }

  lemma {:induction false} CallStaysOnShape(fs: Fs, p: Publisher, r: Reply, replies: seq<Reply>)
    requires PubInv(fs, p) && CanReply(fs, p, r) && OnShape(p, replies)
    ensures OnShape(After(p, r), replies + [r])
  {
    OneMore(replies, r);
    hide Settled;
    hide EmptyWrites;
    hide TakenNames;
    if Walking(p.phase) { WalkStaysOnShape(fs, p, r, replies); }
    else if p.phase.Writing? || p.phase.CreateTemp? { WriteStaysOnShape(fs, p, r, replies); }
    else { DeliveryStaysOnShape(fs, p, r, replies); }
  }

  lemma {:induction false} WalkStaysOnShape(fs: Fs, p: Publisher, r: Reply, replies: seq<Reply>)
    requires PubInv(fs, p) && CanReply(fs, p, r) && OnShape(p, replies) && Walking(p.phase)
    ensures OnShape(After(p, r), replies + [r])
  {
    OneMore(replies, r);
    hide EmptyWrites;
    hide TakenNames;
    hide AfterCreateTemp;
    hide AfterWriting;
    hide AfterSyncing;
    hide AfterLinking;
    hide AfterSyncDirectory;
  }

  lemma {:induction false} WriteStaysOnShape(fs: Fs, p: Publisher, r: Reply, replies: seq<Reply>)
    requires PubInv(fs, p) && CanReply(fs, p, r) && OnShape(p, replies) && (p.phase.Writing? || p.phase.CreateTemp?)
    ensures OnShape(After(p, r), replies + [r])
  {
    OneMore(replies, r);
    hide EmptyWrites;
    hide TakenNames;
    hide AfterCheckAncestry;
    hide AfterOpenRoot;
    hide AfterOpenComponent;
    hide AfterMakeComponent;
    hide AfterStatDest;
    hide AfterOpenAnonymous;
    hide AfterSyncing;
    hide AfterLinking;
    hide AfterSyncDirectory;
  }

  lemma {:induction false} DeliveryStaysOnShape(fs: Fs, p: Publisher, r: Reply, replies: seq<Reply>)
    requires PubInv(fs, p) && CanReply(fs, p, r) && OnShape(p, replies)
    requires !Walking(p.phase) && !p.phase.Writing? && !p.phase.CreateTemp?
    ensures OnShape(After(p, r), replies + [r])
  {
    OneMore(replies, r);
    hide Settled;
    hide EmptyWrites;
    hide TakenNames;
    hide AfterCheckAncestry;
    hide AfterOpenRoot;
    hide AfterOpenComponent;
    hide AfterMakeComponent;
    hide AfterStatDest;
    hide AfterOpenAnonymous;
    hide AfterWriting;
  }

  lemma {:induction false} RunStaysOnShape(s: State, steps: seq<Step>, who: nat, before: seq<Reply>)
    requires Inv(s) && Legal(s, steps) && who < |s.pubs| && OnShape(s.pubs[who], before)
    ensures OnShape(Run(s, steps).pubs[who], before + RepliesTo(steps, who))
    decreases |steps|
  {
    hide OnShape;
    hide After;
    hide Effect;
    hide PubInv;
    hide CanReply;
    if steps == [] {
      assert before + [] == before;
    } else {
      StepKeepsInv(s, steps[0]);
      var next := Next(s, steps[0]);
      if steps[0].Call? && steps[0].who == who {
        var r := steps[0].reply;
        CallStaysOnShape(s.fs, s.pubs[who], r, before);
        RunStaysOnShape(next, steps[1..], who, before + [r]);
        assert (before + [r]) + RepliesTo(steps[1..], who) == before + ([r] + RepliesTo(steps[1..], who));
      } else {
        RunStaysOnShape(next, steps[1..], who, before);
        assert [] + RepliesTo(steps[1..], who) == RepliesTo(steps[1..], who);
      }
    }
  }

  // ---------------------------------------------------------------- the codes

  predicate RaisedAs(outcome: Outcome, code: Code) {
    outcome.Raised? && outcome.code == code
  }

  /** The shapes of two codes exclude each other. */
  lemma {:induction false} ShapesDiffer(p: Publisher, outcome: Outcome, replies: seq<Reply>)
    requires p.phase == Finished(outcome) && OnShape(p, replies)
    ensures RaisedAs(outcome, AtomicPrimitiveUnavailable) ==> outcome.leftover.Some?
    ensures outcome.Returned? <==> Last(replies) == Some(Synced)
    ensures RaisedAs(outcome, NoReplaceViolation) <==> EndsWith(replies, Synced, Exists)
    ensures RaisedAs(outcome, LinkFailed) <==> EndsWith(replies, Synced, Errno)
    ensures RaisedAs(outcome, AtomicPrimitiveUnavailable) <==> EndsWith(replies, Synced, Unsupported)
    ensures RaisedAs(outcome, WriteError) <==> Last(replies) == Some(Wrote(Failed))
    ensures RaisedAs(outcome, ZeroWriteError) <==> EmptyWrites(replies) == 65
    ensures RaisedAs(outcome, FsyncFailed) <==> SyncRefused(replies)
    ensures RaisedAs(outcome, TmpCreateFailed) <==> TakenNames(replies) == 64
    ensures RaisedAs(outcome, SymlinkAncestry) <==> Last(replies) in {Some(IsSymlink), Some(NotADirectory)}
    ensures outcome.OsError? <==> Last(replies) == Some(Errno) && Last(Front(replies)) != Some(Synced) && !SyncRefused(replies)
  {
    assert TakenNames(Front(replies)) > 0 <==> Last(Front(replies)) == Some(Exists);
  }

  lemma {:induction false} StartsOnShape(s: State, who: nat)
    requires Initial(s) && who < |s.pubs|
    ensures OnShape(s.pubs[who], [])
  {
  }

  /**
   What a finished publish raised, by its last replies from the kernel. It returned exactly if the
   last one was a successful fsync. It raised NO_REPLACE_VIOLATION exactly if that was `Exists` for a
   link, which is the call after a successful fsync of the file; LINK_FAILED for another errno there;
   ATOMIC_PRIMITIVE_UNAVAILABLE for an unsupported one, and only with a named temporary file; WRITE_FAILED exactly after a failed write;
   ZERO_WRITE after 65 writes that took nothing; FSYNC_FAILED for an errno of an fsync;
   TMP_CREATE_FAILED after 64 taken names; DIR_CREATE_FAILED after 16 rounds; and
   SYMLINK_ANCESTRY where a path or component was a symlink or no directory. Any other errno goes through.
   */
  lemma {:induction false} ErrorsExactly(s: State, steps: seq<Step>, who: nat)
    requires Initial(s) && Legal(s, steps) && who < |s.pubs| && Run(s, steps).pubs[who].phase.Finished?
    ensures var outcome, replies := Run(s, steps).pubs[who].phase.outcome, RepliesTo(steps, who);
            && (outcome.Returned? <==> Last(replies) == Some(Synced))
            && (RaisedAs(outcome, NoReplaceViolation) <==> EndsWith(replies, Synced, Exists))
            && (RaisedAs(outcome, LinkFailed) <==> EndsWith(replies, Synced, Errno))
            && (RaisedAs(outcome, AtomicPrimitiveUnavailable) <==> EndsWith(replies, Synced, Unsupported))
            && (RaisedAs(outcome, AtomicPrimitiveUnavailable) ==> outcome.leftover.Some?)
            && (RaisedAs(outcome, WriteError) <==> Last(replies) == Some(Wrote(Failed)))
            && (RaisedAs(outcome, ZeroWriteError) <==> EmptyWrites(replies) == 65)
            && (RaisedAs(outcome, FsyncFailed) <==> SyncRefused(replies))
            && (RaisedAs(outcome, TmpCreateFailed) <==> TakenNames(replies) == 64)
            && (RaisedAs(outcome, DirCreateFailed) <==> EndsInRounds(replies, 16))
            && (RaisedAs(outcome, SymlinkAncestry) <==> Last(replies) in {Some(IsSymlink), Some(NotADirectory)})
            && (outcome.OsError? <==> Last(replies) == Some(Errno) && Last(Front(replies)) != Some(Synced) && !SyncRefused(replies))
  {
    EndShape(s, steps, who);
    hide *;
    ShapesDiffer(Run(s, steps).pubs[who], Run(s, steps).pubs[who].phase.outcome, RepliesTo(steps, who));
  }

  lemma {:induction false} EndShape(s: State, steps: seq<Step>, who: nat)
    requires Initial(s) && Legal(s, steps) && who < |s.pubs| && Run(s, steps).pubs[who].phase.Finished?
    ensures var p, replies := Run(s, steps).pubs[who], RepliesTo(steps, who);
            OnShape(p, replies) && (RaisedAs(p.phase.outcome, DirCreateFailed) <==> EndsInRounds(replies, 16))
  {
    hide OnShape;
    hide EndsInRounds;
    hide Run;
    hide Legal;
    var replies := RepliesTo(steps, who);
    StartsOnShape(s, who);
    RunStaysOnShape(s, steps, who, []);
    assert [] + replies == replies;
    LeaksExactlyAfterRounds(s, steps, who);
    assert PubInv(Run(s, steps).fs, Run(s, steps).pubs[who]);
  }

  // ---------------------------------------------------------------- the looks come first

  /** All of the first n replies but a last one are clean looks, and there are no others. */
  predicate LooksFirst(replies: seq<Reply>, n: nat) {
    forall i :: 0 <= i < |replies| ==>
      if i < n then replies[i] == Clean || (replies[i] in {IsSymlink, Errno} && i == |replies| - 1) else replies[i] != Clean
  }

  predicate OnLooks(p: Publisher, replies: seq<Reply>) {
    && LooksFirst(replies, 1 + Min(256, |p.parents| + 1))
    && match p.phase
       case CheckAncestry(seen) => |replies| == seen && (seen > 0 ==> replies[seen - 1] == Clean)
       case Finished(_) => true
       case _ => |replies| >= 1 + Min(256, |p.parents| + 1)
                 && (|replies| == 1 + Min(256, |p.parents| + 1) ==> replies[|replies| - 1] == Clean)
  }

  lemma {:induction false} LooksGoOn(replies: seq<Reply>, r: Reply, n: nat)
    requires LooksFirst(replies, n)
    requires 0 < |replies| <= n ==> replies[|replies| - 1] == Clean
    requires if |replies| < n then r in {Clean, IsSymlink, Errno} else r != Clean
    ensures LooksFirst(replies + [r], n)
  {
  }

  lemma {:induction false} CallStaysOnLooks(fs: Fs, p: Publisher, r: Reply, replies: seq<Reply>)
    requires PubInv(fs, p) && CanReply(fs, p, r) && OnLooks(p, replies)
    ensures OnLooks(After(p, r), replies + [r])
  {
    hide LooksFirst;
    PhaseAfter(fs, p, r);
    LooksGoOn(replies, r, 1 + Min(256, |p.parents| + 1));
    hide After;
  }

  /** The looks are counted, and what comes after them stays after them. */
  lemma {:induction false} PhaseAfter(fs: Fs, p: Publisher, r: Reply)
    requires PubInv(fs, p) && CanReply(fs, p, r)
    ensures After(p, r).parents == p.parents
    ensures match p.phase
            case CheckAncestry(seen) =>
              && r in {Clean, IsSymlink, Errno}
              && seen <= Min(256, |p.parents| + 1)
              && (r == Clean && seen < Min(256, |p.parents| + 1) ==> After(p, r).phase == CheckAncestry(seen + 1))
              && (r == Clean && seen == Min(256, |p.parents| + 1) ==> After(p, r).phase == OpenRoot)
              && (r != Clean ==> After(p, r).phase.Finished?)
            case _ => r != Clean && !After(p, r).phase.CheckAncestry?
  {
    AfterKeepsAim(p, r);
  }

  lemma {:induction false} RunStaysOnLooks(s: State, steps: seq<Step>, who: nat, before: seq<Reply>)
    requires Inv(s) && Legal(s, steps) && who < |s.pubs| && OnLooks(s.pubs[who], before)
    ensures OnLooks(Run(s, steps).pubs[who], before + RepliesTo(steps, who))
    decreases |steps|
  {
    hide OnLooks;
    hide After;
    hide Effect;
    hide PubInv;
    hide CanReply;
    if steps == [] {
      assert before + [] == before;
    } else {
      StepKeepsInv(s, steps[0]);
      var next := Next(s, steps[0]);
      if steps[0].Call? && steps[0].who == who {
        var r := steps[0].reply;
        CallStaysOnLooks(s.fs, s.pubs[who], r, before);
        RunStaysOnLooks(next, steps[1..], who, before + [r]);
        assert (before + [r]) + RepliesTo(steps[1..], who) == before + ([r] + RepliesTo(steps[1..], who));
      } else {
        RunStaysOnLooks(next, steps[1..], who, before);
        assert [] + RepliesTo(steps[1..], who) == RepliesTo(steps[1..], who);
      }
    }
  }

  /**
   In every run a publisher first looks at its destination and at up to 256 of its ancestors, the root
   among them. Nothing else is done before these looks or between them, and a symlink or an errno ends them.
   */
  lemma {:induction false} AncestryFirst(s: State, steps: seq<Step>, who: nat)
    requires Initial(s) && Legal(s, steps) && who < |s.pubs|
    ensures LooksFirst(RepliesTo(steps, who), 1 + Min(256, |s.pubs[who].parents| + 1))
  {
    RunStaysOnLooks(s, steps, who, []);
    RunFollows(s, steps, who);
    assert [] + RepliesTo(steps, who) == RepliesTo(steps, who);
  }

  // ---------------------------------------------------------------- a run to a taken name

  /** One byte on its way to `dest` in the root directory, where another file has taken the name. */
  ghost function Taken(dest: Name, phase: Phase, fds: nat): State {
    State(Fs(map[ROOT := EMPTY_DIRECTORY, 1 := SAVED, 2 := EMPTY_FILE], map[Slot(ROOT, dest) := 2]),
          [OneByte(dest, phase, Some(1), None, fds, false)])
  }

  lemma {:induction false} NameIsTaken(dest: Name)
    ensures Leads(During(dest, Linking(false), SAVED, None, 2, false), Env(Taken(dest, Linking(false), 2).fs), Taken(dest, Linking(false), 2))
  {
  }

  lemma {:induction false} LinkRefused(dest: Name)
    ensures Leads(Taken(dest, Linking(false), 2), Call(0, Exists), Taken(dest, Finished(Raised(NoReplaceViolation, None)), 0))
  {
  }

  /** A run in which another file takes the name while the data is written: NO_REPLACE_VIOLATION, and the other file stays. */
  lemma {:induction false} TakenNameIsRefused(dest: Name)
    ensures var start, end := Before(dest, CheckAncestry(0), 0), Taken(dest, Finished(Raised(NoReplaceViolation, None)), 0);
            Initial(start) && Reaches(start, end) && end.fs.entries[Slot(ROOT, dest)] == 2
  {
    var s0 := During(dest, Writing(false, Start(1)), EMPTY_FILE, None, 2, false);
    var s1 := During(dest, Syncing(false), UNSAVED, None, 2, false);
    var s2 := During(dest, Linking(false), SAVED, None, 2, false);
    var s3 := Taken(dest, Linking(false), 2);
    var end := Taken(dest, Finished(Raised(NoReplaceViolation, None)), 0);
    hide Leads;
    hide Reaches;
    UnnamedStep(dest);
    LeadsToSafe(Before(dest, OpenAnonymous, 1), Call(0, MadeAnonymous(1)), s0);
    WriteStepped(dest, None);
    SyncStepped(dest, None);
    NameIsTaken(dest);
    LinkRefused(dest);
    LeadsToSafe(s3, Call(0, Exists), end);
    hide During;
    hide Before;
    ReachesItself(end);
    ReachesVia(s3, Call(0, Exists), end, end);
    ReachesVia(s2, Env(s3.fs), s3, end);
    ReachesVia(s1, Call(0, Synced), s2, end);
    ReachesVia(s0, Call(0, Wrote(Accepted(1))), s1, end);
    ReachesVia(Before(dest, OpenAnonymous, 1), Call(0, MadeAnonymous(1)), s0, end);
    ReachesFromStart(dest, end);
  }
}
