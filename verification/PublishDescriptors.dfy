/** Which publishes leave a directory open: the replies that do it, a run that does, and who can rule it out. */
module PublishDescriptors {
  import opened Basics
  import opened Publish
  import opened PublishSafety
  import opened PublishPaths
  import opened PublishProgram
  import opened PublishOutcomes

  // ---------------------------------------------------------------- in replies

  /** A component is not there, and then somebody has created it. */
  predicate IsRound(missed: Reply, made: Reply) {
    missed == NotFound && (made.MadeDirectory? || made == Exists)
  }

  /** The last 2 n replies are n rounds. */
  predicate EndsInRounds(replies: seq<Reply>, n: nat) {
    n == 0 || (|replies| >= 2 && IsRound(replies[|replies| - 2], replies[|replies| - 1])
               && EndsInRounds(replies[..|replies| - 2], n - 1))
  }

  /** The rounds that a list of replies ends with, and whether another one has begun. */
  datatype Trail = Trail(rounds: nat, begun: bool)

  function Further(t: Trail, r: Reply): Trail {
    if t.begun && (r.MadeDirectory? || r == Exists) then Trail(t.rounds + 1, false)
    else if r == NotFound then Trail(if t.begun then 0 else t.rounds, true)
    else Trail(0, false)
  }

  function TrailOf(replies: seq<Reply>): Trail {
    if replies == [] then Trail(0, false) else Further(TrailOf(replies[..|replies| - 1]), replies[|replies| - 1])
  }

  /** The trail counts the rounds at the end, not counting a reply that begins another one. */
  lemma {:induction false} TrailCounts(replies: seq<Reply>, n: nat)
    requires n > 0
    ensures var t := TrailOf(replies);
            && (t.begun <==> replies != [] && replies[|replies| - 1] == NotFound)
            && (EndsInRounds(if t.begun then replies[..|replies| - 1] else replies, n) <==> n <= t.rounds)
    decreases |replies|
  {
    if |replies| >= 2 {
      var one := replies[..|replies| - 1];
      assert one[..|one| - 1] == replies[..|replies| - 2] && one[|one| - 1] == replies[|replies| - 2];
      TrailCounts(one, n);
      if n > 1 { TrailCounts(one, n - 1); }
    } else if |replies| == 1 {
      assert replies[..0] == [];
    }
  }

  /** A publisher's phase says how its replies so far end. */
  predicate OnTrail(p: Publisher, t: Trail) {
    match p.phase
    case OpenComponent(_, tries) => t == Trail(tries, false)
    case MakeComponent(_, tries) => t == Trail(tries, true)
    case OpenAnonymous => t.rounds == 0
    case Finished(outcome) =>
      if outcome.Raised? && outcome.code == DirCreateFailed then t == Trail(MAX_DIR_CREATE_RETRIES, false) else t.rounds == 0
    case _ => t == Trail(0, false)
  }

  lemma {:induction false} CallStaysOnTrail(fs: Fs, p: Publisher, r: Reply, t: Trail)
    requires PubInv(fs, p) && CanReply(fs, p, r) && OnTrail(p, t)
    ensures OnTrail(After(p, r), Further(t, r))
  {
    if Walking(p.phase) { WalkStaysOnTrail(fs, p, r, t); } else { DeliveryStaysOnTrail(fs, p, r, t); }
  }

  lemma {:induction false} WalkStaysOnTrail(fs: Fs, p: Publisher, r: Reply, t: Trail)
    requires PubInv(fs, p) && CanReply(fs, p, r) && OnTrail(p, t) && Walking(p.phase)
    ensures OnTrail(After(p, r), Further(t, r))
  {
    hide AfterCreateTemp;
    hide AfterWriting;
    hide AfterSyncing;
    hide AfterLinking;
    hide AfterSyncDirectory;
  }

  lemma {:induction false} DeliveryStaysOnTrail(fs: Fs, p: Publisher, r: Reply, t: Trail)
    requires PubInv(fs, p) && CanReply(fs, p, r) && OnTrail(p, t) && !Walking(p.phase)
    ensures OnTrail(After(p, r), Further(t, r))
  {
    hide AfterCheckAncestry;
    hide AfterOpenRoot;
    hide AfterOpenComponent;
    hide AfterMakeComponent;
    hide AfterStatDest;
    hide AfterOpenAnonymous;
  }

  lemma {:induction false} TrailOfOne(before: seq<Reply>, r: Reply)
    ensures TrailOf(before + [r]) == Further(TrailOf(before), r)
  {
    assert (before + [r])[..|before|] == before;
  }

  lemma {:induction false} RunStaysOnTrail(s: State, steps: seq<Step>, who: nat, before: seq<Reply>)
    requires Inv(s) && Legal(s, steps) && who < |s.pubs| && OnTrail(s.pubs[who], TrailOf(before))
    ensures OnTrail(Run(s, steps).pubs[who], TrailOf(before + RepliesTo(steps, who)))
    decreases |steps|
  {
    hide OnTrail;
    hide After;
    hide Effect;
    hide PubInv;
    hide CanReply;
    hide Further;
    hide TrailOf;
    if steps == [] {
      assert before + [] == before;
    } else {
      StepKeepsInv(s, steps[0]);
      var next := Next(s, steps[0]);
      if steps[0].Call? && steps[0].who == who {
        var r := steps[0].reply;
        var more := before + [r];
        TrailOfOne(before, r);
        CallStaysOnTrail(s.fs, s.pubs[who], r, TrailOf(before));
        RunStaysOnTrail(next, steps[1..], who, more);
        assert more + RepliesTo(steps[1..], who) == before + ([r] + RepliesTo(steps[1..], who));
      } else {
        RunStaysOnTrail(next, steps[1..], who, before);
        assert [] + RepliesTo(steps[1..], who) == RepliesTo(steps[1..], who);
      }
    }
  }

  /**
   A finished publish has left its directory open exactly if the kernel's last replies to it were
   sixteen rounds in which a component was not there, was created, and was gone again.
   */
  lemma {:induction false} LeaksExactlyAfterRounds(s: State, steps: seq<Step>, who: nat)
    requires Initial(s) && Legal(s, steps) && who < |s.pubs| && Run(s, steps).pubs[who].phase.Finished?
    ensures Run(s, steps).pubs[who].fds == if EndsInRounds(RepliesTo(steps, who), MAX_DIR_CREATE_RETRIES) then 1 else 0
  {
    hide Run;
    hide Legal;
    hide EndsInRounds;
    hide TrailOf;
    var replies := RepliesTo(steps, who);
    NoTrailYet(s, who);
    RunStaysOnTrail(s, steps, who, []);
    assert [] + replies == replies;
    TrailCounts(replies, MAX_DIR_CREATE_RETRIES);
    BeginningIsNoRound(replies, MAX_DIR_CREATE_RETRIES);
    assert PubInv(Run(s, steps).fs, Run(s, steps).pubs[who]);
  }

  lemma {:induction false} NoTrailYet(s: State, who: nat)
    requires Initial(s) && who < |s.pubs|
    ensures OnTrail(s.pubs[who], TrailOf([]))
  {
  }

  lemma {:induction false} BeginningIsNoRound(replies: seq<Reply>, n: nat)
    requires n > 0
    ensures replies != [] && replies[|replies| - 1] == NotFound ==> !EndsInRounds(replies, n)
  {
  }

  // ---------------------------------------------------------------- a run

  /** A publisher of nothing to the file `a` in the directory `d` of the root. */
  function Below(phase: Phase, fds: nat): Publisher {
    Publisher(["d"], "a", [], phase, ROOT, None, None, fds, false)
  }

  /** The root and k more directories. */
  ghost function Directories(k: nat): (inodes: map<Ino, Inode>)
    ensures forall i: nat :: i in inodes <==> i <= k
    ensures forall i: nat :: i in inodes ==> inodes[i] == EMPTY_DIRECTORY
  {
    if k == 0 then map[ROOT := EMPTY_DIRECTORY] else Directories(k - 1)[k := EMPTY_DIRECTORY]
  }

  /** That publisher while `d` does not exist, after k directories have come and gone. */
  ghost function Gone(k: nat, phase: Phase, fds: nat): State {
    State(Fs(Directories(k), map[]), [Below(phase, fds)])
  }

  /** The same with the k-th directory just made. */
  ghost function There(k: nat, phase: Phase): State {
    State(Fs(Directories(k), map[Slot(ROOT, "d") := k]), [Below(phase, 1)])
  }

  function AfterRound(tries: nat): Phase {
    if tries + 1 < MAX_DIR_CREATE_RETRIES then OpenComponent(0, tries + 1) else Finished(Raised(DirCreateFailed, None))
  }

  lemma {:induction false} StartSteps()
    ensures Initial(Gone(0, CheckAncestry(0), 0))
    ensures Leads(Gone(0, CheckAncestry(0), 0), Call(0, Clean), Gone(0, CheckAncestry(1), 0))
    ensures Leads(Gone(0, CheckAncestry(1), 0), Call(0, Clean), Gone(0, CheckAncestry(2), 0))
    ensures Leads(Gone(0, CheckAncestry(2), 0), Call(0, Clean), Gone(0, OpenRoot, 0))
  {
  }

  lemma {:induction false} RootStep()
    ensures Leads(Gone(0, OpenRoot, 0), Call(0, Opened(ROOT)), Gone(0, OpenComponent(0, 0), 1))
  {
  }

  lemma {:induction false} MissingStep(tries: nat)
    requires tries < MAX_DIR_CREATE_RETRIES
    ensures Leads(Gone(tries, OpenComponent(0, tries), 1), Call(0, NotFound), Gone(tries, MakeComponent(0, tries), 1))
  {
  }

  lemma {:induction false} MadeStep(tries: nat)
    requires tries < MAX_DIR_CREATE_RETRIES
    ensures Leads(Gone(tries, MakeComponent(0, tries), 1), Call(0, MadeDirectory(tries + 1)), There(tries + 1, AfterRound(tries)))
  {
    assert Inv(Gone(tries, MakeComponent(0, tries), 1));
    StepKeepsInv(Gone(tries, MakeComponent(0, tries), 1), Call(0, MadeDirectory(tries + 1)));
  }

  lemma {:induction false} RemovedStep(tries: nat)
    requires tries < MAX_DIR_CREATE_RETRIES
    ensures Leads(There(tries + 1, AfterRound(tries)), Env(Fs(Directories(tries + 1), map[])), Gone(tries + 1, AfterRound(tries), 1))
  {
    hide After;
    hide Effect;
    hide CanReply;
    hide Directories;
  }

  lemma {:induction false} RoundsLeak(tries: nat)
    requires tries < MAX_DIR_CREATE_RETRIES
    ensures Reaches(Gone(tries, OpenComponent(0, tries), 1), Gone(16, Finished(Raised(DirCreateFailed, None)), 1))
    decreases MAX_DIR_CREATE_RETRIES - tries
  {
    var end := Gone(16, Finished(Raised(DirCreateFailed, None)), 1);
    MissingStep(tries);
    MadeStep(tries);
    RemovedStep(tries);
    hide Leads;
    hide Reaches;
    hide Gone;
    hide There;
    if tries + 1 < MAX_DIR_CREATE_RETRIES {
      RoundsLeak(tries + 1);
    } else {
      LeadsToSafe(There(tries + 1, AfterRound(tries)), Env(Fs(Directories(tries + 1), map[])), end);
      ReachesItself(end);
    }
    ReachesVia(There(tries + 1, AfterRound(tries)), Env(Fs(Directories(tries + 1), map[])), Gone(tries + 1, AfterRound(tries), 1), end);
    ReachesVia(Gone(tries, MakeComponent(0, tries), 1), Call(0, MadeDirectory(tries + 1)), There(tries + 1, AfterRound(tries)), end);
    ReachesVia(Gone(tries, OpenComponent(0, tries), 1), Call(0, NotFound), Gone(tries, MakeComponent(0, tries), 1), end);
  }

  /** A run in which the directory is removed after each creation: the publish ends with the root left open. */
  lemma {:induction false} UncreatableComponentLeaks()
    ensures var start, end := Gone(0, CheckAncestry(0), 0), Gone(16, Finished(Raised(DirCreateFailed, None)), 1);
            Initial(start) && Reaches(start, end) && end.pubs[0].fds == 1
  {
    var end := Gone(16, Finished(Raised(DirCreateFailed, None)), 1);
    StartSteps();
    RootStep();
    RoundsLeak(0);
    hide *;
    ReachesVia(Gone(0, OpenRoot, 0), Call(0, Opened(ROOT)), Gone(0, OpenComponent(0, 0), 1), end);
    ReachesVia(Gone(0, CheckAncestry(2), 0), Call(0, Clean), Gone(0, OpenRoot, 0), end);
    ReachesVia(Gone(0, CheckAncestry(1), 0), Call(0, Clean), Gone(0, CheckAncestry(2), 0), end);
    ReachesVia(Gone(0, CheckAncestry(0), 0), Call(0, Clean), Gone(0, CheckAncestry(1), 0), end);
    EndIsOpen();
  }

  lemma {:induction false} EndIsOpen()
    ensures Gone(16, Finished(Raised(DirCreateFailed, None)), 1).pubs == [Below(Finished(Raised(DirCreateFailed, None)), 1)]
    ensures Below(Finished(Raised(DirCreateFailed, None)), 1).fds == 1
  {
  }

  // ---------------------------------------------------------------- who can rule it out

  /** Every component is opened by the second try: what was created is still there. */
  ghost predicate FirstRound(fs: Fs, p: Publisher) {
    match p.phase
    case OpenComponent(depth, tries) =>
      tries <= 1 && (tries == 1 && depth < |p.parents| ==> Slot(p.dir, p.parents[depth]) in fs.entries)
    case MakeComponent(_, tries) => tries == 0
    case Finished(outcome) => !(outcome.Raised? && outcome.code == DirCreateFailed)
    case _ => true
  }

  lemma {:induction false} CallStaysInFirstRound(s: State, who: nat, reply: Reply)
    requires Inv(s) && Enabled(s, Call(who, reply)) && FirstRound(s.fs, s.pubs[who])
    ensures FirstRound(Next(s, Call(who, reply)).fs, After(s.pubs[who], reply))
  {
    assert PubInv(s.fs, s.pubs[who]);
    if Walking(s.pubs[who].phase) {
      WalkInFirstRound(s.fs, s.pubs[who], reply);
    } else {
      DeliveryNeverFailsToCreate(s.fs, s.pubs[who], reply);
    }
  }

  lemma {:induction false} WalkInFirstRound(fs: Fs, p: Publisher, reply: Reply)
    requires PubInv(fs, p) && CanReply(fs, p, reply) && FirstRound(fs, p) && Walking(p.phase)
    ensures FirstRound(Effect(fs, p, reply), After(p, reply))
  {
    hide AfterCreateTemp;
    hide AfterWriting;
    hide AfterSyncing;
    hide AfterLinking;
    hide AfterSyncDirectory;
  }

  lemma {:induction false} DeliveryNeverFailsToCreate(fs: Fs, p: Publisher, reply: Reply)
    requires PubInv(fs, p) && CanReply(fs, p, reply) && FirstRound(fs, p) && !Walking(p.phase)
    ensures FirstRound(Effect(fs, p, reply), After(p, reply))
  {
    hide AfterCheckAncestry;
    hide AfterOpenRoot;
    hide AfterOpenComponent;
    hide AfterMakeComponent;
    hide AfterStatDest;
    hide AfterOpenAnonymous;
    hide Effect;
  }

  lemma {:induction false} RunStaysInFirstRound(s: State, steps: seq<Step>, who: nat)
    requires Inv(s) && Legal(s, steps) && EnvOnlyAdds(s, steps) && who < |s.pubs| && FirstRound(s.fs, s.pubs[who])
    ensures FirstRound(Run(s, steps).fs, Run(s, steps).pubs[who])
    decreases |steps|
  {
    if steps != [] {
      StepKeepsInv(s, steps[0]);
      var next := Next(s, steps[0]);
      if steps[0].Call? {
        CallOnlyAdds(s, steps[0].who, steps[0].reply);
        if steps[0].who == who { CallStaysInFirstRound(s, who, steps[0].reply); }
      }
      assert FirstRound(next.fs, next.pubs[who]);
      RunStaysInFirstRound(next, steps[1..], who);
    }
  }

  /** When the environment only adds names, every publish that finishes has closed everything. */
  lemma {:induction false} AddingEnvironmentLeaksNothing(s: State, steps: seq<Step>, who: nat)
    requires Initial(s) && Legal(s, steps) && EnvOnlyAdds(s, steps) && who < |s.pubs|
    ensures Run(s, steps).pubs[who].phase.Finished? ==> Run(s, steps).pubs[who].fds == 0
  {
    RunStaysInFirstRound(s, steps, who);
    assert PubInv(Run(s, steps).fs, Run(s, steps).pubs[who]);
  }
}
