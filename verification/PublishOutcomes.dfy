/** What the end of a publish tells its caller: concrete runs, and the one error that leaves the binding open. */
module PublishOutcomes {
  import opened Basics
  import opened WriteLoop
  import opened Publish
  import opened PublishSafety

  // ---------------------------------------------------------------- runs

  ghost predicate Leads(s: State, step: Step, s': State) {
    Inv(s) && Enabled(s, step) && Next(s, step) == s' && Inv(s')
  }

  ghost predicate Reaches(s: State, s': State) {
    Inv(s) && exists steps :: Legal(s, steps) && Run(s, steps) == s'
  }

  lemma {:induction false} ReachesItself(s: State)
    requires Inv(s)
    ensures Reaches(s, s)
  {
    assert Legal(s, []) && Run(s, []) == s;
  }

  lemma {:induction false} RunCons(s: State, step: Step, rest: seq<Step>)
    requires Inv(s) && Enabled(s, step) && Inv(Next(s, step)) && Legal(Next(s, step), rest)
    ensures Legal(s, [step] + rest) && Run(s, [step] + rest) == Run(Next(s, step), rest)
  {
    assert ([step] + rest)[1..] == rest;
  }

  lemma {:induction false} ReachesVia(s: State, step: Step, mid: State, end: State)
    requires Leads(s, step, mid) && Reaches(mid, end)
    ensures Reaches(s, end)
  {
    var rest :| Legal(mid, rest) && Run(mid, rest) == end;
    RunCons(s, step, rest);
  }

  // ---------------------------------------------------------------- one byte to the root directory

  /** A publisher of one byte to `dest` in the root directory. */
  function OneByte(dest: Name, phase: Phase, tmp: Option<Ino>, tempName: Option<Name>, fds: nat, bound: bool): Publisher {
    Publisher([], dest, [0], phase, ROOT, tmp, tempName, fds, bound)
  }

  /** That publisher alone, before it has touched an empty root directory. */
  ghost function Before(dest: Name, phase: Phase, fds: nat): State {
    State(Fs(map[ROOT := EMPTY_DIRECTORY], map[]), [OneByte(dest, phase, None, None, fds, false)])
  }

  /** The same with its file made: inode 1, under its temporary name if it has one. */
  ghost function During(dest: Name, phase: Phase, file: Inode, temp: Option<Name>, fds: nat, bound: bool): State {
    var entries := match temp case None => map[] case Some(name) => map[Slot(ROOT, name) := 1];
    State(Fs(map[ROOT := EMPTY_DIRECTORY, 1 := file], if bound then entries[Slot(ROOT, dest) := 1] else entries),
          [OneByte(dest, phase, Some(1), temp, fds, bound)])
  }

  const SAVED: Inode := Inode(Regular, [0], [0])
  const UNSAVED: Inode := Inode(Regular, [0], [])

  lemma {:induction false} LookingSteps(dest: Name)
    ensures Leads(Before(dest, CheckAncestry(0), 0), Call(0, Clean), Before(dest, CheckAncestry(1), 0))
    ensures Leads(Before(dest, CheckAncestry(1), 0), Call(0, Clean), Before(dest, OpenRoot, 0))
  {
  }

  lemma {:induction false} OpeningSteps(dest: Name)
    ensures Leads(Before(dest, OpenRoot, 0), Call(0, Opened(ROOT)), Before(dest, StatDest, 1))
    ensures Leads(Before(dest, StatDest, 1), Call(0, NotFound), Before(dest, OpenAnonymous, 1))
  {
  }

  lemma {:induction false} UnnamedStep(dest: Name)
    ensures Leads(Before(dest, OpenAnonymous, 1), Call(0, MadeAnonymous(1)),
                  During(dest, Writing(false, Start(1)), EMPTY_FILE, None, 2, false))
  {
    StepKeepsInv(Before(dest, OpenAnonymous, 1), Call(0, MadeAnonymous(1)));
  }

  lemma {:induction false} FallbackStep(dest: Name)
    ensures Leads(Before(dest, OpenAnonymous, 1), Call(0, Unsupported), Before(dest, CreateTemp(0), 1))
  {
  }

  lemma {:induction false} NamedStep(dest: Name, token: string)
    requires IsToken(token)
    ensures Leads(Before(dest, CreateTemp(0), 1), Call(0, MadeTemp(1, token)),
                  During(dest, Writing(true, Start(1)), EMPTY_FILE, Some(TempName(dest, token)), 2, false))
  {
    StepKeepsInv(Before(dest, CreateTemp(0), 1), Call(0, MadeTemp(1, token)));
  }

  lemma {:induction false} WriteStepped(dest: Name, temp: Option<Name>)
    requires Inv(During(dest, Writing(temp.Some?, Start(1)), EMPTY_FILE, temp, 2, false))
    ensures Leads(During(dest, Writing(temp.Some?, Start(1)), EMPTY_FILE, temp, 2, false), Call(0, Wrote(Accepted(1))),
                  During(dest, Syncing(temp.Some?), UNSAVED, temp, 2, false))
  {
    var s, r := During(dest, Writing(temp.Some?, Start(1)), EMPTY_FILE, temp, 2, false), Wrote(Accepted(1));
    hide After;
    hide Effect;
    hide CanReply;
    hide PubInv;
    WritesOne(s.fs, s.pubs[0], temp.Some?);
    StepKeepsInv(s, Call(0, r));
  }

  lemma {:induction false} WritesOne(fs: Fs, p: Publisher, named: bool)
    requires p.data == [0] && p.phase == Writing(named, Start(1)) && p.tmp == Some(1) && 1 in fs.inodes && fs.inodes[1] == EMPTY_FILE
    ensures CanReply(fs, p, Wrote(Accepted(1))) && After(p, Wrote(Accepted(1))) == Enter(p, Syncing(named))
    ensures Effect(fs, p, Wrote(Accepted(1))) == WithFile(fs, 1, UNSAVED)
  {
    assert WriteStep(1, Start(1), Accepted(1)) == Progress(1, 0, Written);
    assert EMPTY_FILE.content + p.data[0..1] == [0];
  }

  lemma {:induction false} FileSyncFails(dest: Name)
    ensures Leads(During(dest, Syncing(false), UNSAVED, None, 2, false), Call(0, Errno),
                  During(dest, Finished(Raised(FsyncFailed, None)), UNSAVED, None, 0, false))
  {
  }

  lemma {:induction false} SyncStepped(dest: Name, temp: Option<Name>)
    ensures Leads(During(dest, Syncing(temp.Some?), UNSAVED, temp, 2, false), Call(0, Synced),
                  During(dest, Linking(temp.Some?), SAVED, temp, 2, false))
  {
  }

  lemma {:induction false} LinkStepped(dest: Name, temp: Option<Name>)
    requires temp != Some(dest)
    ensures Leads(During(dest, Linking(temp.Some?), SAVED, temp, 2, false), Call(0, Linked),
                  During(dest, SyncDirectory(temp.Some?), SAVED, temp, 1, true))
  {
  }

  lemma {:induction false} DirectorySyncFails(dest: Name, temp: Option<Name>)
    ensures Leads(During(dest, SyncDirectory(temp.Some?), SAVED, temp, 1, true), Call(0, Errno),
                  During(dest, Finished(Raised(FsyncFailed, None)), SAVED, temp, 0, true))
  {
  }

  /** From the written file on: the file fsync and the link succeed, the directory fsync does not. */
  lemma {:induction false} BindsAndFails(dest: Name, temp: Option<Name>)
    requires temp != Some(dest) && Inv(During(dest, Writing(temp.Some?, Start(1)), EMPTY_FILE, temp, 2, false))
    ensures Reaches(During(dest, Writing(temp.Some?, Start(1)), EMPTY_FILE, temp, 2, false),
                    During(dest, Finished(Raised(FsyncFailed, None)), SAVED, temp, 0, true))
  {
    hide *;
    var s0 := During(dest, Writing(temp.Some?, Start(1)), EMPTY_FILE, temp, 2, false);
    var s1 := During(dest, Syncing(temp.Some?), UNSAVED, temp, 2, false);
    var s2 := During(dest, Linking(temp.Some?), SAVED, temp, 2, false);
    var s3 := During(dest, SyncDirectory(temp.Some?), SAVED, temp, 1, true);
    var end := During(dest, Finished(Raised(FsyncFailed, None)), SAVED, temp, 0, true);
    WriteStepped(dest, temp);
    SyncStepped(dest, temp);
    LinkStepped(dest, temp);
    DirectorySyncFails(dest, temp);
    LeadsToSafe(s3, Call(0, Errno), end);
    ReachesItself(end);
    ReachesVia(s3, Call(0, Errno), end, end);
    ReachesVia(s2, Call(0, Linked), s3, end);
    ReachesVia(s1, Call(0, Synced), s2, end);
    ReachesVia(s0, Call(0, Wrote(Accepted(1))), s1, end);
  }

  lemma {:induction false} LeadsToSafe(s: State, step: Step, s': State)
    requires Leads(s, step, s')
    ensures Inv(s) && Inv(s')
  {
  }

  /** The first four calls. */
  lemma {:induction false} ReachesFromStart(dest: Name, end: State)
    requires Reaches(Before(dest, OpenAnonymous, 1), end)
    ensures Initial(Before(dest, CheckAncestry(0), 0)) && Reaches(Before(dest, CheckAncestry(0), 0), end)
  {
    LookingSteps(dest);
    OpeningSteps(dest);
    StartIsInitial(dest);
    hide *;
    ReachesVia(Before(dest, StatDest, 1), Call(0, NotFound), Before(dest, OpenAnonymous, 1), end);
    ReachesVia(Before(dest, OpenRoot, 0), Call(0, Opened(ROOT)), Before(dest, StatDest, 1), end);
    ReachesVia(Before(dest, CheckAncestry(1), 0), Call(0, Clean), Before(dest, OpenRoot, 0), end);
    ReachesVia(Before(dest, CheckAncestry(0), 0), Call(0, Clean), Before(dest, CheckAncestry(1), 0), end);
  }

  lemma {:induction false} StartIsInitial(dest: Name)
    ensures Initial(Before(dest, CheckAncestry(0), 0))
  {
  }

  /**
   A run in which the destination is bound and a temporary name is left behind, yet the raised error
   carries no leftover name.
   */
  lemma {:induction false} DirectoryFsyncHidesLeftover(dest: Name, token: string)
    requires IsToken(token)
    ensures var temp := TempName(dest, token);
            var start := Before(dest, CheckAncestry(0), 0);
            var end := During(dest, Finished(Raised(FsyncFailed, None)), SAVED, Some(temp), 0, true);
            Initial(start) && Reaches(start, end) && Slot(ROOT, temp) in end.fs.entries && Slot(ROOT, dest) in end.fs.entries
  {
    var temp := TempName(dest, token);
    assert |temp| > |dest|;
    var end := During(dest, Finished(Raised(FsyncFailed, None)), SAVED, Some(temp), 0, true);
    hide Leads;
    hide Reaches;
    NamedStep(dest, token);
    LeadsToSafe(Before(dest, CreateTemp(0), 1), Call(0, MadeTemp(1, token)), During(dest, Writing(true, Start(1)), EMPTY_FILE, Some(temp), 2, false));
    BindsAndFails(dest, Some(temp));
    ReachesVia(Before(dest, CreateTemp(0), 1), Call(0, MadeTemp(1, token)),
               During(dest, Writing(true, Start(1)), EMPTY_FILE, Some(temp), 2, false), end);
    FallbackStep(dest);
    ReachesVia(Before(dest, OpenAnonymous, 1), Call(0, Unsupported), Before(dest, CreateTemp(0), 1), end);
    ReachesFromStart(dest, end);
  }

  /** Two runs from one start that raise the same exception; one has bound the destination, one has not. */
  lemma {:induction false} SameErrorTwice(dest: Name)
    ensures var start := Before(dest, CheckAncestry(0), 0);
            && Initial(start)
            && Reaches(start, During(dest, Finished(Raised(FsyncFailed, None)), SAVED, None, 0, true))
            && Reaches(start, During(dest, Finished(Raised(FsyncFailed, None)), UNSAVED, None, 0, false))
  {
    hide Leads;
    hide Reaches;
    var bound := During(dest, Finished(Raised(FsyncFailed, None)), SAVED, None, 0, true);
    var free := During(dest, Finished(Raised(FsyncFailed, None)), UNSAVED, None, 0, false);
    var made, written := During(dest, Writing(false, Start(1)), EMPTY_FILE, None, 2, false), During(dest, Syncing(false), UNSAVED, None, 2, false);
    UnnamedStep(dest);
    LeadsToSafe(Before(dest, OpenAnonymous, 1), Call(0, MadeAnonymous(1)), made);
    BindsAndFails(dest, None);
    ReachesVia(Before(dest, OpenAnonymous, 1), Call(0, MadeAnonymous(1)), made, bound);
    ReachesFromStart(dest, bound);
    WriteStepped(dest, None);
    FileSyncFails(dest);
    LeadsToSafe(written, Call(0, Errno), free);
    ReachesItself(free);
    ReachesVia(written, Call(0, Errno), free, free);
    ReachesVia(made, Call(0, Wrote(Accepted(1))), written, free);
    ReachesVia(Before(dest, OpenAnonymous, 1), Call(0, MadeAnonymous(1)), made, free);
    ReachesFromStart(dest, free);
  }

  // ---------------------------------------------------------------- what an error tells

  /** A run ends with this outcome for `who`, whose destination is bound or not. */
  ghost predicate Ends(s: State, s': State, who: nat, outcome: Outcome, bound: bool) {
    && Initial(s) && Reaches(s, s') && who < |s'.pubs|
    && s'.pubs[who].phase == Finished(outcome) && s'.pubs[who].bound == bound
  }

  ghost predicate CanEnd(outcome: Outcome, bound: bool) {
    exists s, s', who :: Ends(s, s', who, outcome, bound)
  }

  /**
   An error leaves open whether the destination was published exactly if it is FSYNC_FAILED without a
   leftover name. Every other error, and FSYNC_FAILED with a name, means that it was not.
   */
  lemma {:induction false} ErrorLeavesBindingOpen(code: Code, leftover: Option<Name>)
    ensures CanEnd(Raised(code, leftover), true) && CanEnd(Raised(code, leftover), false) <==> code == FsyncFailed && leftover == None
    ensures CanEnd(Raised(code, leftover), true) ==> code == FsyncFailed && leftover == None
    ensures !CanEnd(Returned(leftover), false)
    ensures !CanEnd(OsError, true)
  {
    hide Ends;
    hide Reaches;
    hide During;
    hide Before;
    CanEndTells(Raised(code, leftover), true);
    CanEndTells(Returned(leftover), false);
    CanEndTells(OsError, true);
    if code == FsyncFailed && leftover == None {
      SameErrorTwice("a");
      EndsDuring(SAVED, true);
      EndsDuring(UNSAVED, false);
    }
  }

  lemma {:induction false} CanEndTells(outcome: Outcome, bound: bool)
    ensures CanEnd(outcome, bound) ==> Tells(outcome, bound)
  {
    hide Reaches;
    hide Initial;
    if CanEnd(outcome, bound) {
      var s, s', who :| Ends(s, s', who, outcome, bound);
      OutcomeTells(s, s', who);
    }
  }

  lemma {:induction false} EndsDuring(file: Inode, bound: bool)
    requires var start := Before("a", CheckAncestry(0), 0);
             Initial(start) && Reaches(start, During("a", Finished(Raised(FsyncFailed, None)), file, None, 0, bound))
    ensures CanEnd(Raised(FsyncFailed, None), bound)
  {
    hide Reaches;
    hide Initial;
    assert Ends(Before("a", CheckAncestry(0), 0), During("a", Finished(Raised(FsyncFailed, None)), file, None, 0, bound), 0,
                Raised(FsyncFailed, None), bound);
  }

  predicate Tells(outcome: Outcome, bound: bool) {
    match outcome
    case Returned(_) => bound
    case Raised(code, leftover) => code != FsyncFailed || leftover.Some? ==> !bound
    case OsError => !bound
  }

  lemma {:induction false} OutcomeTells(s: State, s': State, who: nat)
    requires Initial(s) && Reaches(s, s') && who < |s'.pubs| && s'.pubs[who].phase.Finished?
    ensures Tells(s'.pubs[who].phase.outcome, s'.pubs[who].bound)
  {
    var steps :| Legal(s, steps) && Run(s, steps) == s';
    LeftoverReport(s', who);
  }
}
