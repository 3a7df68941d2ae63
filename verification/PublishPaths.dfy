/** Publishing to a path: the walk that pins the directory, and the work it takes. */
module PublishPaths {
  import opened Basics
  import opened WriteLoop
  import opened Publish
  import opened PublishSafety

  // ---------------------------------------------------------------- paths

  /** Follow `names` from `dir` through entries that are directories themselves, never links. */
  ghost function Resolve(fs: Fs, dir: Ino, names: seq<Name>): Option<Ino>
    decreases |names|
  {
    if names == [] then Some(dir)
    else
      var slot := Slot(dir, names[0]);
      if slot in fs.entries && fs.entries[slot] in fs.inodes && fs.inodes[fs.entries[slot]].kind == Directory
      then Resolve(fs, fs.entries[slot], names[1..])
      else None
  }

  lemma {:induction false} ResolveOneMore(fs: Fs, dir: Ino, names: seq<Name>, last: Name)
    ensures Resolve(fs, dir, names + [last])
         == if Resolve(fs, dir, names).None? then None else Resolve(fs, Resolve(fs, dir, names).value, [last])
    decreases |names|
  {
    if names == [] {
      assert [] + [last] == [last];
    } else {
      assert (names + [last])[1..] == names[1..] + [last];
      var slot := Slot(dir, names[0]);
      if slot in fs.entries { ResolveOneMore(fs, fs.entries[slot], names[1..], last); }
    }
  }

  ghost predicate KeepsKinds(fs: Fs, fs': Fs) {
    forall i :: i in fs.inodes ==> i in fs'.inodes && fs'.inodes[i].kind == fs.inodes[i].kind
  }

  lemma {:induction false} ResolveStays(fs: Fs, fs': Fs, dir: Ino, names: seq<Name>)
    requires Extends(fs, fs') && KeepsKinds(fs, fs') && Resolve(fs, dir, names).Some?
    ensures Resolve(fs', dir, names) == Resolve(fs, dir, names)
    decreases |names|
  {
    if names != [] {
      ResolveStays(fs, fs', fs.entries[Slot(dir, names[0])], names[1..]);
    }
  }

  /** How much of its path a publisher has resolved: all of it once it looks at the destination. */
  function Resolved(p: Publisher): Option<nat> {
    match p.phase
    case CheckAncestry(_) => None
    case OpenRoot => None
    case OpenComponent(depth, _) => Some(depth)
    case MakeComponent(depth, _) => Some(depth)
    case Finished(_) => if p.bound then Some(|p.parents|) else None
    case _ => Some(|p.parents|)
  }

  /** The directory held open is the one the resolved part of the path names. */
  ghost predicate OnPath(fs: Fs, p: Publisher) {
    (Resolved(p).Some? && Resolved(p).value <= |p.parents|) ==>
      Resolve(fs, ROOT, p.parents[..Resolved(p).value]) == Some(p.dir)
  }

  lemma {:induction false} OpeningStaysOnPath(fs: Fs, p: Publisher, reply: Reply)
    requires PubInv(fs, p) && CanReply(fs, p, reply) && OnPath(fs, p) && p.phase.OpenComponent?
    ensures OnPath(fs, After(p, reply))
  {
    if reply.Opened? {
      var depth := p.phase.depth;
      assert p.parents[..depth + 1] == p.parents[..depth] + [p.parents[depth]];
      ResolveOneMore(fs, ROOT, p.parents[..depth], p.parents[depth]);
      assert p.parents[..|p.parents|] == p.parents;
    }
  }

  lemma {:induction false} CallStaysOnPath(s: State, who: nat, reply: Reply)
    requires Inv(s) && Enabled(s, Call(who, reply)) && OnPath(s.fs, s.pubs[who])
    ensures OnPath(s.fs, After(s.pubs[who], reply))
  {
    var p := s.pubs[who];
    assert PubInv(s.fs, p);
    if p.phase.OpenComponent? {
      OpeningStaysOnPath(s.fs, p, reply);
    }
  }

  ghost predicate EnvOnlyAdds(s: State, steps: seq<Step>)
    requires Inv(s) && Legal(s, steps)
    decreases |steps|
  {
    steps == []
    || (&& (steps[0].Env? ==> Extends(s.fs, steps[0].fs))
        && (StepKeepsInv(s, steps[0]); EnvOnlyAdds(Next(s, steps[0]), steps[1..])))
  }

  lemma {:induction false} AddingKeepsSlots(s: State, steps: seq<Step>, slot: Slot)
    requires Inv(s) && Legal(s, steps) && EnvOnlyAdds(s, steps)
    ensures EnvKeeps(s, steps, slot)
    decreases |steps|
  {
    if steps != [] {
      StepKeepsInv(s, steps[0]);
      AddingKeepsSlots(Next(s, steps[0]), steps[1..], slot);
    }
  }

  lemma {:induction false} RunStaysOnPath(s: State, steps: seq<Step>, who: nat)
    requires Inv(s) && Legal(s, steps) && EnvOnlyAdds(s, steps) && who < |s.pubs| && OnPath(s.fs, s.pubs[who])
    ensures OnPath(Run(s, steps).fs, Run(s, steps).pubs[who])
    decreases |steps|
  {
    if steps != [] {
      StepKeepsInv(s, steps[0]);
      var next := Next(s, steps[0]);
      if steps[0].Call? {
        CallOnlyAdds(s, steps[0].who, steps[0].reply);
        assert PubInv(s.fs, s.pubs[steps[0].who]);
        CallTouchesOwnInode(s.fs, s.pubs[steps[0].who], steps[0].reply);
        if steps[0].who == who { CallStaysOnPath(s, who, steps[0].reply); }
      }
      var p := next.pubs[who];
      if Resolved(p).Some? && Resolved(p).value <= |p.parents| {
        ResolveStays(s.fs, next.fs, ROOT, p.parents[..Resolved(p).value]);
      }
      RunStaysOnPath(next, steps[1..], who);
    }
  }

  /**
   No-replace for paths: when the environment only adds names, of all publishers to one path, at
   most one binds it, even if they race to create the directories on the way.
   */
  lemma {:induction false} OneWinnerPerPath(s: State, steps: seq<Step>, i: nat, j: nat)
    requires Initial(s) && Legal(s, steps) && EnvOnlyAdds(s, steps)
    requires i < |s.pubs| && j < |s.pubs| && i != j
    requires s.pubs[i].parents == s.pubs[j].parents && s.pubs[i].dest == s.pubs[j].dest
    ensures !(Run(s, steps).pubs[i].bound && Run(s, steps).pubs[j].bound)
  {
    var end := Run(s, steps);
    BoundForever(s, steps, i);
    BoundForever(s, steps, j);
    if end.pubs[i].bound && end.pubs[j].bound {
      RunStaysOnPath(s, steps, i);
      RunStaysOnPath(s, steps, j);
      AddingKeepsSlots(s, steps, Target(end.pubs[i]));
      OneWinnerPerName(s, steps, i, j);
    }
  }

  /** The regular file at a path, if following directories leads to one. */
  ghost function FileAt(fs: Fs, parents: seq<Name>, name: Name): Option<Inode> {
    var dir := Resolve(fs, ROOT, parents);
    if dir.Some? && Slot(dir.value, name) in fs.entries && fs.entries[Slot(dir.value, name)] in fs.inodes
    then Some(fs.inodes[fs.entries[Slot(dir.value, name)]])
    else None
  }

  /** When the environment only adds names, a publish that returns has put its saved data at its path. */
  lemma {:induction false} PublishedAtPath(s: State, steps: seq<Step>, who: nat)
    requires Initial(s) && Legal(s, steps) && EnvOnlyAdds(s, steps) && who < |s.pubs|
    requires var p := Run(s, steps).pubs[who]; p.phase.Finished? && p.phase.outcome.Returned?
    ensures FileAt(Run(s, steps).fs, s.pubs[who].parents, s.pubs[who].dest) == Some(Inode(Regular, s.pubs[who].data, s.pubs[who].data))
  {
    var end := Run(s, steps);
    var p := end.pubs[who];
    BoundForever(s, steps, who);
    StartsOnPath(s, who);
    RunStaysOnPath(s, steps, who);
    assert p.parents[..|p.parents|] == p.parents;
    AddingKeepsSlots(s, steps, Target(p));
    ReturnMeansPublished(s, steps, who);
  }

  lemma {:induction false} StartsOnPath(s: State, who: nat)
    requires Initial(s) && who < |s.pubs|
    ensures OnPath(s.fs, s.pubs[who])
  {
  }

  // ---------------------------------------------------------------- work

  /** How many more calls, not counting interrupted ones, a publisher can make. */
  function Work(p: Publisher): nat {
    var n := |p.data|;
    var tempWork := 64 + 65 * n + 3;
    var anonWork := 65 * n + 3 + tempWork;
    match p.phase
    case Finished(_) => 0
    case SyncDirectory(_) => 1
    case Linking(named) => if named then 2 else 1 + tempWork
    case Syncing(named) => if named then 3 else 2 + tempWork
    case Writing(named, w) =>
      (if named then 3 else 2 + tempWork)
      + (if w.total < n && w.zeroStreak <= 64 then 65 * (n - w.total) - w.zeroStreak else 0)
    case CreateTemp(attempts) => if attempts < 64 then 65 * n + 3 + (64 - attempts) else 0
    case OpenAnonymous => anonWork
    case StatDest => anonWork + 1
    case MakeComponent(depth, tries) =>
      anonWork + 1 + (if depth < |p.parents| && tries < 16 then 31 * (|p.parents| - depth) - 2 * tries - 1 else 0)
    case OpenComponent(depth, tries) =>
      anonWork + 1 + (if depth < |p.parents| && tries < 16 then 31 * (|p.parents| - depth) - 2 * tries else 0)
    case OpenRoot => anonWork + 2 + 31 * |p.parents|
    case CheckAncestry(seen) => anonWork + 2 + 31 * |p.parents| + if seen < Looks(p) then Looks(p) - seen else 0
  }

  predicate IsInterrupt(r: Reply) {
    r == Interrupt || r == Wrote(Interrupted)
  }

  lemma {:induction false} WritingDoesWork(fs: Fs, p: Publisher, reply: Reply)
    requires PubInv(fs, p) && CanReply(fs, p, reply) && p.phase.Writing?
    ensures Work(After(p, reply)) + (if IsInterrupt(reply) then 0 else 1) <= Work(p)
  {
  }

  lemma {:induction false} WalkingDoesWork(fs: Fs, p: Publisher, reply: Reply)
    requires PubInv(fs, p) && CanReply(fs, p, reply) && !p.phase.Writing?
    requires p.phase.CheckAncestry? || p.phase.OpenRoot? || p.phase.OpenComponent? || p.phase.MakeComponent? || p.phase.StatDest?
    ensures Work(After(p, reply)) + (if IsInterrupt(reply) then 0 else 1) <= Work(p)
  {
  }

  lemma {:induction false} LinkingDoesWork(fs: Fs, p: Publisher, reply: Reply)
    requires PubInv(fs, p) && CanReply(fs, p, reply)
    requires p.phase.OpenAnonymous? || p.phase.CreateTemp? || p.phase.Syncing? || p.phase.Linking? || p.phase.SyncDirectory?
    ensures Work(After(p, reply)) + (if IsInterrupt(reply) then 0 else 1) <= Work(p)
  {
  }

  lemma {:induction false} CallDoesWork(s: State, who: nat, reply: Reply)
    requires Inv(s) && Enabled(s, Call(who, reply))
    ensures Work(After(s.pubs[who], reply)) + (if IsInterrupt(reply) then 0 else 1) <= Work(s.pubs[who])
  {
    var p := s.pubs[who];
    assert PubInv(s.fs, p);
    if p.phase.Writing? { WritingDoesWork(s.fs, p, reply); }
    else if p.phase.OpenAnonymous? || p.phase.CreateTemp? || p.phase.Syncing? || p.phase.Linking? || p.phase.SyncDirectory? {
      LinkingDoesWork(s.fs, p, reply);
    } else {
      WalkingDoesWork(s.fs, p, reply);
    }
  }

  function CallsBy(steps: seq<Step>, who: nat): nat {
    if steps == [] then 0
    else (if steps[0].Call? && steps[0].who == who && !IsInterrupt(steps[0].reply) then 1 else 0) + CallsBy(steps[1..], who)
  }

  /** The steps of a list that are uninterrupted calls of `who`. */
  ghost function CallPlaces(steps: seq<Step>, who: nat): set<int> {
    set i | 0 <= i < |steps| && steps[i].Call? && steps[i].who == who && steps[i].reply != Interrupt && steps[i].reply != Wrote(Interrupted)
  }

  lemma {:induction false} CallsByLast(front: seq<Step>, last: Step, who: nat)
    ensures CallsBy(front + [last], who) == CallsBy(front, who) + CallsBy([last], who)
    decreases |front|
  {
    if front == [] {
      assert front + [last] == [last];
    } else {
      assert (front + [last])[1..] == front[1..] + [last];
      CallsByLast(front[1..], last, who);
    }
  }

  /** The calls are counted one by one. */
  lemma {:induction false} CallsByCounts(steps: seq<Step>, who: nat)
    ensures CallsBy(steps, who) == |CallPlaces(steps, who)|
    decreases |steps|
  {
    if steps != [] {
      var n := |steps| - 1;
      CallsByCounts(steps[..n], who);
      CallsByLast(steps[..n], steps[n], who);
      assert steps == steps[..n] + [steps[n]];
      assert n !in CallPlaces(steps[..n], who);
      assert CallPlaces(steps, who) == CallPlaces(steps[..n], who) + if CallsBy([steps[n]], who) == 1 then {n} else {};
    }
  }

  lemma {:induction false} WorkBoundsCalls(s: State, steps: seq<Step>, who: nat)
    requires Inv(s) && Legal(s, steps) && who < |s.pubs|
    ensures CallsBy(steps, who) + Work(Run(s, steps).pubs[who]) <= Work(s.pubs[who])
    decreases |steps|
  {
    if steps != [] {
      StepKeepsInv(s, steps[0]);
      if steps[0].Call? { CallDoesWork(s, steps[0].who, steps[0].reply); }
      WorkBoundsCalls(Next(s, steps[0]), steps[1..], who);
    }
  }

  /**
   Whatever the other processes and the kernel do, a publish of n bytes below k directories ends
   within 130 n + 32 k + 74 calls that are not interrupted: nobody can make it retry forever.
   */
  lemma {:induction false} PublishIsBounded(s: State, steps: seq<Step>, who: nat)
    requires Initial(s) && Legal(s, steps) && who < |s.pubs|
    ensures CallsBy(steps, who) <= 130 * |s.pubs[who].data| + 32 * |s.pubs[who].parents| + 74
  {
    WorkBoundsCalls(s, steps, who);
  }
}
