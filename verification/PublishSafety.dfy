/** What `publish_no_replace` promises, over every step and every run of the system in `Publish`. */
module PublishSafety {
  import opened Basics
  import opened WriteLoop
  import opened Publish

  // ---------------------------------------------------------------- one call

  ghost predicate Extends(fs: Fs, fs': Fs) {
    forall slot :: slot in fs.entries ==> slot in fs'.entries && fs'.entries[slot] == fs.entries[slot]
  }

  /** The three kinds of entry a publisher may add. */
  ghost predicate AddedBy(fs: Fs, p: Publisher, slot: Slot, fs': Fs) {
    && slot in fs'.entries && fs'.entries[slot] in fs'.inodes
    && var ino := fs'.entries[slot];
       || (p.phase.Linking? && slot == Target(p) && p.tmp == Some(ino) && fs'.inodes[ino] == Inode(Regular, p.data, p.data))
       || (p.phase.CreateTemp? && ino !in fs.inodes && fs'.inodes[ino] == EMPTY_FILE
           && exists token :: IsToken(token) && slot == Slot(p.dir, TempName(p.dest, token)))
       || (p.phase.MakeComponent? && p.phase.depth < |p.parents| && ino !in fs.inodes && fs'.inodes[ino] == EMPTY_DIRECTORY
           && slot == Slot(p.dir, p.parents[p.phase.depth]))
  }

  /**
   A publisher's call never rebinds or removes an entry. What it adds is its complete, fsynced file
   under the destination, its own new temporary file, or a new directory on its path.
   */
  lemma {:induction false} CallOnlyAdds(s: State, who: nat, reply: Reply)
    requires Inv(s) && Enabled(s, Call(who, reply))
    ensures var fs' := Next(s, Call(who, reply)).fs;
            && Extends(s.fs, fs')
            && forall slot :: slot in fs'.entries && slot !in s.fs.entries ==> AddedBy(s.fs, s.pubs[who], slot, fs')
  {
    assert PubInv(s.fs, s.pubs[who]);
  }

  // ---------------------------------------------------------------- runs

  ghost predicate Legal(s: State, steps: seq<Step>)
    requires Inv(s)
    decreases |steps|
  {
    steps == [] || (Enabled(s, steps[0]) && (StepKeepsInv(s, steps[0]); Legal(Next(s, steps[0]), steps[1..])))
  }

  ghost function Run(s: State, steps: seq<Step>): (s': State)
    requires Inv(s) && Legal(s, steps)
    ensures Inv(s') && |s'.pubs| == |s.pubs|
    decreases |steps|
  {
    if steps == [] then s else (StepKeepsInv(s, steps[0]); Run(Next(s, steps[0]), steps[1..]))
  }

  /** The step is a publisher's link of its file to `slot`. */
  ghost predicate Binds(s: State, step: Step, slot: Slot)
    requires Inv(s) && Enabled(s, step)
  {
    step.Call? && s.pubs[step.who].phase.Linking? && step.reply == Linked && Target(s.pubs[step.who]) == slot
  }

  /** The publishers that bind `slot`, in order. */
  ghost function Binders(s: State, steps: seq<Step>, slot: Slot): seq<nat>
    requires Inv(s) && Legal(s, steps)
    decreases |steps|
  {
    if steps == [] then []
    else
      StepKeepsInv(s, steps[0]);
      (if Binds(s, steps[0], slot) then [steps[0].who] else []) + Binders(Next(s, steps[0]), steps[1..], slot)
  }

  /** The environment neither unlinks nor renames what `slot` names. */
  ghost predicate EnvKeeps(s: State, steps: seq<Step>, slot: Slot)
    requires Inv(s) && Legal(s, steps)
    decreases |steps|
  {
    steps == []
    || (&& (steps[0].Env? && slot in s.fs.entries ==> slot in steps[0].fs.entries && steps[0].fs.entries[slot] == s.fs.entries[slot])
        && (StepKeepsInv(s, steps[0]); EnvKeeps(Next(s, steps[0]), steps[1..], slot)))
  }

  lemma {:induction false} SlotStays(s: State, steps: seq<Step>, slot: Slot)
    requires Inv(s) && Legal(s, steps) && EnvKeeps(s, steps, slot) && slot in s.fs.entries
    ensures slot in Run(s, steps).fs.entries && Run(s, steps).fs.entries[slot] == s.fs.entries[slot]
    ensures Binders(s, steps, slot) == []
    decreases |steps|
  {
    if steps != [] {
      StepKeepsInv(s, steps[0]);
      if steps[0].Call? { CallOnlyAdds(s, steps[0].who, steps[0].reply); }
      SlotStays(Next(s, steps[0]), steps[1..], slot);
    }
  }

  /** One call: what a publisher is about, and what it has bound, does not change. */
  lemma {:induction false} CallKeepsBound(fs: Fs, p: Publisher, reply: Reply)
    requires PubInv(fs, p) && CanReply(fs, p, reply)
    ensures var p' := After(p, reply);
            && p'.parents == p.parents && p'.dest == p.dest && p'.data == p.data
            && (p.bound ==> p'.bound && p'.tmp == p.tmp && p'.dir == p.dir)
  {
    hide After;
    hide CanReply;
    AfterKeepsAim(p, reply);
    if p.bound {
      BoundStays(p, reply);
    }
  }

  lemma {:induction false} BoundStays(p: Publisher, reply: Reply)
    requires p.phase.SyncDirectory? || p.phase.Finished?
    ensures After(p, reply).tmp == p.tmp && After(p, reply).dir == p.dir
  {
  }

  /** What a publisher is about, and what it has bound, never changes. */
  lemma {:induction false} BoundForever(s: State, steps: seq<Step>, who: nat)
    requires Inv(s) && Legal(s, steps) && who < |s.pubs|
    ensures var p, p' := s.pubs[who], Run(s, steps).pubs[who];
            && p'.parents == p.parents && p'.dest == p.dest && p'.data == p.data
            && (p.bound ==> p'.bound && p'.tmp == p.tmp && p'.dir == p.dir)
    decreases |steps|
  {
    if steps != [] {
      StepKeepsInv(s, steps[0]);
      if steps[0].Call? {
        assert PubInv(s.fs, s.pubs[steps[0].who]);
        CallKeepsBound(s.fs, s.pubs[steps[0].who], steps[0].reply);
      }
      var next := Next(s, steps[0]);
      assert |next.pubs| == |s.pubs|;
      BoundForever(next, steps[1..], who);
    }
  }

  /** The call that binds: the caller has bound its target, which now names the caller's file. */
  lemma {:induction false} BindingCall(s: State, step: Step, slot: Slot)
    requires Inv(s) && Enabled(s, step) && Binds(s, step, slot)
    ensures var next := Next(s, step);
            var p := next.pubs[step.who];
            p.bound && Target(p) == slot && p.tmp.Some? && slot in next.fs.entries && next.fs.entries[slot] == p.tmp.value
  {
    assert PubInv(s.fs, s.pubs[step.who]);
  }

  /** `who` has bound `slot`, which names its complete and fsynced data. */
  ghost predicate WonBy(s: State, slot: Slot, who: nat) {
    && who < |s.pubs|
    && var p := s.pubs[who];
       && p.bound && Target(p) == slot && p.tmp.Some?
       && slot in s.fs.entries && s.fs.entries[slot] == p.tmp.value
       && p.tmp.value in s.fs.inodes && s.fs.inodes[p.tmp.value] == Inode(Regular, p.data, p.data)
  }

  /** In every state, a publisher that has bound the name it is still under has won it. */
  lemma {:induction false} BoundIsComplete(s: State, slot: Slot, who: nat)
    requires Inv(s) && who < |s.pubs| && s.pubs[who].bound && Target(s.pubs[who]) == slot
    requires slot in s.fs.entries && Some(s.fs.entries[slot]) == s.pubs[who].tmp
    ensures WonBy(s, slot, who)
  {
    assert PubInv(s.fs, s.pubs[who]);
  }

  lemma {:induction false} WinnerStays(s: State, steps: seq<Step>, slot: Slot, who: nat)
    requires Inv(s) && Legal(s, steps) && EnvKeeps(s, steps, slot) && WonBy(s, slot, who)
    ensures WonBy(Run(s, steps), slot, who)
  {
    SlotStays(s, steps, slot);
    BoundForever(s, steps, who);
    BoundIsComplete(Run(s, steps), slot, who);
  }

  /** The binding call decides the rest of the run. */
  lemma {:induction false} BindingDecides(s: State, steps: seq<Step>, slot: Slot)
    requires Inv(s) && Legal(s, steps) && EnvKeeps(s, steps, slot)
    requires steps != [] && Binds(s, steps[0], slot)
    ensures Binders(s, steps, slot) == [steps[0].who] && WonBy(Run(s, steps), slot, steps[0].who)
  {
    StepKeepsInv(s, steps[0]);
    BindingCall(s, steps[0], slot);
    var next := Next(s, steps[0]);
    BoundIsComplete(next, slot, steps[0].who);
    SlotStays(next, steps[1..], slot);
    WinnerStays(next, steps[1..], slot, steps[0].who);
  }

  /**
   While the environment keeps `slot`, at most one publisher ever binds it, none does if it was
   taken before, and the winner's complete and fsynced data stays under that name.
   */
  lemma {:induction false} AtMostOneBinder(s: State, steps: seq<Step>, slot: Slot)
    requires Inv(s) && Legal(s, steps) && EnvKeeps(s, steps, slot)
    ensures |Binders(s, steps, slot)| <= 1
    ensures slot in s.fs.entries ==> Binders(s, steps, slot) == []
    ensures Binders(s, steps, slot) != [] ==> WonBy(Run(s, steps), slot, Binders(s, steps, slot)[0])
    decreases |steps|
  {
    if slot in s.fs.entries {
      SlotStays(s, steps, slot);
    } else if steps != [] {
      if Binds(s, steps[0], slot) {
        BindingDecides(s, steps, slot);
      } else {
        StepKeepsInv(s, steps[0]);
        var rest := Binders(Next(s, steps[0]), steps[1..], slot);
        assert Binders(s, steps, slot) == [] + rest == rest;
        AtMostOneBinder(Next(s, steps[0]), steps[1..], slot);
      }
    }
  }

  /** A publisher counts as having bound its destination exactly when one of its links succeeded. */
  lemma {:induction false} BoundMeansLinked(s: State, steps: seq<Step>, who: nat)
    requires Inv(s) && Legal(s, steps) && who < |s.pubs|
    ensures var p' := Run(s, steps).pubs[who];
            p'.bound <==> s.pubs[who].bound || who in Binders(s, steps, Target(p'))
    decreases |steps|
  {
    if steps != [] {
      StepKeepsInv(s, steps[0]);
      var next := Next(s, steps[0]);
      BoundMeansLinked(next, steps[1..], who);
      BoundForever(next, steps[1..], who);
      if steps[0].Call? && steps[0].who == who {
        StepTowardsBinding(s, who, steps[0].reply);
      }
    }
  }

  /** The only step after which a publisher has newly bound its destination is its link. */
  lemma {:induction false} StepTowardsBinding(s: State, who: nat, reply: Reply)
    requires Inv(s) && Enabled(s, Call(who, reply))
    ensures var p, p' := s.pubs[who], After(s.pubs[who], reply);
            p'.bound <==> p.bound || (p.phase.Linking? && reply == Linked)
  {
    hide After;
    hide CanReply;
    assert PubInv(s.fs, s.pubs[who]);
    AfterKeepsAim(s.pubs[who], reply);
  }

  // ---------------------------------------------------------------- outcomes

  /**
   A publisher that returns has bound its destination and, unless the environment has moved that
   name, the name holds exactly the data.
   */
  lemma {:induction false} ReturnMeansPublished(s: State, steps: seq<Step>, who: nat)
    requires Initial(s) && Legal(s, steps) && who < |s.pubs|
    requires var p := Run(s, steps).pubs[who]; p.phase.Finished? && p.phase.outcome.Returned?
    ensures who in Binders(s, steps, Target(Run(s, steps).pubs[who]))
    ensures var end := Run(s, steps);
            var slot := Target(end.pubs[who]);
            EnvKeeps(s, steps, slot) ==>
              && slot in end.fs.entries && end.fs.entries[slot] in end.fs.inodes
              && end.fs.inodes[end.fs.entries[slot]] == Inode(Regular, s.pubs[who].data, s.pubs[who].data)
  {
    StartsUnbound(s, steps, who);
    BoundMeansLinked(s, steps, who);
    hide Initial;
    hide Inv;
    hide Legal;
    hide Run;
    hide Binders;
    hide EnvKeeps;
    var slot := Target(Run(s, steps).pubs[who]);
    if EnvKeeps(s, steps, slot) {
      AtMostOneBinder(s, steps, slot);
      BoundForever(s, steps, who);
    }
  }

  lemma {:induction false} OneElement(s: seq<nat>, i: nat, j: nat)
    requires |s| <= 1 && i in s && j in s
    ensures i == j
  {
  }

  lemma {:induction false} StartsUnbound(s: State, steps: seq<Step>, who: nat)
    requires Initial(s) && Legal(s, steps) && who < |s.pubs|
    ensures !s.pubs[who].bound
    ensures var p := Run(s, steps).pubs[who]; p.phase.Finished? && p.phase.outcome.Returned? ==> p.bound
  {
    assert PubInv(Run(s, steps).fs, Run(s, steps).pubs[who]);
  }

  /** Two publishers never both bind one name that the environment keeps. */
  lemma {:induction false} OneWinnerPerName(s: State, steps: seq<Step>, i: nat, j: nat)
    requires Initial(s) && Legal(s, steps) && i < |s.pubs| && j < |s.pubs| && i != j
    requires Target(Run(s, steps).pubs[i]) == Target(Run(s, steps).pubs[j])
    requires EnvKeeps(s, steps, Target(Run(s, steps).pubs[i]))
    ensures !(Run(s, steps).pubs[i].bound && Run(s, steps).pubs[j].bound)
  {
    hide *;
    var slot := Target(Run(s, steps).pubs[i]);
    AtMostOneBinder(s, steps, slot);
    if Run(s, steps).pubs[i].bound && Run(s, steps).pubs[j].bound {
      StartsUnbound(s, steps, i);
      BoundMeansLinked(s, steps, i);
      StartsUnbound(s, steps, j);
      BoundMeansLinked(s, steps, j);
      OneElement(Binders(s, steps, slot), i, j);
    }
  }

  /**
   What a finished publisher has told. A return means that the destination is bound. An error means
   that it is not, unless it is FSYNC_FAILED without a leftover name: the fsyncs of the file and of the
   directory raise the same code. A reported name is the true one, and a name goes unreported exactly
   when the directory fsync fails after a named temporary file was linked.
   */
  lemma {:induction false} LeftoverReport(s: State, who: nat)
    requires Inv(s) && who < |s.pubs| && s.pubs[who].phase.Finished?
    ensures var p := s.pubs[who];
            match p.phase.outcome
            case Returned(leftover) => p.bound && leftover == p.tempName
            case Raised(code, leftover) =>
              && (code != FsyncFailed || leftover.Some? ==> !p.bound)
              && (leftover == p.tempName <==> !(p.bound && p.tempName.Some?))
            case OsError => !p.bound && p.tempName == None
  {
    assert PubInv(s.fs, s.pubs[who]);
  }

  /** A descriptor is left open exactly with the error that a path component could not be created. */
  lemma {:induction false} DescriptorBalance(s: State, who: nat)
    requires Inv(s) && who < |s.pubs| && s.pubs[who].phase.Finished?
    ensures s.pubs[who].fds == 0 <==> !(s.pubs[who].phase.outcome.Raised? && s.pubs[who].phase.outcome.code == DirCreateFailed)
  {
    assert PubInv(s.fs, s.pubs[who]);
  }

  /** A temporary name is a dot, the destination's name, a dot and the token, so it is not the destination and tells both. */
  lemma {:induction false} TempNameTells(dest: Name, token: string, other: Name)
    requires IsToken(token)
    ensures var name, n := TempName(dest, token), |dest|;
            && |name| == n + 26 && name != dest && name[0] == '.' && name[1..n + 1] == dest && name[n + 1] == '.' && name[n + 2..] == token
    ensures forall t :: IsToken(t) && TempName(other, t) == TempName(dest, token) ==> other == dest && t == token
  {
    var name := TempName(dest, token);
    assert name == ['.'] + dest + ['.'] + token;
    forall t | IsToken(t) && TempName(other, t) == name ensures other == dest && t == token {
      assert name == ['.'] + other + ['.'] + t;
      assert |other| == |dest|;
      assert name[1..|other| + 1] == other && name[|other| + 2..] == t;
    }
  }
}
