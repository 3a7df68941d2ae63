/**
 `publish_no_replace` as the structured program it is: nested functions, retry loops, exceptions and
 closing blocks. Each system call must be the one that the step machine of `Publish` makes next, and
 the program ends exactly as the machine does, so what is proved of the machine holds of the program.
 */
module PublishProgram {
  import opened Basics
  import opened WriteLoop
  import opened Publish
  import opened PublishSafety

  // ---------------------------------------------------------------- system calls

  datatype SysCall =
    | LookAt(ancestor: nat)
    | OpenRootDir
    | OpenDir(name: Name)
    | MakeDir(name: Name)
    | StatName(name: Name)
    | OpenUnnamed
    | CreateNamed
    | WriteFrom(offset: nat)
    | FsyncFile
    | LinkTo(name: Name)
    | FsyncDir
    | Nothing

  /** The system call a publisher of the machine makes next. */
  function NextCall(p: Publisher): SysCall {
    match p.phase
    case CheckAncestry(seen) => LookAt(seen)
    case OpenRoot => OpenRootDir
    case OpenComponent(depth, _) => if depth < |p.parents| then OpenDir(p.parents[depth]) else Nothing
    case MakeComponent(depth, _) => if depth < |p.parents| then MakeDir(p.parents[depth]) else Nothing
    case StatDest => StatName(p.dest)
    case OpenAnonymous => OpenUnnamed
    case CreateTemp(_) => CreateNamed
    case Writing(_, w) => WriteFrom(w.total)
    case Syncing(_) => FsyncFile
    case Linking(_) => LinkTo(p.dest)
    case SyncDirectory(_) => FsyncDir
    case Finished(_) => Nothing
  }

  /** A call does what it says with the name it is given: look one up, make a directory or link the file there. */
  lemma {:induction false} NamesAct(fs: Fs, p: Publisher, r: Reply)
    requires PubInv(fs, p) && CanReply(fs, p, r) && !p.phase.Writing? && !p.phase.Syncing?
    ensures match NextCall(p)
            case OpenDir(name) => Effect(fs, p, r) == fs && (r.Opened? ==> Slot(p.dir, name) in fs.entries && fs.entries[Slot(p.dir, name)] == r.ino)
            case MakeDir(name) => r.MadeDirectory? ==> Effect(fs, p, r).entries == fs.entries[Slot(p.dir, name) := r.made]
            case StatName(name) => Effect(fs, p, r) == fs && (r == NotFound ==> Slot(p.dir, name) !in fs.entries)
            case LinkTo(name) => r == Linked ==> p.tmp.Some? && Effect(fs, p, r).entries == fs.entries[Slot(p.dir, name) := p.tmp.value]
            case _ => true
  {
  }

  /** A write appends the accepted bytes from its offset on, and an fsync saves the file. */
  lemma {:induction false} FileCallsAct(fs: Fs, p: Publisher, r: Reply)
    requires PubInv(fs, p) && CanReply(fs, p, r) && (p.phase.Writing? || p.phase.Syncing?)
    ensures p.tmp.Some? && p.tmp.value in fs.inodes
    ensures match NextCall(p)
            case WriteFrom(offset) =>
              && r.Wrote? && offset < |p.data| && fs.inodes[p.tmp.value].content == p.data[..offset]
              && var n := if r.reply.Accepted? then Min(r.reply.count, |p.data| - offset) else 0;
                 Effect(fs, p, r) == WithFile(fs, p.tmp.value, fs.inodes[p.tmp.value].(content := p.data[..offset + n]))
            case FsyncFile =>
              r == Synced ==> Effect(fs, p, r) == WithFile(fs, p.tmp.value, fs.inodes[p.tmp.value].(durable := fs.inodes[p.tmp.value].content))
            case _ => false
  {
    if p.phase.Writing? && r.Wrote? {
      var w := p.phase.progress;
      var n := if r.reply.Accepted? then Min(r.reply.count, |p.data| - w.total) else 0;
      assert p.data[..w.total + n] == p.data[..w.total] + p.data[w.total..w.total + n];
    }
  }

  /** The machine's publisher after a list of replies. */
  ghost function Follow(p: Publisher, replies: seq<Reply>): (p': Publisher)
    requires Ready(p)
    ensures Ready(p') && p'.parents == p.parents && p'.dest == p.dest && p'.data == p.data
  {
    if replies == [] then p
    else
      hide After;
      var before, reply := Follow(p, replies[..|replies| - 1]), replies[|replies| - 1];
      AfterKeepsAim(before, reply);
      After(before, reply)
  }

  /** The replies that `who` gets in a run. */
  function RepliesTo(steps: seq<Step>, who: nat): seq<Reply> {
    if steps == [] then []
    else (if steps[0].Call? && steps[0].who == who then [steps[0].reply] else []) + RepliesTo(steps[1..], who)
  }

  lemma {:induction false} FollowFirst(p: Publisher, r: Reply, rest: seq<Reply>)
    requires Ready(p) && Ready(After(p, r))
    ensures Follow(p, [r] + rest) == Follow(After(p, r), rest)
    decreases |rest|
  {
    hide After;
    var all := [r] + rest;
    if rest == [] {
      assert all == [r] && all[..0] == [];
      assert Follow(p, all[..0]) == p;
    } else {
      var front := rest[..|rest| - 1];
      assert all[..|all| - 1] == [r] + front;
      FollowFirst(p, r, front);
    }
  }

  /** In every run, every publisher is where its own replies have taken it. */
  lemma {:induction false} RunFollows(s: State, steps: seq<Step>, who: nat)
    requires Inv(s) && Legal(s, steps) && who < |s.pubs|
    ensures Ready(s.pubs[who]) && Run(s, steps).pubs[who] == Follow(s.pubs[who], RepliesTo(steps, who))
    decreases |steps|
  {
    hide After;
    assert PubInv(s.fs, s.pubs[who]);
    if steps != [] {
      StepKeepsInv(s, steps[0]);
      var next := Next(s, steps[0]);
      RunFollows(next, steps[1..], who);
      if steps[0].Call? && steps[0].who == who {
        FollowFirst(s.pubs[who], steps[0].reply, RepliesTo(steps[1..], who));
      } else {
        assert [] + RepliesTo(steps[1..], who) == RepliesTo(steps[1..], who);
      }
    }
  }

  // ---------------------------------------------------------------- the program

  /** Exceptions: `PublishError` with its leftover name, a symlinked path, any other OSError. */
  datatype Exception = PublishError(code: Code, leftover: Option<Name>) | SymlinkError | OtherError

  /** A call of the program returns, raises, or is still waiting for the kernel when the replies end. */
  datatype Ended<T> = Value(value: T) | Threw(exception: Exception) | Pending

  function Raises(e: Exception): Outcome {
    match e
    case PublishError(code, leftover) => Raised(code, leftover)
    case SymlinkError => Raised(SymlinkAncestry, None)
    case OtherError => OsError
  }

  class Process {
    const parents: seq<Name>
    const dest: Name
    const data: seq<byte>
    const replies: seq<Reply>
    var used: nat
    var fds: nat
    var closes: nat
    ghost const start: Publisher
    ghost var machine: Publisher

    constructor (parents: seq<Name>, dest: Name, data: seq<byte>, replies: seq<Reply>)
      ensures Valid() && fds == closes == used == 0 && this.replies == replies
      ensures machine == start == Publisher(parents, dest, data, CheckAncestry(0), start.dir, None, None, 0, false)
    {
      this.parents, this.dest, this.data, this.replies := parents, dest, data, replies;
      used, fds, closes := 0, 0, 0;
      start := Publisher(parents, dest, data, CheckAncestry(0), ROOT, None, None, 0, false);
      machine := Publisher(parents, dest, data, CheckAncestry(0), ROOT, None, None, 0, false);
    }

    /** The machine has made the same calls and got the same replies. */
    ghost predicate Valid()
      reads this
    {
      && Ready(start) && used <= |replies| && machine == Follow(start, replies[..used])
      && machine.parents == parents && machine.dest == dest && machine.data == data
    }

    method Ask(call: SysCall) returns (r: Option<Reply>)
      requires Valid() && call != Nothing && call == NextCall(machine)
      modifies this`used, this`machine
      ensures Valid()
      ensures r.None? ==> used == |replies| && machine == old(machine)
      ensures r.Some? ==> used == old(used) + 1 && r.value == replies[old(used)] && machine == After(old(machine), r.value)
    {
      if used == |replies| {
        return None;
      }
      assert replies[..used + 1][..used] == replies[..used];
      r := Some(replies[used]);
      machine := After(machine, replies[used]);
      used := used + 1;
    }

    method Close()
      modifies this`fds, this`closes
      ensures fds == old(fds) - Min(1, old(fds)) && closes == old(closes) + 1
    {
      closes := closes + 1;
      if fds > 0 {
        fds := fds - 1;
      }
    }

    /** An exception raised while a temporary file is open: the machine has closed everything. */
    ghost predicate Aborted(e: Exception, named: bool)
      reads this
    {
      && e.PublishError? && e.leftover == None && machine.fds == 0
      && machine.phase == Finished(Raised(e.code, if named then machine.tempName else None))
    }

    method WriteAll(named: bool) returns (r: Ended<()>)
      requires Valid() && machine.phase == StartWriting(machine, named) && machine.fds == 2
      modifies this`used, this`machine
      ensures Valid() && machine.tempName == old(machine.tempName)
      ensures r.Value? ==> machine.phase == Syncing(named) && machine.fds == 2
      ensures r.Threw? ==> Aborted(r.exception, named) && r.exception.code != AtomicPrimitiveUnavailable
      ensures r.Pending? ==> used == |replies| && !machine.phase.Finished?
    {
      hide Follow;
      var total: nat, zeroStreak: nat := 0, 0;
      while total < |data|
        invariant Valid() && total <= |data| && zeroStreak <= MAX_ZERO_WRITE_RETRIES
        invariant machine.phase == if total < |data| then Writing(named, Progress(total, zeroStreak, Unfinished)) else Syncing(named)
        invariant machine.tempName == old(machine.tempName) && machine.fds == old(machine.fds)
        decreases |replies| - used
      {
        var reply := Ask(WriteFrom(total));
        if reply.None? {
          return Pending;
        }
        if reply.value == Wrote(Failed) {
          return Threw(PublishError(WriteError, None));
        }
        if reply.value.Wrote? && reply.value.reply.Accepted? {
          var n := Min(reply.value.reply.count, |data| - total);
          if n == 0 {
            zeroStreak := zeroStreak + 1;
            if zeroStreak > MAX_ZERO_WRITE_RETRIES {
              return Threw(PublishError(ZeroWriteError, None));
            }
            continue;
          }
          zeroStreak := 0;
          total := total + n;
        }
      }
      return Value(());
    }

    method FsyncFileOrRaise(named: bool) returns (r: Ended<()>)
      requires Valid() && machine.phase == Syncing(named) && machine.fds == 2
      modifies this`used, this`machine
      ensures Valid() && machine.tempName == old(machine.tempName)
      ensures r.Value? ==> machine.phase == Linking(named) && machine.fds == 2
      ensures r.Threw? ==> Aborted(r.exception, named) && r.exception.code != AtomicPrimitiveUnavailable
      ensures r.Pending? ==> used == |replies| && !machine.phase.Finished?
    {
      hide Follow;
      while true
        invariant Valid() && machine.phase == Syncing(named)
        invariant machine.tempName == old(machine.tempName) && machine.fds == old(machine.fds)
        decreases |replies| - used
      {
        var reply := Ask(FsyncFile);
        if reply.None? {
          return Pending;
        }
        if reply.value == Synced {
          return Value(());
        }
        if reply.value != Interrupt {
          return Threw(PublishError(FsyncFailed, None));
        }
      }
    }

    method FsyncDirOrRaise(named: bool) returns (r: Ended<()>)
      requires Valid() && machine.phase == SyncDirectory(named) && machine.fds == 1
      modifies this`used, this`machine
      ensures Valid() && machine.tempName == old(machine.tempName)
      ensures r.Value? ==> machine.phase == Finished(Returned(if named then machine.tempName else None))
      ensures r.Threw? ==> r.exception == PublishError(FsyncFailed, None) && machine.phase == Finished(Raises(r.exception))
      ensures !r.Pending? ==> machine.fds == 0
      ensures r.Pending? ==> used == |replies| && !machine.phase.Finished?
    {
      hide Follow;
      while true
        invariant Valid() && machine.phase == SyncDirectory(named)
        invariant machine.tempName == old(machine.tempName) && machine.fds == old(machine.fds)
        decreases |replies| - used
      {
        var reply := Ask(FsyncDir);
        if reply.None? {
          return Pending;
        }
        if reply.value == Synced {
          return Value(());
        }
        if reply.value != Interrupt {
          return Threw(PublishError(FsyncFailed, None));
        }
      }
    }

    /** Link the open file. Without a link from a descriptor there is no safe way to publish. */
    method PublishFromFd(named: bool) returns (r: Ended<()>)
      requires Valid() && machine.phase == Linking(named) && machine.fds == 2
      modifies this`used, this`machine
      ensures Valid() && machine.tempName == old(machine.tempName)
      ensures r.Value? ==> machine.phase == SyncDirectory(named) && machine.fds == 1
      ensures r.Threw? ==>
                if !named && r.exception == PublishError(AtomicPrimitiveUnavailable, None)
                then machine.phase == CreateTemp(0) && machine.fds == 1
                else Aborted(r.exception, named)
      ensures r.Pending? || used == old(used) + 1
      ensures r.Value? ==> replies[old(used)] == Linked
      ensures r.Threw? ==>
                && replies[old(used)] != Linked
                && r.exception == PublishError(if replies[old(used)] == Exists then NoReplaceViolation
                                               else if replies[old(used)] == Unsupported then AtomicPrimitiveUnavailable
                                               else LinkFailed, None)
      ensures r.Pending? ==> used == |replies| && !machine.phase.Finished?
    {
      hide Follow;
      var reply := Ask(LinkTo(dest));
      if reply.None? {
        return Pending;
      }
      if reply.value == Linked {
        return Value(());
      }
      if reply.value == Exists {
        return Threw(PublishError(NoReplaceViolation, None));
      }
      if reply.value != Unsupported {
        return Threw(PublishError(LinkFailed, None));
      }
      return Threw(PublishError(AtomicPrimitiveUnavailable, None));
    }

    /** Write, fsync and link: the body of the `try` around an open temporary file. */
    method Deliver(named: bool) returns (r: Ended<()>)
      requires Valid() && machine.phase == StartWriting(machine, named) && machine.fds == 2
      modifies this`used, this`machine
      ensures Valid() && machine.tempName == old(machine.tempName)
      ensures r.Value? ==> machine.phase == SyncDirectory(named) && machine.fds == 1
      ensures r.Threw? ==>
                if !named && r.exception == PublishError(AtomicPrimitiveUnavailable, None)
                then machine.phase == CreateTemp(0) && machine.fds == 1
                else Aborted(r.exception, named)
      ensures r.Pending? ==> used == |replies| && !machine.phase.Finished?
    {
      r := WriteAll(named);
      if !r.Value? {
        return;
      }
      r := FsyncFileOrRaise(named);
      if !r.Value? {
        return;
      }
      r := PublishFromFd(named);
    }

    method MkstempInDir() returns (r: Ended<Name>)
      requires Valid() && machine.phase == CreateTemp(0) && fds == machine.fds == 1 && machine.tempName == None
      modifies this`used, this`fds, this`machine
      ensures Valid()
      ensures r.Value? ==> machine.phase == StartWriting(machine, true) && machine.tempName == Some(r.value) && fds == machine.fds == 2
      ensures r.Threw? ==> machine.phase == Finished(Raises(r.exception)) && machine.fds == 0 && fds == 1
      ensures r.Pending? ==> used == |replies| && !machine.phase.Finished?
    {
      hide Follow;
      for attempt := 0 to MAX_TEMP_ATTEMPTS
        invariant Valid() && fds == 1 && machine.tempName == None
        invariant if attempt < MAX_TEMP_ATTEMPTS then machine.phase == CreateTemp(attempt) && machine.fds == 1
                  else machine.phase == Finished(Raised(TmpCreateFailed, None)) && machine.fds == 0
      {
        var reply := Ask(CreateNamed);
        if reply.None? {
          return Pending;
        }
        if reply.value.MadeTemp? {
          fds := fds + 1;
          return Value(TempName(dest, reply.value.token));
        }
        if reply.value != Exists {
          return Threw(OtherError);
        }
      }
      return Threw(PublishError(TmpCreateFailed, None));
    }

    /** The fallback. The temporary name is never removed, and every PublishError in the `try` reports it. */
    method PublishViaNamedTemp() returns (r: Ended<Option<Name>>)
      requires Valid() && machine.phase == CreateTemp(0) && fds == machine.fds == 1 && machine.tempName == None
      modifies this`used, this`fds, this`closes, this`machine
      ensures Valid() && closes <= old(closes) + 1
      ensures r.Value? ==> machine.phase == Finished(Returned(r.value)) && machine.fds == 0 && fds == 1
      ensures r.Threw? ==> machine.phase == Finished(Raises(r.exception)) && machine.fds == 0 && fds == 1
      ensures r.Pending? ==> used == |replies| && !machine.phase.Finished?
    {
      var made := MkstempInDir();
      match made {
        case Pending => return Pending;
        case Threw(e) => return Threw(e);
        case Value(_) =>
      }
      var tmpName := made.value;
      var delivered := Deliver(true);
      match delivered {
        case Pending => return Pending;
        case Threw(e) =>
          Close();
          return Threw(PublishError(e.code, Some(tmpName)));
        case Value(_) =>
      }
      Close();
      var synced := FsyncDirOrRaise(true);
      match synced {
        case Pending => return Pending;
        case Threw(e) => return Threw(e);
        case Value(_) => return Value(Some(tmpName));
      }
    }

    method OpenTmpfile() returns (r: Ended<bool>)
      requires Valid() && machine.phase == OpenAnonymous && fds == machine.fds == 1
      modifies this`used, this`fds, this`machine
      ensures Valid() && machine.tempName == old(machine.tempName)
      ensures r == Value(true) ==> machine.phase == StartWriting(machine, false) && fds == machine.fds == 2
      ensures r == Value(false) ==> machine.phase == CreateTemp(0) && fds == machine.fds == 1
      ensures r.Threw? ==> machine.phase == Finished(Raises(r.exception)) && machine.fds == 0 && fds == 1
      ensures r.Pending? ==> used == |replies| && !machine.phase.Finished?
    {
      hide Follow;
      var reply := Ask(OpenUnnamed);
      if reply.None? {
        return Pending;
      }
      if reply.value.MadeAnonymous? {
        fds := fds + 1;
        return Value(true);
      }
      if reply.value == Unsupported {
        return Value(false);
      }
      return Threw(OtherError);
    }

    /** Deliver the unnamed file. False: it cannot be linked here, and the fallback is needed. */
    method PublishUnnamed() returns (r: Ended<bool>)
      requires Valid() && machine.phase == StartWriting(machine, false) && fds == machine.fds == 2 && machine.tempName == None
      modifies this`used, this`fds, this`closes, this`machine
      ensures Valid() && machine.tempName == None && closes <= old(closes) + 1
      ensures r == Value(true) ==> machine.phase == Finished(Returned(None)) && machine.fds == 0 && fds == 1
      ensures r == Value(false) ==> machine.phase == CreateTemp(0) && fds == machine.fds == 1
      ensures r.Threw? ==> machine.phase == Finished(Raises(r.exception)) && machine.fds == 0 && fds == 1
      ensures r.Pending? ==> used == |replies| && !machine.phase.Finished?
    {
      hide After;
      hide Follow;
      var delivered := Deliver(false);
      if delivered.Pending? {
        return Pending;
      }
      Close();
      if delivered.Threw? {
        if delivered.exception.code == AtomicPrimitiveUnavailable {
          return Value(false);
        }
        return Threw(delivered.exception);
      }
      var synced := FsyncDirOrRaise(false);
      match synced {
        case Pending => return Pending;
        case Threw(e) => return Threw(e);
        case Value(_) => return Value(true);
      }
    }

    /** The destination itself must not be a symlink. */
    method RefuseSymlink() returns (r: Ended<()>)
      requires Valid() && machine.phase == StatDest && machine.fds == 1 && machine.tempName == None
      modifies this`used, this`machine
      ensures Valid() && machine.tempName == None
      ensures r.Value? ==> machine.phase == OpenAnonymous && machine.fds == 1
      ensures r.Threw? ==> machine.phase == Finished(Raises(r.exception)) && machine.fds == 0
      ensures r.Pending? ==> used == |replies| && !machine.phase.Finished?
    {
      hide Follow;
      var reply := Ask(StatName(dest));
      if reply.None? {
        return Pending;
      }
      if reply.value == IsSymlink {
        return Threw(PublishError(SymlinkAncestry, None));
      }
      if reply.value != NotFound && reply.value != NotASymlink {
        return Threw(OtherError);
      }
      return Value(());
    }

    method PublishWithinPinnedDir() returns (r: Ended<Option<Name>>)
      requires Valid() && machine.phase == StatDest && fds == machine.fds == 1 && machine.tempName == None
      modifies this`used, this`fds, this`closes, this`machine
      ensures Valid() && closes <= old(closes) + 2
      ensures r.Value? ==> machine.phase == Finished(Returned(r.value)) && machine.fds == 0 && fds == 1
      ensures r.Threw? ==> machine.phase == Finished(Raises(r.exception)) && machine.fds == 0 && fds == 1
      ensures r.Pending? ==> used == |replies| && !machine.phase.Finished?
    {
      hide After;
      hide Follow;
      var looked := RefuseSymlink();
      match looked {
        case Pending => return Pending;
        case Threw(e) => return Threw(e);
        case Value(_) =>
      }
      var unnamed := OpenTmpfile();
      match unnamed {
        case Pending => return Pending;
        case Threw(e) => return Threw(e);
        case Value(_) =>
      }
      if unnamed.value {
        var published := PublishUnnamed();
        match published {
          case Pending => return Pending;
          case Threw(e) => return Threw(e);
          case Value(done) =>
            if done {
              return Value(None);
            }
        }
      }
      r := PublishViaNamedTemp();
    }

    /** Look at the destination and then at each of its ancestors, as far as the source goes. */
    method RequireNoSymlinkAncestry() returns (r: Ended<()>)
      requires Valid() && machine.phase == CheckAncestry(0) && machine.fds == 0 && machine.tempName == None
      modifies this`used, this`machine
      ensures Valid() && machine.fds == 0 && machine.tempName == None
      ensures r.Value? ==> machine.phase == OpenRoot
      ensures r.Threw? ==> r.exception in {SymlinkError, OtherError} && machine.phase == Finished(Raises(r.exception))
      ensures r.Pending? ==> used == |replies| && !machine.phase.Finished?
    {
      hide Follow;
      r := LookAtOne(0);
      if !r.Value? {
        return;
      }
      for node := 0 to Min(MAX_ANCESTORS, |parents| + 1)
        invariant Valid() && machine.fds == 0 && machine.tempName == None && r.Value?
        invariant machine.phase == if node + 1 < Looks(machine) then CheckAncestry(node + 1) else OpenRoot
      {
        r := LookAtOne(node + 1);
        if !r.Value? {
          return;
        }
      }
    }

    method LookAtOne(ancestor: nat) returns (r: Ended<()>)
      requires Valid() && machine.phase == CheckAncestry(ancestor) && machine.fds == 0 && machine.tempName == None
      modifies this`used, this`machine
      ensures Valid() && machine.fds == 0 && machine.tempName == None
      ensures r.Value? ==> machine.phase == if ancestor + 1 < Looks(machine) then CheckAncestry(ancestor + 1) else OpenRoot
      ensures r.Threw? ==> r.exception in {SymlinkError, OtherError} && machine.phase == Finished(Raises(r.exception))
      ensures r.Pending? ==> used == |replies| && !machine.phase.Finished?
    {
      hide Follow;
      var reply := Ask(LookAt(ancestor));
      if reply.None? {
        return Pending;
      }
      if reply.value == IsSymlink {
        return Threw(SymlinkError);
      }
      if reply.value != Clean {
        return Threw(OtherError);
      }
      return Value(());
    }

    /** Open a component below the pinned directory, creating it if it is missing. */
    method OpenOrCreateDirComponent(depth: nat) returns (r: Ended<()>)
      requires Valid() && depth < |parents| && machine.phase == OpenComponent(depth, 0) && fds == machine.fds == 1
      modifies this`used, this`fds, this`machine
      ensures Valid() && machine.tempName == old(machine.tempName)
      ensures r.Value? ==> machine.phase == NextComponent(machine, depth + 1) && machine.fds == 1 && fds == 2
      ensures r.Threw? ==> machine.phase == Finished(Raises(r.exception)) && fds == 1
      ensures r.Threw? ==> machine.fds == if r.exception == PublishError(DirCreateFailed, None) then 1 else 0
      ensures r.Threw? && r.exception.PublishError? ==> r.exception == PublishError(DirCreateFailed, None)
      ensures r.Pending? ==> used == |replies| && !machine.phase.Finished?
    {
      hide Follow;
      for attempt := 0 to MAX_DIR_CREATE_RETRIES
        invariant Valid() && fds == machine.fds == 1 && machine.tempName == old(machine.tempName)
        invariant machine.phase == if attempt < MAX_DIR_CREATE_RETRIES then OpenComponent(depth, attempt)
                                   else Finished(Raised(DirCreateFailed, None))
      {
        var reply := Ask(OpenDir(parents[depth]));
        if reply.None? {
          return Pending;
        }
        if reply.value.Opened? {
          fds := fds + 1;
          return Value(());
        }
        if reply.value == NotADirectory {
          return Threw(SymlinkError);
        }
        if reply.value != NotFound {
          return Threw(OtherError);
        }
        var made := Ask(MakeDir(parents[depth]));
        if made.None? {
          return Pending;
        }
        if made.value == NotADirectory {
          return Threw(SymlinkError);
        }
        if made.value == Errno {
          return Threw(OtherError);
        }
      }
      return Threw(PublishError(DirCreateFailed, None));
    }

    /** Walk down the path. A PublishError leaves the loop without closing the directory. */
    method OpenDirChain() returns (r: Ended<()>)
      requires Valid() && machine.phase == OpenRoot && fds == machine.fds == 0 && machine.tempName == None
      modifies this`used, this`fds, this`closes, this`machine
      ensures Valid() && machine.tempName == None && closes <= old(closes) + |parents|
      ensures r.Value? ==> machine.phase == StatDest && fds == machine.fds == 1
      ensures r.Threw? ==> machine.phase == Finished(Raises(r.exception)) && fds == machine.fds
      ensures r.Pending? ==> used == |replies| && !machine.phase.Finished?
    {
      hide Follow;
      var root := Ask(OpenRootDir);
      if root.None? {
        return Pending;
      }
      if !root.value.Opened? {
        return Threw(OtherError);
      }
      fds := fds + 1;
      for depth := 0 to |parents|
        invariant Valid() && machine.phase == NextComponent(machine, depth) && fds == machine.fds == 1 && machine.tempName == None
        invariant closes == old(closes) + depth
      {
        r := OpenOrCreateDirComponent(depth);
        match r {
          case Pending => return;
          case Threw(e) =>
            if !e.PublishError? {
              Close();
            }
            return;
          case Value(_) => Close();
        }
      }
      return Value(());
    }

    /**
     The whole program. It ends as the machine's publisher does: with the same outcome and the same
     number of open descriptors, or with both waiting. Below k directories it closes at most k + 3 times.
     */
    method PublishNoReplace() returns (r: Ended<Option<Name>>)
      requires Valid() && machine == start && Fresh(machine) && used == fds == 0
      modifies this`used, this`fds, this`closes, this`machine
      ensures closes <= old(closes) + |parents| + 3
      ensures used <= |replies| && machine == Follow(start, replies[..used])
      ensures r.Value? ==> machine.phase == Finished(Returned(r.value)) && fds == machine.fds
      ensures r.Threw? ==> machine.phase == Finished(Raises(r.exception)) && fds == machine.fds
      ensures r.Pending? ==> used == |replies| && !machine.phase.Finished?
    {
      hide Follow;
      var checked := RequireNoSymlinkAncestry();
      match checked {
        case Pending => return Pending;
        case Threw(SymlinkError) => return Threw(PublishError(SymlinkAncestry, None));
        case Threw(e) => return Threw(e);
        case Value(_) =>
      }
      var pinned := OpenDirChain();
      match pinned {
        case Pending => return Pending;
        case Threw(SymlinkError) => return Threw(PublishError(SymlinkAncestry, None));
        case Threw(e) => return Threw(e);
        case Value(_) =>
      }
      r := PublishWithinPinnedDir();
      if !r.Pending? {
        Close();
      }
    }
  }
}
