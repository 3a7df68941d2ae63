/**
 The no-replace publish protocol, one system call at a time.

 Any number of publishers run `publish_no_replace` against one file system. Between any two of their
 system calls the environment may create, rename, unlink and link names at will and may write into
 every file except those a publisher created. A step is either one publisher's system call with the
 kernel's reply to it, or one such change by the environment.
 */
module Publish {
  import opened Basics
  import opened WriteLoop

  // ---------------------------------------------------------------- file system

  type Ino = nat
  type Name = string

  datatype Kind = Regular | Directory | Symlink | Special

  /** `durable` is what the last successful fsync of the inode saved. */
  datatype Inode = Inode(kind: Kind, content: seq<byte>, durable: seq<byte>)

  /** A name inside a directory inode: directories are pinned by identity, never by path. */
  datatype Slot = Slot(dir: Ino, name: Name)

  datatype Fs = Fs(inodes: map<Ino, Inode>, entries: map<Slot, Ino>)

  const ROOT: Ino := 0

  ghost predicate ValidFs(fs: Fs) {
    && ROOT in fs.inodes && fs.inodes[ROOT].kind == Directory
    && forall s :: s in fs.entries ==> fs.entries[s] in fs.inodes
  }

  // ---------------------------------------------------------------- publisher

  const MAX_ANCESTORS: nat := 256
  const MAX_DIR_CREATE_RETRIES: nat := 16
  const MAX_TEMP_ATTEMPTS: nat := 64

  datatype Code =
    | SymlinkAncestry
    | DirCreateFailed
    | WriteError
    | ZeroWriteError
    | FsyncFailed
    | NoReplaceViolation
    | LinkFailed
    | AtomicPrimitiveUnavailable
    | TmpCreateFailed

  /** A return value, a PublishError with the leftover name it reports, or any other OSError. */
  datatype Outcome = Returned(leftover: Option<Name>) | Raised(code: Code, leftover: Option<Name>) | OsError

  /** The system call a publisher makes next. `named` tells the named-temp fallback from O_TMPFILE. */
  datatype Phase =
    | CheckAncestry(seen: nat)
    | OpenRoot
    | OpenComponent(depth: nat, tries: nat)
    | MakeComponent(depth: nat, tries: nat)
    | StatDest
    | OpenAnonymous
    | CreateTemp(attempts: nat)
    | Writing(named: bool, progress: Progress)
    | Syncing(named: bool)
    | Linking(named: bool)
    | SyncDirectory(named: bool)
    | Finished(outcome: Outcome)

  /**
   `dir` is the directory the publisher holds open, `tmp` the inode of the temporary file it last
   created, `tempName` the entry it created for a named one, `fds` its open descriptors, `bound`
   whether its link has succeeded.
   */
  datatype Publisher = Publisher(
    parents: seq<Name>, dest: Name, data: seq<byte>,
    phase: Phase, dir: Ino, tmp: Option<Ino>, tempName: Option<Name>, fds: nat, bound: bool)

  function Target(p: Publisher): Slot {
    Slot(p.dir, p.dest)
  }

  datatype Reply =
    | Clean
    | IsSymlink
    | Opened(ino: Ino)
    | NotFound
    | NotADirectory
    | Exists
    | MadeDirectory(made: Ino)
    | NotASymlink
    | MadeAnonymous(made: Ino)
    | MadeTemp(made: Ino, token: string)
    | Unsupported
    | Wrote(reply: WriteReply)
    | Synced
    | Interrupt
    | Linked
    | Errno

  predicate IsToken(t: string) {
    |t| == 24 && forall i :: 0 <= i < |t| ==> '0' <= t[i] <= '9' || 'a' <= t[i] <= 'f'
  }

  function TempName(dest: Name, token: string): Name {
    "." + dest + "." + token
  }

  /** Which replies the kernel can give. Any call may also fail with an unrelated errno. */
  ghost predicate CanReply(fs: Fs, p: Publisher, r: Reply) {
    match p.phase
    case CheckAncestry(_) => r in {Clean, IsSymlink, Errno}
    case OpenRoot => r in {Opened(ROOT), Errno}
    case OpenComponent(depth, _) =>
      && depth < |p.parents|
      && var slot := Slot(p.dir, p.parents[depth]);
         (match r
         case Opened(ino) => slot in fs.entries && fs.entries[slot] == ino && ino in fs.inodes && fs.inodes[ino].kind == Directory
         case NotFound => slot !in fs.entries
         case NotADirectory => slot in fs.entries && fs.entries[slot] in fs.inodes && fs.inodes[fs.entries[slot]].kind != Directory
         case Errno => true
         case _ => false)
    case MakeComponent(depth, _) =>
      && depth < |p.parents|
      && var slot := Slot(p.dir, p.parents[depth]);
         (match r
         case MadeDirectory(ino) => slot !in fs.entries && ino !in fs.inodes
         case Exists => slot in fs.entries
         case NotADirectory => true
         case Errno => true
         case _ => false)
    case StatDest =>
      (match r
       case NotFound => Target(p) !in fs.entries
       case IsSymlink => Target(p) in fs.entries && fs.entries[Target(p)] in fs.inodes && fs.inodes[fs.entries[Target(p)]].kind == Symlink
       case NotASymlink => Target(p) in fs.entries && fs.entries[Target(p)] in fs.inodes && fs.inodes[fs.entries[Target(p)]].kind != Symlink
       case Errno => true
       case _ => false)
    case OpenAnonymous =>
      (match r
       case MadeAnonymous(ino) => ino !in fs.inodes
       case Unsupported => true
       case Errno => true
       case _ => false)
    case CreateTemp(_) =>
      (match r
       case MadeTemp(ino, token) => ino !in fs.inodes && IsToken(token) && Slot(p.dir, TempName(p.dest, token)) !in fs.entries
       case Exists => exists token :: IsToken(token) && Slot(p.dir, TempName(p.dest, token)) in fs.entries
       case Errno => true
       case _ => false)
    case Writing(_, _) => r.Wrote?
    case Syncing(_) => r in {Synced, Interrupt, Errno}
    case Linking(_) =>
      (match r
       case Linked => Target(p) !in fs.entries
       case Exists => Target(p) in fs.entries
       case Unsupported => true
       case Errno => true
       case _ => false)
    case SyncDirectory(_) => r in {Synced, Interrupt, Errno}
    case Finished(_) => false
  }

  // ---------------------------------------------------------------- the publisher's code

  function Enter(p: Publisher, phase: Phase): Publisher {
    p.(phase := phase)
  }

  /** Leave with `outcome` after closing `closed` descriptors. */
  function Leave(p: Publisher, closed: nat, outcome: Outcome): Publisher {
    p.(phase := Finished(outcome), fds := if closed <= p.fds then p.fds - closed else 0)
  }

  /** Raise inside the writing part: both the temporary file and the directory are closed. */
  function Abort(p: Publisher, named: bool, code: Code): Publisher {
    Leave(p, 2, Raised(code, if named then p.tempName else None))
  }

  /** The component loop is done when no component is left. */
  function NextComponent(p: Publisher, depth: nat): Phase {
    if depth < |p.parents| then OpenComponent(depth, 0) else StatDest
  }

  function StartWriting(p: Publisher, named: bool): Phase {
    AfterWrite(named, Start(|p.data|))
  }

  function AfterWrite(named: bool, w: Progress): Phase {
    if w.end == Written then Syncing(named) else Writing(named, w)
  }

  function WithFile(fs: Fs, ino: Ino, inode: Inode): Fs {
    fs.(inodes := fs.inodes[ino := inode])
  }

  function WithEntry(fs: Fs, slot: Slot, ino: Ino): Fs {
    fs.(entries := fs.entries[slot := ino])
  }

  const EMPTY_FILE: Inode := Inode(Regular, [], [])
  const EMPTY_DIRECTORY: Inode := Inode(Directory, [], [])

  /** How many paths the ancestry check looks at: the destination and its ancestors up to the root. */
  function Looks(p: Publisher): nat {
    1 + Min(MAX_ANCESTORS, |p.parents| + 1)
  }

  function AfterCheckAncestry(p: Publisher, seen: nat, r: Reply): Publisher {
    match r
    case Clean => Enter(p, if seen + 1 < Looks(p) then CheckAncestry(seen + 1) else OpenRoot)
    case IsSymlink => Leave(p, 0, Raised(SymlinkAncestry, None))
    case _ => Leave(p, 0, OsError)
  }

  function AfterOpenRoot(p: Publisher, r: Reply): Publisher {
    match r
    case Opened(ino) => Enter(p, NextComponent(p, 0)).(dir := ino, fds := p.fds + 1)
    case _ => Leave(p, 0, OsError)
  }

  function AfterOpenComponent(p: Publisher, depth: nat, tries: nat, r: Reply): Publisher {
    match r
    case Opened(ino) => Enter(p, NextComponent(p, depth + 1)).(dir := ino)
    case NotFound => Enter(p, MakeComponent(depth, tries))
    case NotADirectory => Leave(p, 1, Raised(SymlinkAncestry, None))
    case _ => Leave(p, 1, OsError)
  }

  function AfterMakeComponent(p: Publisher, depth: nat, tries: nat, r: Reply): Publisher {
    match r
    case Errno => Leave(p, 1, OsError)
    case NotADirectory => Leave(p, 1, Raised(SymlinkAncestry, None))
    case _ =>
      if tries + 1 < MAX_DIR_CREATE_RETRIES then Enter(p, OpenComponent(depth, tries + 1))
      else Leave(p, 0, Raised(DirCreateFailed, None))
  }

  function AfterStatDest(p: Publisher, r: Reply): Publisher {
    match r
    case NotFound => Enter(p, OpenAnonymous)
    case NotASymlink => Enter(p, OpenAnonymous)
    case IsSymlink => Leave(p, 1, Raised(SymlinkAncestry, None))
    case _ => Leave(p, 1, OsError)
  }

  function AfterOpenAnonymous(p: Publisher, r: Reply): Publisher {
    match r
    case MadeAnonymous(ino) => Enter(p, StartWriting(p, false)).(tmp := Some(ino), fds := p.fds + 1)
    case Unsupported => Enter(p, CreateTemp(0))
    case _ => Leave(p, 1, OsError)
  }

  function AfterCreateTemp(p: Publisher, attempts: nat, r: Reply): Publisher {
    match r
    case MadeTemp(ino, token) =>
      Enter(p, StartWriting(p, true)).(tmp := Some(ino), tempName := Some(TempName(p.dest, token)), fds := p.fds + 1)
    case Exists =>
      if attempts + 1 < MAX_TEMP_ATTEMPTS then Enter(p, CreateTemp(attempts + 1))
      else Leave(p, 1, Raised(TmpCreateFailed, None))
    case _ => Leave(p, 1, OsError)
  }

  function AfterWriting(p: Publisher, named: bool, w: Progress, r: Reply): Publisher
    requires w.total < |p.data|
  {
    match r
    case Wrote(reply) =>
      var w' := WriteStep(|p.data|, w, reply);
      if w'.end == WriteFailed then Abort(p, named, WriteError)
      else if w'.end == ZeroWrite then Abort(p, named, ZeroWriteError)
      else Enter(p, AfterWrite(named, w'))
    case _ => p
  }

  function AfterSyncing(p: Publisher, named: bool, r: Reply): Publisher {
    match r
    case Synced => Enter(p, Linking(named))
    case Interrupt => p
    case _ => Abort(p, named, FsyncFailed)
  }

  function AfterLinking(p: Publisher, named: bool, r: Reply): Publisher {
    match r
    case Linked => Enter(p, SyncDirectory(named)).(fds := p.fds - Min(1, p.fds), bound := true)
    case Exists => Abort(p, named, NoReplaceViolation)
    case Unsupported =>
      if named then Abort(p, named, AtomicPrimitiveUnavailable)
      else Enter(p, CreateTemp(0)).(fds := p.fds - Min(1, p.fds))
    case _ => Abort(p, named, LinkFailed)
  }

  function AfterSyncDirectory(p: Publisher, named: bool, r: Reply): Publisher {
    match r
    case Synced => Leave(p, 1, Returned(if named then p.tempName else None))
    case Interrupt => p
    case _ => Leave(p, 1, Raised(FsyncFailed, None))
  }

  /** The publisher's local state after a reply. */
  function After(p: Publisher, r: Reply): Publisher
    requires p.phase.Writing? ==> p.phase.progress.total < |p.data|
  {
    match p.phase
    case CheckAncestry(seen) => AfterCheckAncestry(p, seen, r)
    case OpenRoot => AfterOpenRoot(p, r)
    case OpenComponent(depth, tries) => AfterOpenComponent(p, depth, tries, r)
    case MakeComponent(depth, tries) => AfterMakeComponent(p, depth, tries, r)
    case StatDest => AfterStatDest(p, r)
    case OpenAnonymous => AfterOpenAnonymous(p, r)
    case CreateTemp(attempts) => AfterCreateTemp(p, attempts, r)
    case Writing(named, w) => AfterWriting(p, named, w, r)
    case Syncing(named) => AfterSyncing(p, named, r)
    case Linking(named) => AfterLinking(p, named, r)
    case SyncDirectory(named) => AfterSyncDirectory(p, named, r)
    case Finished(_) => p
  }

  predicate Walking(phase: Phase) {
    phase.CheckAncestry? || phase.OpenRoot? || phase.OpenComponent? || phase.MakeComponent? || phase.StatDest? || phase.OpenAnonymous?
  }

  ghost predicate Ready(p: Publisher) {
    p.phase.Writing? ==> p.phase.progress.total < |p.data|
  }

  /** Both publish the same data to the same place. */
  predicate SameAim(p: Publisher, q: Publisher) {
    p.parents == q.parents && p.dest == q.dest && p.data == q.data
  }

  lemma {:induction false} WalkKeepsAim(p: Publisher, r: Reply)
    requires Walking(p.phase)
    ensures SameAim(After(p, r), p) && Ready(After(p, r)) && After(p, r).bound == p.bound
  {
    hide AfterCreateTemp;
    hide AfterWriting;
    hide AfterSyncing;
    hide AfterLinking;
    hide AfterSyncDirectory;
  }

  lemma {:induction false} WriteKeepsAim(p: Publisher, r: Reply)
    requires Ready(p) && (p.phase.Writing? || p.phase.CreateTemp?)
    ensures SameAim(After(p, r), p) && Ready(After(p, r)) && After(p, r).bound == p.bound
  {
    if p.phase.CreateTemp? { assert After(p, r) == AfterCreateTemp(p, p.phase.attempts, r); }
  }

  lemma {:induction false} DeliveryKeepsAim(p: Publisher, r: Reply)
    requires !p.phase.Writing? && !p.phase.CreateTemp? && !Walking(p.phase)
    ensures SameAim(After(p, r), p) && Ready(After(p, r))
    ensures After(p, r).bound <==> p.bound || (p.phase.Linking? && r == Linked)
  {
    hide AfterCheckAncestry;
    hide AfterOpenRoot;
    hide AfterOpenComponent;
    hide AfterMakeComponent;
    hide AfterStatDest;
    hide AfterOpenAnonymous;
    hide AfterCreateTemp;
    hide AfterWriting;
  }

  /** A reply never changes what a publisher is about, and only a link makes it bound. */
  lemma {:induction false} AfterKeepsAim(p: Publisher, r: Reply)
    requires Ready(p)
    ensures SameAim(After(p, r), p) && Ready(After(p, r))
    ensures After(p, r).bound <==> p.bound || (p.phase.Linking? && r == Linked)
  {
    hide After;
    if Walking(p.phase) { WalkKeepsAim(p, r); }
    else if p.phase.Writing? || p.phase.CreateTemp? { WriteKeepsAim(p, r); }
    else { DeliveryKeepsAim(p, r); }
  }

  /** What the call does to the file system. */
  ghost function Effect(fs: Fs, p: Publisher, r: Reply): Fs
    requires CanReply(fs, p, r)
    requires p.phase.Writing? ==> p.phase.progress.total < |p.data|
    requires p.phase.Writing? || p.phase.Syncing? || p.phase.Linking? ==> p.tmp.Some? && p.tmp.value in fs.inodes
  {
    match p.phase
    case MakeComponent(depth, _) =>
      if r.MadeDirectory?
      then WithEntry(WithFile(fs, r.made, EMPTY_DIRECTORY), Slot(p.dir, p.parents[depth]), r.made)
      else fs
    case OpenAnonymous =>
      if r.MadeAnonymous? then WithFile(fs, r.made, EMPTY_FILE) else fs
    case CreateTemp(_) =>
      if r.MadeTemp?
      then WithEntry(WithFile(fs, r.made, EMPTY_FILE), Slot(p.dir, TempName(p.dest, r.token)), r.made)
      else fs
    case Writing(_, w) =>
      var file := fs.inodes[p.tmp.value];
      var accepted := p.data[w.total..WriteStep(|p.data|, w, r.reply).total];
      WithFile(fs, p.tmp.value, file.(content := file.content + accepted))
    case Syncing(_) =>
      var file := fs.inodes[p.tmp.value];
      if r == Synced then WithFile(fs, p.tmp.value, file.(durable := file.content)) else fs
    case Linking(_) =>
      if r == Linked then WithEntry(fs, Target(p), p.tmp.value) else fs
    case _ => fs
  }

  // ---------------------------------------------------------------- the whole system

  datatype State = State(fs: Fs, pubs: seq<Publisher>)

  datatype Step = Call(who: nat, reply: Reply) | Env(fs: Fs)

  ghost predicate Owned(pubs: seq<Publisher>, ino: Ino) {
    exists i :: 0 <= i < |pubs| && pubs[i].tmp == Some(ino)
  }

  /** The environment rearranges names freely; inodes keep their kind, and publishers' files their bytes. */
  ghost predicate EnvMay(s: State, fs: Fs) {
    && ValidFs(fs)
    && (forall i :: i in s.fs.inodes ==> i in fs.inodes && fs.inodes[i].kind == s.fs.inodes[i].kind)
    && (forall i :: i in s.fs.inodes && Owned(s.pubs, i) ==> fs.inodes[i] == s.fs.inodes[i])
  }

  ghost predicate Enabled(s: State, step: Step)
    requires Inv(s)
  {
    match step
    case Call(who, reply) => who < |s.pubs| && CanReply(s.fs, s.pubs[who], reply)
    case Env(fs) => EnvMay(s, fs)
  }

  ghost function Next(s: State, step: Step): State
    requires Inv(s) && Enabled(s, step)
  {
    match step
    case Call(who, reply) =>
      var p := s.pubs[who];
      assert PubInv(s.fs, p);
      State(Effect(s.fs, p, reply), s.pubs[who := After(p, reply)])
    case Env(fs) => State(fs, s.pubs)
  }

  // ---------------------------------------------------------------- invariant

  ghost predicate TmpIs(fs: Fs, p: Publisher, content: seq<byte>) {
    && p.tmp.Some? && p.tmp.value in fs.inodes
    && fs.inodes[p.tmp.value].kind == Regular && fs.inodes[p.tmp.value].content == content
  }

  /** The publisher's file holds exactly the data, and fsync has saved it. */
  ghost predicate Complete(fs: Fs, p: Publisher) {
    TmpIs(fs, p, p.data) && fs.inodes[p.tmp.value].durable == p.data
  }

  ghost predicate PubInv(fs: Fs, p: Publisher) {
    && (p.tmp.Some? ==> p.tmp.value in fs.inodes)
    && (p.bound ==> p.phase.SyncDirectory? || p.phase.Finished?)
    && (match p.phase
        case CheckAncestry(seen) => p.fds == 0 && p.tempName == None && seen < Looks(p)
        case OpenRoot => p.fds == 0 && p.tempName == None
        case OpenComponent(depth, tries) => p.fds == 1 && p.tempName == None && depth < |p.parents| && tries < MAX_DIR_CREATE_RETRIES
        case MakeComponent(depth, tries) => p.fds == 1 && p.tempName == None && depth < |p.parents| && tries < MAX_DIR_CREATE_RETRIES
        case StatDest => p.fds == 1 && p.tempName == None
        case OpenAnonymous => p.fds == 1 && p.tempName == None
        case CreateTemp(attempts) => p.fds == 1 && p.tempName == None && attempts < MAX_TEMP_ATTEMPTS
        case Writing(named, w) =>
          && p.fds == 2 && named == p.tempName.Some? && InLoop(|p.data|, w)
          && TmpIs(fs, p, p.data[..w.total])
        case Syncing(named) => p.fds == 2 && named == p.tempName.Some? && TmpIs(fs, p, p.data)
        case Linking(named) => p.fds == 2 && named == p.tempName.Some? && Complete(fs, p)
        case SyncDirectory(named) => p.bound && p.fds == 1 && named == p.tempName.Some? && Complete(fs, p)
        case Finished(outcome) =>
          && (p.bound ==> Complete(fs, p) && (outcome.Returned? || (outcome.Raised? && outcome.code == FsyncFailed)))
          && (p.fds == if outcome.Raised? && outcome.code == DirCreateFailed then 1 else 0)
          && (outcome.Returned? ==> p.bound && outcome.leftover == p.tempName)
          && (outcome.Raised? ==> outcome.leftover == if p.bound then None else p.tempName)
          && (outcome.OsError? ==> p.tempName == None))
  }

  ghost predicate Inv(s: State) {
    && ValidFs(s.fs)
    && (forall i :: 0 <= i < |s.pubs| ==> PubInv(s.fs, s.pubs[i]))
    && (forall i, j :: 0 <= i < j < |s.pubs| && s.pubs[i].tmp.Some? ==> s.pubs[i].tmp != s.pubs[j].tmp)
  }

  predicate Fresh(p: Publisher) {
    p.phase == CheckAncestry(0) && p.tmp == None && p.tempName == None && p.fds == 0 && !p.bound
  }

  ghost predicate Initial(s: State): (initial: bool)
    ensures initial ==> Inv(s)
  {
    ValidFs(s.fs) && forall i :: 0 <= i < |s.pubs| ==> Fresh(s.pubs[i])
  }

  /** A publisher's invariant survives every change that keeps its file. */
  lemma {:induction false} PubFrame(fs: Fs, fs': Fs, p: Publisher)
    requires PubInv(fs, p)
    requires p.tmp.Some? ==> p.tmp.value in fs'.inodes && fs'.inodes[p.tmp.value] == fs.inodes[p.tmp.value]
    ensures PubInv(fs', p)
  {
  }

  /** Calls that change the publisher only. */
  lemma {:induction false} WalkKeepsOwn(fs: Fs, p: Publisher, r: Reply)
    requires ValidFs(fs) && PubInv(fs, p) && CanReply(fs, p, r)
    requires p.phase.CheckAncestry? || p.phase.OpenRoot? || p.phase.OpenComponent? || p.phase.StatDest? || p.phase.SyncDirectory?
    ensures Effect(fs, p, r) == fs && PubInv(fs, After(p, r))
  {
  }

  lemma {:induction false} MakeKeepsOwn(fs: Fs, p: Publisher, r: Reply)
    requires ValidFs(fs) && PubInv(fs, p) && CanReply(fs, p, r)
    requires p.phase.MakeComponent?
    ensures ValidFs(Effect(fs, p, r)) && PubInv(Effect(fs, p, r), After(p, r))
  {
  }

  lemma {:induction false} CreateKeepsOwn(fs: Fs, p: Publisher, r: Reply)
    requires ValidFs(fs) && PubInv(fs, p) && CanReply(fs, p, r)
    requires p.phase.OpenAnonymous? || p.phase.CreateTemp?
    ensures ValidFs(Effect(fs, p, r)) && PubInv(Effect(fs, p, r), After(p, r))
  {
    assert p.data[..0] == [];
  }

  lemma {:induction false} WriteKeepsOwn(fs: Fs, p: Publisher, r: Reply)
    requires ValidFs(fs) && PubInv(fs, p) && CanReply(fs, p, r)
    requires p.phase.Writing?
    ensures ValidFs(Effect(fs, p, r)) && PubInv(Effect(fs, p, r), After(p, r))
  {
    var w := p.phase.progress;
    var w' := WriteStep(|p.data|, w, r.reply);
    assert p.data[..w'.total] == p.data[..w.total] + p.data[w.total..w'.total];
    assert p.data[..|p.data|] == p.data;
  }

  lemma {:induction false} FinishKeepsOwn(fs: Fs, p: Publisher, r: Reply)
    requires ValidFs(fs) && PubInv(fs, p) && CanReply(fs, p, r)
    requires p.phase.Syncing? || p.phase.Linking?
    ensures ValidFs(Effect(fs, p, r)) && PubInv(Effect(fs, p, r), After(p, r))
  {
  }

  /** The acting publisher's own invariant. */
  lemma {:induction false} CallKeepsOwn(fs: Fs, p: Publisher, r: Reply)
    requires ValidFs(fs) && PubInv(fs, p) && CanReply(fs, p, r)
    ensures ValidFs(Effect(fs, p, r)) && PubInv(Effect(fs, p, r), After(p, r))
  {
    match p.phase
    case MakeComponent(_, _) => MakeKeepsOwn(fs, p, r);
    case OpenAnonymous => CreateKeepsOwn(fs, p, r);
    case CreateTemp(_) => CreateKeepsOwn(fs, p, r);
    case Writing(_, _) => WriteKeepsOwn(fs, p, r);
    case Syncing(_) => FinishKeepsOwn(fs, p, r);
    case Linking(_) => FinishKeepsOwn(fs, p, r);
    case _ => WalkKeepsOwn(fs, p, r);
  }

  /** A call leaves every inode alone except the caller's file. */
  lemma {:induction false} CallTouchesOwnInode(fs: Fs, p: Publisher, r: Reply)
    requires PubInv(fs, p) && CanReply(fs, p, r)
    ensures var fs' := Effect(fs, p, r);
            forall i :: i in fs.inodes ==> i in fs'.inodes && fs'.inodes[i].kind == fs.inodes[i].kind
                                           && (p.tmp != Some(i) ==> fs'.inodes[i] == fs.inodes[i])
  {
  }

  /** A publisher only ever moves on to a file that did not exist before. */
  lemma {:induction false} NewFileIsFresh(fs: Fs, p: Publisher, r: Reply)
    requires PubInv(fs, p) && CanReply(fs, p, r)
    ensures After(p, r).tmp != p.tmp ==> After(p, r).tmp.Some? && After(p, r).tmp.value !in fs.inodes
  {
  }

  /** Every step of every publisher and of the environment keeps the invariant. */
  lemma {:induction false} StepKeepsInv(s: State, step: Step)
    requires Inv(s) && Enabled(s, step)
    ensures Inv(Next(s, step))
  {
    match step
    case Call(who, reply) =>
      var p := s.pubs[who];
      CallKeepsOwn(s.fs, p, reply);
      CallTouchesOwnInode(s.fs, p, reply);
      NewFileIsFresh(s.fs, p, reply);
      forall i | 0 <= i < |s.pubs| && i != who ensures PubInv(Next(s, step).fs, s.pubs[i]) {
        PubFrame(s.fs, Next(s, step).fs, s.pubs[i]);
      }
    case Env(fs) =>
      forall i | 0 <= i < |s.pubs| ensures PubInv(fs, s.pubs[i]) {
        if s.pubs[i].tmp.Some? { assert Owned(s.pubs, s.pubs[i].tmp.value); }
        PubFrame(s.fs, fs, s.pubs[i]);
      }
  }
}
