/** The append-only file across background rewrites: rewriteAppendOnlyFileBackground(),
    openNewIncrAofForAppend(), backgroundRewriteDoneHandler(), startAppendOnly() and stopAppendOnly(),
    cut into the steps between which the process can crash, and the start that follows a crash:
    aofLoadManifestFromDisk(), loadAppendOnlyFiles(), aofOpenIfNeededOnServerStart() and aofDelHistoryFiles().

    The disk maps file names to contents and holds the manifest last persisted. A dataset is any type with
    an operation that applies a command; a log is the sequence of its commands. */
module AofProtocol {
  import opened CString
  import opened AofManifest

  datatype Content<D, C> = Snapshot(d: D) | Log(cs: seq<C>)

  datatype AofState = Off | On | WaitRewrite

  /** The rewrite child: the dataset it was forked with, and whether its temporary file is complete. */
  datatype Child<D> = Child(snapshot: D, saved: bool)

  /** Where the main thread is inside the functions that change files. */
  datatype Phase =
    | Idle
    | Opened(am: Manifest)        // the new INCR file exists, the manifest is not persisted yet
    | ReadyToFork
    | BaseRenamed(am: Manifest)   // the child's file has its BASE name
    | IncrRenamed(am: Manifest)   // so has the temporary INCR file, if there is one
    | Deleting                    // the new manifest is persisted, history is being unlinked
    | Loaded                      // a new process has loaded the manifest and the files it lists
    | BaseMade(am: Manifest)      // a BASE file is there, if need be a new one
    | Booted(am: Manifest)        // the last INCR file is open, the manifest may still have to be persisted
    | Down                        // exit(1)

  datatype State<D, C> = State(
    aof: AofState,
    data: D,
    mem: Manifest,                    // server.aof_manifest
    persisted: Manifest,              // the manifest file
    disk: map<string, Content<D, C>>,
    buf: seq<C>,                      // aof_buf
    fd: Option<string>,               // the name of the file behind aof_fd
    child: Option<Child<D>>,
    phase: Phase)

  /** The server's settings. */
  datatype Config = Config(aofName: string, rdb: bool, disableGc: bool)

  /** How persistAofManifest() ends: its last action after the rename can still fail. */
  datatype Persist = Stored | NotStored | StoredButReported

  datatype Step<D, C> =
    | Command(c: C)
    | Flush(n: nat)                              // how much of the buffer reaches the file
    | StartAppendOnly
    | AbandonStart                               // startAppendOnly() could not begin a rewrite
    | StopAppendOnly(stored: bool)               // whether the manifest with the end offset reached the disk
    | OpenIncr(ok: bool, startOffset: int)       // after the forced flush
    | PersistIncr(result: Persist)
    | Fork(ok: bool)
    | ChildSaves
    | ChildFails
    | RenameBase(ok: bool)
    | RenameIncr(ok: bool, startOffset: int)
    | PersistRewrite(result: Persist)
    | DeleteOne
    | Finish(stored: bool)
    | Restart(on: bool, torn: bool, rdb: D)      // a crash, at any point, and the load of a new process
    | BootBase
    | BootIncr(startOffset: int)
    | BootPersist(result: Persist)

  function Apply<D, C>(apply: (D, C) -> D, d: D, cs: seq<C>): D {
    if cs == [] then d else apply(Apply(apply, d, cs[..|cs| - 1]), cs[|cs| - 1])
  }

  lemma {:induction false} ApplyAppend<D, C>(apply: (D, C) -> D, d: D, a: seq<C>, b: seq<C>)
    ensures Apply(apply, d, a + b) == Apply(apply, Apply(apply, d, a), b)
    decreases |b|
  {
    if b == [] {
      assert a + b == a;
    } else {
      var n := |b| - 1;
      assert (a + b)[..|a| + n] == a + b[..n];
      ApplyAppend(apply, d, a, b[..n]);
    }
  }

  // ----- what is on disk -----

  /** Every BASE and INCR file the manifest lists is there and of the right kind. */
  predicate AllPresent<D, C>(am: Manifest, disk: map<string, Content<D, C>>) {
    && (am.base.Some? ==> am.base.value.name in disk && disk[am.base.value.name].Snapshot?)
    && LogsPresent(am.incr, disk)
  }

  predicate LogsPresent<D, C>(infos: seq<Info>, disk: map<string, Content<D, C>>) {
    forall i :: 0 <= i < |infos| ==> infos[i].name in disk && disk[infos[i].name].Log?
  }

  /** Replaying the INCR files one after the other. */
  function ReplayLogs<D, C>(apply: (D, C) -> D, d: D, disk: map<string, Content<D, C>>, infos: seq<Info>): D
    requires LogsPresent(infos, disk)
    decreases |infos|
  {
    if infos == [] then d
    else
      var n := |infos| - 1;
      Apply(apply, ReplayLogs(apply, d, disk, infos[..n]), disk[infos[n].name].cs)
  }

  /** loadAppendOnlyFiles(): the BASE file, then the INCR files in order. */
  function Replay<D, C>(apply: (D, C) -> D, empty: D, am: Manifest, disk: map<string, Content<D, C>>): D
    requires AllPresent(am, disk)
  {
    ReplayLogs(apply, if am.base.Some? then disk[am.base.value.name].d else empty, disk, am.incr)
  }

  // ----- the steps -----

  function TempIncr(cfg: Config): string { TempIncrName(cfg.aofName) }

  function Last(am: Manifest): string
    requires am.incr != []
  {
    am.incr[|am.incr| - 1].name
  }

  /** The cleanup at the end of the handler when the rewrite did not succeed. */
  function GiveUp<D, C>(cfg: Config, s: State<D, C>): State<D, C> {
    if s.aof.WaitRewrite? then
      s.(child := None, phase := Idle, buf := [], disk := s.disk - {TempIncr(cfg)})
    else s.(child := None, phase := Idle)
  }

  /** The name the handler gives to the temporary INCR file. */
  function NextIncrName(cfg: Config, am: Manifest): string { IncrName(cfg.aofName, am.incrSeq + 1) }

  /** The file being written is listed, but not last: a torn end there is fatal to a load. */
  predicate WritesInside<D, C>(s: State<D, C>) {
    exists i :: 0 <= i < |s.persisted.incr| - 1 && s.fd == Some(s.persisted.incr[i].name)
  }

  /** The BASE file a start on an empty dataset makes. */
  function WithBase(cfg: Config, am: Manifest): Manifest {
    if am.base.None? && am.incr == [] then NewBase(am, cfg.aofName, cfg.rdb) else am
  }

  /** getLastIncrAofName() */
  function WithIncr(cfg: Config, am: Manifest, start: int): (r: Manifest)
    ensures r.incr != []
  {
    if am.incr == [] then NewIncr(am, cfg.aofName, start) else am
  }

  /** call(): the command runs and is fed to the log. */
  function CommandStep<D, C>(apply: (D, C) -> D, s: State<D, C>, c: C): Option<State<D, C>> {
    if !s.phase.Idle? then None
    else
      var logged := s.aof.On? || (s.aof.WaitRewrite? && s.child.Some?);
      Some(s.(data := apply(s.data, c), buf := if logged then s.buf + [c] else s.buf))
  }

  /** flushAppendOnlyFile(): the front of the buffer reaches the file. */
  function FlushStep<D, C>(s: State<D, C>, n: nat): Option<State<D, C>> {
    if !s.phase.Idle? || n > |s.buf| then None
    else if s.fd.None? || s.fd.value !in s.disk || !s.disk[s.fd.value].Log? then
      (if n == 0 then Some(s) else None)
    else
      var name := s.fd.value;
      Some(s.(disk := s.disk[name := Log(s.disk[name].cs + s.buf[..n])], buf := s.buf[n..]))
  }

  /** stopAppendOnly() */
  function StopAppendOnlyStep<D, C>(s: State<D, C>, stored: bool): Option<State<D, C>> {
    if !s.phase.Idle? || s.aof.Off? then None
    else
      // updateCurIncrAofEndOffset()
      Some(s.(aof := Off, fd := None, child := None, buf := [],
              persisted := if s.aof.On? && stored then s.mem else s.persisted))
  }

  /** The forced flush is over; openNewIncrAofForAppend() opens a new file. */
  function OpenIncrStep<D, C>(cfg: Config, s: State<D, C>, ok: bool, start: int): Option<State<D, C>> {
    if !s.phase.Idle? || s.child.Some? then None
    else if s.aof.Off? then Some(s.(phase := ReadyToFork))
    else if !ok then Some(s)
    else if s.aof.WaitRewrite? then
      Some(s.(disk := s.disk[TempIncr(cfg) := Log([])], fd := Some(TempIncr(cfg)), phase := ReadyToFork))
    else
      var am := NewIncr(s.mem, cfg.aofName, start);
      Some(s.(disk := s.disk[Last(am) := Log([])], phase := Opened(am)))
  }

  /** It persists the manifest that lists the file, and only then writes there. */
  function PersistIncrStep<D, C>(s: State<D, C>, result: Persist): Option<State<D, C>> {
    if !s.phase.Opened? then None
    else if result.NotStored? then Some(s.(phase := Idle))
    else if result.StoredButReported? then Some(s.(persisted := s.phase.am, phase := Idle))
    else
      var am := s.phase.am;
      Some(s.(persisted := am, mem := am, phase := ReadyToFork,
              fd := if am.incr == [] then None else Some(Last(am))))
  }

  /** The end of rewriteAppendOnlyFileBackground(). */
  function ForkStep<D, C>(s: State<D, C>, ok: bool): Option<State<D, C>> {
    if !s.phase.ReadyToFork? then None
    else Some(s.(phase := Idle, child := if ok then Some(Child(s.data, false)) else None))
  }

  /** backgroundRewriteDoneHandler(): the temporary file of the child becomes the new BASE. */
  function RenameBaseStep<D, C>(cfg: Config, s: State<D, C>, ok: bool): Option<State<D, C>> {
    if s.child.None? || !s.child.value.saved || !s.phase.Idle? then None
    else if !ok then Some(GiveUp(cfg, s))
    else
      var am := NewBase(s.mem, cfg.aofName, cfg.rdb);
      Some(s.(disk := s.disk[am.base.value.name := Snapshot(s.child.value.snapshot)], phase := BaseRenamed(am)))
  }

  /** The temporary INCR file, if there is one, gets the next INCR name. */
  function RenameIncrStep<D, C>(cfg: Config, s: State<D, C>, ok: bool, start: int): Option<State<D, C>> {
    if !s.phase.BaseRenamed? || s.phase.am.base.None? then None
    else if !s.aof.WaitRewrite? then Some(s.(phase := IncrRenamed(s.phase.am)))
    else if !ok || TempIncr(cfg) !in s.disk then
      Some(GiveUp(cfg, s.(disk := s.disk - {s.phase.am.base.value.name})))
    else
      var name := NextIncrName(cfg, s.phase.am);
      Some(s.(disk := (s.disk - {TempIncr(cfg)})[name := s.disk[TempIncr(cfg)]],
              fd := if s.fd == Some(TempIncr(cfg)) then Some(name) else s.fd,
              phase := IncrRenamed(NewIncr(s.phase.am, cfg.aofName, start))))
  }

  /** The rewritten manifest is persisted; if that fails the new files are unlinked. */
  function PersistRewriteStep<D, C>(cfg: Config, s: State<D, C>, result: Persist): Option<State<D, C>> {
    if !s.phase.IncrRenamed? || s.phase.am.base.None? then None
    else
      var am := MarkRewritten(s.phase.am, s.fd.Some?);
      if result.Stored? then Some(s.(persisted := am, mem := am, phase := Deleting))
      else
        var made := {am.base.value.name}
                    + (if s.aof.WaitRewrite? && s.phase.am.incr != [] then {Last(s.phase.am)} else {});
        Some(GiveUp(cfg, s.(disk := s.disk - made,
                            persisted := if result.StoredButReported? then am else s.persisted)))
  }

  /** aofDelHistoryFiles(), file by file. */
  function DeleteOneStep<D, C>(cfg: Config, s: State<D, C>): Option<State<D, C>> {
    if !s.phase.Deleting? || cfg.disableGc || s.mem.hist == [] then None
    else Some(s.(disk := s.disk - {s.mem.hist[0].name}, mem := s.mem.(hist := s.mem.hist[1..])))
  }

  /** The manifest without history is persisted, whether or not that succeeds. */
  function FinishStep<D, C>(cfg: Config, s: State<D, C>, stored: bool): Option<State<D, C>> {
    if !s.phase.Deleting? || (!cfg.disableGc && s.mem.hist != []) then None
    else
      Some(s.(persisted := if stored then s.mem else s.persisted,
              aof := if s.aof.WaitRewrite? then On else s.aof, child := None, phase := Idle))
  }

  /** A new process: aofLoadManifestFromDisk() and loadDataFromDisk(). It exits if a listed file is missing, or
      if a file but the last is cut short. */
  function RestartStep<D, C>(apply: (D, C) -> D, empty: D, s: State<D, C>, on: bool, torn: bool, rdb: D)
    : Option<State<D, C>>
  {
    if !on then Some(State(Off, rdb, Reloaded(s.persisted), s.persisted, s.disk, [], None, None, Deleting))
    else if !AllPresent(s.persisted, s.disk) || (torn && WritesInside(s)) then None
    else Some(State(On, Replay(apply, empty, s.persisted, s.disk), Reloaded(s.persisted), s.persisted, s.disk, [],
                    None, None, Loaded))
  }

  /** aofOpenIfNeededOnServerStart(): a BASE file for an empty dataset. */
  function BootBaseStep<D, C>(cfg: Config, s: State<D, C>): Option<State<D, C>> {
    if !s.phase.Loaded? then None
    else
      var am := WithBase(cfg, s.mem);
      Some(s.(disk := if s.mem.base.Some? || s.mem.incr != [] then s.disk
                      else s.disk[am.base.value.name := Snapshot(s.data)],
              phase := BaseMade(am)))
  }

  /** The last INCR file is opened, or a new one. */
  function BootIncrStep<D, C>(cfg: Config, s: State<D, C>, start: int): Option<State<D, C>> {
    if !s.phase.BaseMade? then None
    else
      // opened for appending: what a file of that name holds stays
      var am := WithIncr(cfg, s.phase.am, start);
      Some(s.(disk := if Last(am) in s.disk then s.disk else s.disk[Last(am) := Log([])],
              fd := Some(Last(am)), phase := Booted(am)))
  }

  /** The manifest is persisted if it changed; the process exits if that fails. */
  function BootPersistStep<D, C>(s: State<D, C>, result: Persist): Option<State<D, C>> {
    if !s.phase.Booted? then None
    else
      var am := s.phase.am;
      if result.Stored? || !am.dirty then Some(s.(mem := am, persisted := am, phase := Deleting))
      else
        var kept := if result.NotStored? then s.mem else am;
        Some(s.(aof := Off, fd := None, mem := kept, persisted := if result.NotStored? then s.persisted else am,
                phase := Down))
  }

  /** One step, or None where the program is not at that step. */
  function Next<D, C>(cfg: Config, apply: (D, C) -> D, empty: D, s: State<D, C>, step: Step<D, C>)
    : Option<State<D, C>>
  {
    match step
    case Command(c) => CommandStep(apply, s, c)
    case Flush(n) => FlushStep(s, n)
    case StartAppendOnly =>
      if !s.phase.Idle? || !s.aof.Off? then None else Some(s.(aof := WaitRewrite, child := None))
    case AbandonStart =>
      if !s.phase.Idle? || !s.aof.WaitRewrite? || s.child.Some? then None else Some(s.(aof := Off))
    case StopAppendOnly(stored) => StopAppendOnlyStep(s, stored)
    case OpenIncr(ok, start) => OpenIncrStep(cfg, s, ok, start)
    case PersistIncr(result) => PersistIncrStep(s, result)
    case Fork(ok) => ForkStep(s, ok)
    case ChildSaves =>
      if s.child.None? || !s.phase.Idle? then None else Some(s.(child := Some(s.child.value.(saved := true))))
    case ChildFails =>
      if s.child.None? || !s.phase.Idle? then None else Some(GiveUp(cfg, s))
    case RenameBase(ok) => RenameBaseStep(cfg, s, ok)
    case RenameIncr(ok, start) => RenameIncrStep(cfg, s, ok, start)
    case PersistRewrite(result) => PersistRewriteStep(cfg, s, result)
    case DeleteOne => DeleteOneStep(cfg, s)
    case Finish(stored) => FinishStep(cfg, s, stored)
    case Restart(on, torn, rdb) => RestartStep(apply, empty, s, on, torn, rdb)
    case BootBase => BootBaseStep(cfg, s)
    case BootIncr(start) => BootIncrStep(cfg, s, start)
    case BootPersist(result) => BootPersistStep(s, result)
  }

  // ----- runs -----

  function Run<D, C>(cfg: Config, apply: (D, C) -> D, empty: D, s: State<D, C>, steps: seq<Step<D, C>>)
    : Option<State<D, C>>
    decreases |steps|
  {
    if steps == [] then Some(s)
    else
      match Next(cfg, apply, empty, s, steps[0])
      case None => None
      case Some(s') => Run(cfg, apply, empty, s', steps[1..])
  }

  /** A server without append-only file; one with the file on is this server after Restart(true, …). */
  function StartOff<D, C>(empty: D): State<D, C> {
    State(Off, empty, EMPTY, EMPTY, map[], [], None, None, Idle)
  }
}
