/** Crashes and restarts: the start of a new process keeps the invariant too, so that whole runs lose no more
    than the buffer; and the conditions on those runs are exact. */
module AofRestart {
  import opened CString
  import opened AofManifest
  import opened AofProtocol
  import opened AofRewrite

  // ----- a crash and the start after it -----

  /** A load gives the same dataset whichever of the two manifests it takes. */
  lemma PersistedReplays<D, C>(cfg: Config, apply: (D, C) -> D, empty: D, s: State<D, C>)
    requires Agree(cfg, s.aof.On?, s.phase, s.mem, s.persisted, s.disk)
    ensures AllPresent(s.persisted, s.disk)
    ensures s.aof.On? ==> Replay(apply, empty, s.persisted, s.disk) == Replay(apply, empty, s.mem, s.disk)
  {
    hide Live, Apply, Replay, IncrName, AllPresent;
    if Trailing(s.mem, s.persisted) {
      assert s.persisted.incr[..|s.persisted.incr| - 1] == s.mem.incr;
      ReplayNewIncr(apply, empty, s.mem, s.persisted, s.disk);
      ApplyNone(apply, Replay(apply, empty, s.mem, s.disk));
    } else {
      SameReplay(apply, empty, s.mem, s.persisted, s.disk);
    }
  }

  lemma SameReplay<D, C>(apply: (D, C) -> D, empty: D, am: Manifest, am': Manifest, disk: map<string, Content<D, C>>)
    requires am.base == am'.base && am.incr == am'.incr && AllPresent(am, disk)
    ensures AllPresent(am', disk) && Replay(apply, empty, am', disk) == Replay(apply, empty, am, disk)
  {
  }

  lemma PersistedLive<D, C>(cfg: Config, s: State<D, C>)
    requires Agree(cfg, s.aof.On?, s.phase, s.mem, s.persisted, s.disk)
    ensures Live(Reloaded(s.persisted), cfg.aofName)
  {
    hide IncrName, BaseName, AllPresent;
    if Trailing(s.mem, s.persisted) {
      NewIncrLive(s.mem, cfg.aofName, s.persisted.incr[|s.persisted.incr| - 1].startOffset);
    }
  }

  lemma KeepRestart<D, C>(cfg: Config, apply: (D, C) -> D, empty: D, s: State<D, C>, on: bool, torn: bool, rdb: D)
    requires Inv(cfg, apply, empty, s) && Next(cfg, apply, empty, s, Restart(on, torn, rdb)).Some?
    ensures Inv(cfg, apply, empty, Next(cfg, apply, empty, s, Restart(on, torn, rdb)).value)
  {
    hide Live, Apply, Replay, TempIncr, AllPresent, TrailOk, Collects, WritesInside, Apart;
    var s' := Next(cfg, apply, empty, s, Restart(on, torn, rdb)).value;
    AgreeLive(cfg, s);
    PersistedReplays(cfg, apply, empty, s);
    PersistedLive(cfg, s);
    SameReplay(apply, empty, s.persisted, s'.mem, s.disk);
    ReloadedApart(s.persisted);
    ApplyNone(apply, s'.data);
  }

  lemma ReloadedApart(am: Manifest)
    ensures Apart(am) ==> Apart(Reloaded(am))
  {
    assert forall name :: Reads(Reloaded(am), name) <==> Reads(am, name);
  }

  lemma KeepBootBase<D, C>(cfg: Config, apply: (D, C) -> D, empty: D, s: State<D, C>)
    requires Inv(cfg, apply, empty, s) && s.phase.Loaded?
    ensures Inv(cfg, apply, empty, Next(cfg, apply, empty, s, BootBase).value)
  {
    hide Agree, Live, Apply, Replay, TempIncr, AllPresent, BaseName, Apart, Collects;
    var s' := Next(cfg, apply, empty, s, BootBase).value;
    var am := s'.phase.am;
    AgreeLive(cfg, s);
    if s.mem.base.Some? {
      BootAgrees(cfg, s, s.disk, s'.phase);
    } else {
      NothingRead(s.mem, s.disk, s'.disk);
      BootAgrees(cfg, s, s'.disk, s'.phase);
      DurableFrame(apply, empty, s.mem, s.disk, s'.disk, s.buf, s.data);
      NewBaseLive(s.mem, cfg.aofName, cfg.rdb);
      NoHistoryApart(am);
      ReplayBase(apply, empty, am, s'.disk);
      ApplyNone(apply, s.data);
    }
  }

  lemma NothingRead<D, C>(am: Manifest, disk: map<string, Content<D, C>>, disk': map<string, Content<D, C>>)
    requires am.base.None? && am.incr == []
    ensures SameFiles(am, disk, disk')
  {
  }

  lemma NoHistoryApart(am: Manifest)
    requires am.hist == []
    ensures Apart(am)
  {
  }

  lemma ReplayBase<D, C>(apply: (D, C) -> D, empty: D, am: Manifest, disk: map<string, Content<D, C>>)
    requires am.base.Some? && am.incr == [] && am.base.value.name in disk && disk[am.base.value.name].Snapshot?
    ensures AllPresent(am, disk) && Replay(apply, empty, am, disk) == disk[am.base.value.name].d
  {
  }

  /** While a new process starts, the manifest on disk and the files it lists stay as they were. */
  lemma BootAgrees<D, C>(cfg: Config, s: State<D, C>, disk': map<string, Content<D, C>>, phase': Phase)
    requires Agree(cfg, s.aof.On?, s.phase, s.mem, s.persisted, s.disk) && !MayTrail(s.phase)
    requires SameFiles(s.mem, s.disk, disk') || disk' == s.disk
    ensures Agree(cfg, s.aof.On?, phase', s.mem, s.persisted, disk')
  {
    hide Live, AllPresent, SameFiles;
    SameIsSame(s.mem, s.disk);
    PresentFrame(s.mem, s.disk, disk');
  }

  /** The INCR file a start makes is new: not in the history that is about to be unlinked, and without
      content a former process left. */
  predicate NewAtBoot<D, C(==)>(cfg: Config, am: Manifest, disk: map<string, Content<D, C>>) {
    var name := NextIncrName(cfg, am);
    (cfg.disableGc || !HistHas(am, name)) && (name in disk ==> disk[name].Log? && disk[name].cs == [])
  }

  lemma KeepBootIncr<D, C>(cfg: Config, apply: (D, C) -> D, empty: D, s: State<D, C>, start: int)
    requires Inv(cfg, apply, empty, s) && s.phase.BaseMade?
    requires s.phase.am.incr == [] ==> NewAtBoot(cfg, s.phase.am, s.disk)
    ensures Inv(cfg, apply, empty, Next(cfg, apply, empty, s, BootIncr(start)).value)
  {
    hide Agree, Live, Apply, Replay, TempIncr, AllPresent, IncrName, Durable, Apart, Collects, SameFiles;
    var s' := Next(cfg, apply, empty, s, BootIncr(start)).value;
    var am, am' := s.phase.am, s'.phase.am;
    if am.incr != [] {
      LastPresent(apply, empty, am, s.disk, s.buf, s.data);
      BootAgrees(cfg, s, s.disk, s'.phase);
    } else {
      GrownFiles(s.mem, s.disk, Last(am'));
      GrownFiles(am, s.disk, Last(am'));
      BootAgrees(cfg, s, s'.disk, s'.phase);
      DurableFrame(apply, empty, s.mem, s.disk, s'.disk, s.buf, s.data);
      DurableFrame(apply, empty, am, s.disk, s'.disk, s.buf, s.data);
      NewIncrLive(am, cfg.aofName, start);
      OpenedName(cfg, am, start);
      NewIncrDurable(cfg, apply, empty, am, am', s'.disk, s.buf, s.data);
      NewIncrApart(cfg, am, start);
    }
  }

  lemma LastPresent<D, C>(apply: (D, C) -> D, empty: D, am: Manifest, disk: map<string, Content<D, C>>,
                          buf: seq<C>, data: D)
    requires Durable(apply, empty, am, disk, buf, data) && am.incr != []
    ensures Last(am) in disk
  {
    hide Apply, Replay;
  }

  lemma GrownFiles<D, C>(am: Manifest, disk: map<string, Content<D, C>>, name: string)
    ensures SameFiles(am, disk, disk)
    ensures name !in disk ==> SameFiles(am, disk, disk[name := Log([])])
  {
    hide Reads;
  }

  /** The INCR file made at the start is apart from the history exactly if its name is not in it. */
  lemma NewIncrApart(cfg: Config, am: Manifest, start: int)
    requires Live(am, cfg.aofName) && am.incr == []
    ensures Apart(NewIncr(am, cfg.aofName, start)) <==> Apart(am) && !HistHas(am, NextIncrName(cfg, am))
  {
    hide Live, IncrName;
    var r := NewIncr(am, cfg.aofName, start);
    forall x
      ensures Reads(r, x) <==> Reads(am, x) || x == NextIncrName(cfg, am)
    {
      assert r.incr[0].name == NextIncrName(cfg, am);
    }
  }

  lemma KeepBootPersist<D, C>(cfg: Config, apply: (D, C) -> D, empty: D, s: State<D, C>, result: Persist)
    requires Inv(cfg, apply, empty, s) && s.phase.Booted?
    ensures Inv(cfg, apply, empty, Next(cfg, apply, empty, s, BootPersist(result)).value)
  {
    hide Agree, Live, Apply, Replay, TempIncr, AllPresent, Durable, Apart, Collects, HistInv;
    var s' := Next(cfg, apply, empty, s, BootPersist(result)).value;
    var am := s.phase.am;
    DurablePresent(apply, empty, am, s.disk, s.buf, s.data);
    SameManifest(cfg, am, s.disk, s'.aof.On?, s'.phase);
    DownAgrees(cfg, s.phase, s.mem, s.persisted, s.disk);
  }

  lemma DurablePresent<D, C>(apply: (D, C) -> D, empty: D, am: Manifest, disk: map<string, Content<D, C>>,
                             buf: seq<C>, data: D)
    requires Durable(apply, empty, am, disk, buf, data)
    ensures AllPresent(am, disk)
  {
    hide AllPresent;
  }

  lemma DownAgrees<D, C>(cfg: Config, phase: Phase, mem: Manifest, persisted: Manifest,
                         disk: map<string, Content<D, C>>)
    requires Agree(cfg, true, phase, mem, persisted, disk) && HistInv(cfg, phase, mem, persisted) && !MayTrail(phase)
    ensures Agree(cfg, false, Down, mem, persisted, disk) && HistInv(cfg, Down, mem, persisted)
  {
    hide Live, AllPresent, Apart;
  }

  /** What a run must be spared: commands left in the buffer when a rewrite begins, a manifest reported as
      not persisted though it is in place, or not persisted while it would have covered a trailing file, and
      a start that takes an old file for its new INCR file. */
  predicate Clean<D, C(==)>(cfg: Config, s: State<D, C>, step: Step<D, C>) {
    && (step.OpenIncr? ==> s.buf == [])
    && (step.PersistRewrite? ==> KeepsListed(s, step.result))
    && (step.BootIncr? && s.phase.BaseMade? && s.phase.am.incr == [] ==> NewAtBoot(cfg, s.phase.am, s.disk))
  }

  /** Ending a rewrite unlinks no file of the manifest on disk. */
  predicate KeepsListed<D, C>(s: State<D, C>, result: Persist) {
    match result
    case Stored => true
    case NotStored => !(s.aof.WaitRewrite? && Trailing(s.mem, s.persisted))
    case StoredButReported => false
  }

  lemma KeepStep<D, C>(cfg: Config, apply: (D, C) -> D, empty: D, s: State<D, C>, step: Step<D, C>)
    requires Inv(cfg, apply, empty, s) && Clean(cfg, s, step) && Next(cfg, apply, empty, s, step).Some?
    ensures Inv(cfg, apply, empty, Next(cfg, apply, empty, s, step).value)
  {
    hide Inv;
    match step
    case Command(c) => KeepCommand(cfg, apply, empty, s, c);
    case Flush(n) => KeepFlush(cfg, apply, empty, s, n);
    case StartAppendOnly => KeepStartStop(cfg, apply, empty, s, step);
    case AbandonStart => KeepStartStop(cfg, apply, empty, s, step);
    case StopAppendOnly(stored) => KeepStartStop(cfg, apply, empty, s, step);
    case OpenIncr(ok, start) => KeepOpenIncr(cfg, apply, empty, s, ok, start);
    case PersistIncr(result) => KeepPersistIncr(cfg, apply, empty, s, result);
    case Fork(ok) => KeepFork(cfg, apply, empty, s, ok);
    case ChildSaves => KeepStartStop(cfg, apply, empty, s, step);
    case ChildFails => KeepChildFails(cfg, apply, empty, s);
    case RenameBase(ok) => KeepRenameBase(cfg, apply, empty, s, ok);
    case RenameIncr(ok, start) => KeepRenameIncr(cfg, apply, empty, s, ok, start);
    case PersistRewrite(result) =>
      if result.Stored? {
        KeepPersistRewrite(cfg, apply, empty, s);
      } else {
        KeepPersistFailed(cfg, apply, empty, s);
      }
    case DeleteOne => KeepDeleteOne(cfg, apply, empty, s);
    case Finish(stored) => KeepFinish(cfg, apply, empty, s, stored);
    case Restart(on, torn, rdb) => KeepRestart(cfg, apply, empty, s, on, torn, rdb);
    case BootBase => KeepBootBase(cfg, apply, empty, s);
    case BootIncr(start) => KeepBootIncr(cfg, apply, empty, s, start);
    case BootPersist(result) => KeepBootPersist(cfg, apply, empty, s, result);
  }

  lemma KeepChildFails<D, C>(cfg: Config, apply: (D, C) -> D, empty: D, s: State<D, C>)
    requires Inv(cfg, apply, empty, s) && s.child.Some? && s.phase.Idle?
    ensures Inv(cfg, apply, empty, GiveUp(cfg, s))
  {
    hide Inv;
    SameIsSame(s.mem, s.disk);
    KeepGiveUp(cfg, apply, empty, s, s);
  }

  // ----- runs -----

  ghost predicate CleanRun<D, C>(cfg: Config, apply: (D, C) -> D, empty: D, s: State<D, C>, steps: seq<Step<D, C>>)
    decreases |steps|
  {
    steps == [] ||
    (Clean(cfg, s, steps[0])
     && match Next(cfg, apply, empty, s, steps[0])
        case None => true
        case Some(s') => CleanRun(cfg, apply, empty, s', steps[1..]))
  }

  lemma StartOffValid<D, C>(cfg: Config, apply: (D, C) -> D, empty: D)
    ensures Inv(cfg, apply, empty, StartOff<D, C>(empty))
  {
  }

  lemma {:induction false} RunKeeps<D, C>(cfg: Config, apply: (D, C) -> D, empty: D, s: State<D, C>,
                                          steps: seq<Step<D, C>>)
    requires Inv(cfg, apply, empty, s) && CleanRun(cfg, apply, empty, s, steps)
    ensures var r := Run(cfg, apply, empty, s, steps); r.Some? ==> Inv(cfg, apply, empty, r.value)
    decreases |steps|
  {
    hide Inv, Clean, Next;
    if steps != [] {
      var r := Next(cfg, apply, empty, s, steps[0]);
      if r.Some? {
        KeepStep(cfg, apply, empty, s, steps[0]);
        RunKeeps(cfg, apply, empty, r.value, steps[1..]);
      }
    }
  }

  /** What a crash in state `s` leaves recoverable. */
  ghost predicate Recoverable<D, C>(apply: (D, C) -> D, empty: D, s: State<D, C>) {
    && AllPresent(s.persisted, s.disk)
    && (s.aof.On? ==> Apply(apply, Replay(apply, empty, s.persisted, s.disk), s.buf) == s.data)
  }

  /** In every state of every run, with any number of crashes and restarts, every BASE and INCR file of the
      persisted manifest is still there, and with the append-only file on, replaying them and then the buffer
      gives the dataset: a crash between any two steps loses the buffer and nothing else. */
  lemma CrashLosesOnlyTheBuffer<D, C>(cfg: Config, apply: (D, C) -> D, empty: D, steps: seq<Step<D, C>>)
    requires CleanRun(cfg, apply, empty, StartOff(empty), steps)
    ensures var r := Run(cfg, apply, empty, StartOff(empty), steps); r.Some? ==> Recoverable(apply, empty, r.value)
  {
    hide Inv, CleanRun, Run, Recoverable;
    StartOffValid<D, C>(cfg, apply, empty);
    RunKeeps(cfg, apply, empty, StartOff(empty), steps);
    var r := Run(cfg, apply, empty, StartOff(empty), steps);
    if r.Some? {
      InvRecovers(cfg, apply, empty, r.value);
    }
  }

  lemma InvRecovers<D, C>(cfg: Config, apply: (D, C) -> D, empty: D, s: State<D, C>)
    requires Inv(cfg, apply, empty, s)
    ensures Recoverable(apply, empty, s)
  {
    hide Apply, Replay, Agree, HistInv, ChildInv, PhaseInv, AllPresent;
    PersistedReplays(cfg, apply, empty, s);
  }

  /** The same for the process that comes after: from every state of every run with the file on, a restart
      finds all but the buffer; and it is refused only if the crash tore the end of the file being written
      while the manifest on disk lists another one after it. */
  lemma RestartLosesOnlyTheBuffer<D, C>(cfg: Config, apply: (D, C) -> D, empty: D, steps: seq<Step<D, C>>,
                                        torn: bool, rdb: D)
    requires CleanRun(cfg, apply, empty, StartOff(empty), steps)
    ensures var r := Run(cfg, apply, empty, StartOff(empty), steps);
      r.Some? && r.value.aof.On? ==>
        var s := r.value;
        var next := Next(cfg, apply, empty, s, Restart(true, torn, rdb));
        && (next.Some? <==> !(torn && Trailing(s.mem, s.persisted)))
        && (next.Some? ==> next.value.buf == [] && Apply(apply, next.value.data, s.buf) == s.data)
  {
    hide Inv, CleanRun, Run, Recoverable, Apply, Replay, AllPresent, WritesInside, Trailing, Reloaded;
    StartOffValid<D, C>(cfg, apply, empty);
    RunKeeps(cfg, apply, empty, StartOff(empty), steps);
    var r := Run(cfg, apply, empty, StartOff(empty), steps);
    if r.Some? && r.value.aof.On? {
      InvRecovers(cfg, apply, empty, r.value);
      RecoveredData(apply, empty, r.value);
      WritingInside(cfg, apply, empty, r.value);
    }
  }

  lemma RecoveredData<D, C>(apply: (D, C) -> D, empty: D, s: State<D, C>)
    requires Recoverable(apply, empty, s) && s.aof.On?
    ensures AllPresent(s.persisted, s.disk)
    ensures Apply(apply, Replay(apply, empty, s.persisted, s.disk), s.buf) == s.data
  {
    hide Apply, Replay, AllPresent;
  }

  lemma WritingInside<D, C>(cfg: Config, apply: (D, C) -> D, empty: D, s: State<D, C>)
    requires Inv(cfg, apply, empty, s) && s.aof.On?
    ensures WritesInside(s) <==> Trailing(s.mem, s.persisted)
  {
    hide Apply, Replay, HistInv, ChildInv, Durable, Live, IncrName;
    IncrsApart(s.mem, cfg.aofName, s.mem.incrSeq + 1);
    if Trailing(s.mem, s.persisted) {
      var n := |s.mem.incr| - 1;
      assert s.persisted.incr[n] == s.mem.incr[n];
    }
  }

  // ----- the conditions on runs are exact -----

  /** When persisting the rewritten manifest ends, every listed file is present exactly if the call did not
      report an error for a manifest it had already put in place, and did not fail to replace a manifest
      that lists the INCR name the rewrite used: the handler unlinks the new files in both cases. */
  lemma LateErrorLosesTheBase<D, C>(cfg: Config, apply: (D, C) -> D, empty: D, s: State<D, C>, result: Persist)
    requires Inv(cfg, apply, empty, s) && s.phase.IncrRenamed?
    ensures var r := Next(cfg, apply, empty, s, PersistRewrite(result));
      r.Some? && (AllPresent(r.value.persisted, r.value.disk) <==> KeepsListed(s, result))
  {
    hide Inv;
    if KeepsListed(s, result) {
      if result.Stored? {
        KeepPersistRewrite(cfg, apply, empty, s);
        InvRecovers(cfg, apply, empty, Next(cfg, apply, empty, s, PersistRewrite(Stored)).value);
      } else {
        KeepPersistFailed(cfg, apply, empty, s);
        InvRecovers(cfg, apply, empty, Next(cfg, apply, empty, s, PersistRewrite(NotStored)).value);
      }
    } else {
      UnlinksListed(cfg, apply, empty, s, result);
    }
  }

  lemma UnlinksListed<D, C>(cfg: Config, apply: (D, C) -> D, empty: D, s: State<D, C>, result: Persist)
    requires Inv(cfg, apply, empty, s) && s.phase.IncrRenamed? && !KeepsListed(s, result)
    ensures var r := Next(cfg, apply, empty, s, PersistRewrite(result));
      r.Some? && !AllPresent(r.value.persisted, r.value.disk)
  {
    hide Agree, HistInv, Live, Apply, Replay, TempIncr, BaseName, IncrName, Durable, Collects;
    RewrittenKeepsBase(s.phase.am, s.fd.Some?);
    hide MarkRewritten;
    if result.NotStored? {
      TrailName(cfg, s.aof.On?, s.phase, s.mem, s.persisted, s.disk);
      assert Last(s.persisted) == Last(s.phase.am);
    }
  }

  lemma TrailName<D, C>(cfg: Config, on: bool, phase: Phase, mem: Manifest, persisted: Manifest,
                        disk: map<string, Content<D, C>>)
    requires Agree(cfg, on, phase, mem, persisted, disk) && Trailing(mem, persisted)
    ensures persisted.incr != [] && Last(persisted) == NextIncrName(cfg, mem)
  {
    hide Live, AllPresent, NewIncr;
  }

  /** The INCR file a start makes is opened for appending. If a file of that name is there, it is replayed
      from then on, and the dataset is right exactly if that changes nothing. */
  lemma BootAppends<D, C>(cfg: Config, apply: (D, C) -> D, empty: D, s: State<D, C>, start: int)
    requires Inv(cfg, apply, empty, s) && s.phase.BaseMade? && s.phase.am.incr == []
    requires var name := NextIncrName(cfg, s.phase.am); name in s.disk ==> s.disk[name].Log?
    ensures var r := Run(cfg, apply, empty, s, [BootIncr(start), BootPersist(Stored)]);
      && r.Some? && r.value.aof.On? && r.value.data == s.data && r.value.mem.incr != []
      && (Durable(apply, empty, r.value.mem, r.value.disk, r.value.buf, r.value.data)
          <==> Apply(apply, s.data, LeftIn(s.disk, NextIncrName(cfg, s.phase.am))) == s.data)
  {
    hide Inv, Next, Run, IncrName, Apply, Replay, AllPresent, LeftIn;
    BootData(cfg, apply, empty, s);
    BootReplays(cfg, apply, empty, s, start);
  }

  lemma BootReplays<D, C>(cfg: Config, apply: (D, C) -> D, empty: D, s: State<D, C>, start: int)
    requires s.phase.BaseMade? && s.phase.am.incr == [] && s.aof.On? && s.buf == []
    requires AllPresent(s.phase.am, s.disk) && Replay(apply, empty, s.phase.am, s.disk) == s.data
    requires var name := NextIncrName(cfg, s.phase.am); name in s.disk ==> s.disk[name].Log?
    ensures var r := Run(cfg, apply, empty, s, [BootIncr(start), BootPersist(Stored)]);
      && r.Some? && r.value.aof.On? && r.value.data == s.data && r.value.mem.incr != []
      && (Durable(apply, empty, r.value.mem, r.value.disk, r.value.buf, r.value.data)
          <==> Apply(apply, s.data, LeftIn(s.disk, NextIncrName(cfg, s.phase.am))) == s.data)
  {
    hide Next, Run, IncrName, Apply, Replay, AllPresent, LeftIn;
    var name := NextIncrName(cfg, s.phase.am);
    var disk' := if name in s.disk then s.disk else s.disk[name := Log([])];
    BootRun(cfg, apply, empty, s, start);
    AppendedReplay(cfg, apply, empty, s.phase.am, s.disk, disk', start);
  }

  function LeftIn<D, C>(disk: map<string, Content<D, C>>, name: string): seq<C> {
    if name in disk && disk[name].Log? then disk[name].cs else []
  }

  lemma BootRun<D, C>(cfg: Config, apply: (D, C) -> D, empty: D, s: State<D, C>, start: int)
    requires s.phase.BaseMade? && s.phase.am.incr == []
    ensures var am := NewIncr(s.phase.am, cfg.aofName, start);
      var name := NextIncrName(cfg, s.phase.am);
      Run(cfg, apply, empty, s, [BootIncr(start), BootPersist(Stored)])
      == Some(s.(disk := if name in s.disk then s.disk else s.disk[name := Log([])], fd := Some(name),
                 mem := am, persisted := am, phase := Deleting))
  {
    hide IncrName, Run;
    var s1 := Next(cfg, apply, empty, s, BootIncr(start)).value;
    var a: seq<Step<D, C>>, b: seq<Step<D, C>> := [BootIncr(start)], [BootPersist(Stored)];
    assert [BootIncr(start), BootPersist(Stored)] == a + b;
    RunAppend(cfg, apply, empty, s, a, b);
    RunOne(cfg, apply, empty, s, BootIncr(start));
    RunOne(cfg, apply, empty, s1, BootPersist(Stored));
  }

  lemma BootData<D, C>(cfg: Config, apply: (D, C) -> D, empty: D, s: State<D, C>)
    requires Inv(cfg, apply, empty, s) && s.phase.BaseMade?
    ensures s.aof.On? && s.buf == [] && AllPresent(s.phase.am, s.disk)
    ensures Replay(apply, empty, s.phase.am, s.disk) == s.data
  {
    hide Agree, HistInv, Live, Replay, AllPresent, ChildInv, Apart;
    ApplyNone(apply, Replay(apply, empty, s.phase.am, s.disk));
  }

  lemma AppendedReplay<D, C>(cfg: Config, apply: (D, C) -> D, empty: D, am: Manifest,
                             disk: map<string, Content<D, C>>, disk': map<string, Content<D, C>>, start: int)
    requires AllPresent(am, disk)
    requires var name := NextIncrName(cfg, am);
      (name in disk ==> disk[name].Log?) && disk' == if name in disk then disk else disk[name := Log([])]
    ensures var am' := NewIncr(am, cfg.aofName, start);
      var d := Apply(apply, Replay(apply, empty, am, disk), LeftIn(disk, NextIncrName(cfg, am)));
      AllPresent(am', disk') && Apply(apply, Replay(apply, empty, am', disk'), []) == d
  {
    hide IncrName, Apply, Replay, AllPresent, SameFiles;
    var am' := NewIncr(am, cfg.aofName, start);
    GrownFiles(am, disk, NextIncrName(cfg, am));
    ReplayFrame(apply, empty, am, disk, disk');
    assert am'.incr[..|am'.incr| - 1] == am.incr;
    ReplayNewIncr(apply, empty, am, am', disk');
    ApplyNone(apply, Replay(apply, empty, am', disk'));
  }

  function Deletes<D, C>(n: nat): seq<Step<D, C>> { if n == 0 then [] else [DeleteOne] + Deletes(n - 1) }

  /** Unlinking the whole history leaves every listed file in place exactly if none of them is history. */
  lemma {:induction false} DeletionKeeps<D, C>(cfg: Config, apply: (D, C) -> D, empty: D, s: State<D, C>)
    requires s.phase.Deleting? && !cfg.disableGc && AllPresent(s.mem, s.disk)
    ensures var r := Run(cfg, apply, empty, s, Deletes(|s.mem.hist|));
      && r == Some(s.(mem := s.mem.(hist := []), disk := s.disk - HistNames(s.mem.hist)))
      && (AllPresent(r.value.mem, r.value.disk) <==> Apart(s.mem))
  {
    DeletesRun(cfg, apply, empty, s);
    HistNamesAre(s.mem);
    var gone := HistNames(s.mem.hist);
    if Apart(s.mem) {
      assert forall name :: Reads(s.mem, name) ==> name !in gone;
      PresentFrame(s.mem, s.disk, s.disk - gone);
    } else {
      var k :| 0 <= k < |s.mem.hist| && Reads(s.mem, s.mem.hist[k].name);
      assert s.mem.hist[k].name in gone;
    }
  }

  function HistNames(infos: seq<Info>): set<string> {
    if infos == [] then {} else {infos[0].name} + HistNames(infos[1..])
  }

  lemma {:induction false} HistName(infos: seq<Info>, name: string)
    ensures name in HistNames(infos) <==> exists k :: 0 <= k < |infos| && infos[k].name == name
  {
    if infos != [] {
      HistName(infos[1..], name);
      assert forall k :: 0 <= k < |infos| - 1 ==> infos[1..][k] == infos[k + 1];
      assert forall k :: 0 < k < |infos| ==> infos[k] == infos[1..][k - 1];
    }
  }

  lemma HistNamesAre(am: Manifest)
    ensures forall name :: name in HistNames(am.hist) <==> HistHas(am, name)
  {
    forall name
      ensures name in HistNames(am.hist) <==> HistHas(am, name)
    {
      HistName(am.hist, name);
    }
  }

  lemma {:induction false} DeletesRun<D, C>(cfg: Config, apply: (D, C) -> D, empty: D, s: State<D, C>)
    requires s.phase.Deleting? && !cfg.disableGc
    ensures Run(cfg, apply, empty, s, Deletes(|s.mem.hist|))
         == Some(s.(mem := s.mem.(hist := []), disk := s.disk - HistNames(s.mem.hist)))
    decreases |s.mem.hist|
  {
    if s.mem.hist == [] {
      assert s.disk - HistNames(s.mem.hist) == s.disk;
    } else {
      var s' := Next(cfg, apply, empty, s, DeleteOne).value;
      DeletesRun(cfg, apply, empty, s');
      assert s.disk - {s.mem.hist[0].name} - HistNames(s.mem.hist[1..]) == s.disk - HistNames(s.mem.hist);
      var steps := Deletes<D, C>(|s.mem.hist|);
      assert steps[0] == DeleteOne && steps[1..] == Deletes<D, C>(|s.mem.hist| - 1);
    }
  }

  /** A whole rewrite that starts with commands still in the buffer replays them twice: the snapshot holds
      them and so will the new INCR file. The dataset is recovered exactly if doing them again changes
      nothing; an empty buffer is the case that always does. */
  lemma RewriteWithResidue<D, C>(cfg: Config, apply: (D, C) -> D, empty: D, s: State<D, C>, start: int)
    requires Inv(cfg, apply, empty, s) && s.aof.On? && s.phase.Idle? && s.child.None?
    ensures var r := Run(cfg, apply, empty, s, WholeRewrite<D, C>(start));
      && r.Some? && r.value.aof.On? && r.value.data == s.data
      && (Durable(apply, empty, r.value.mem, r.value.disk, r.value.buf, r.value.data)
          <==> Apply(apply, s.data, s.buf) == s.data)
  {
    hide Inv, Next, Live, BaseName, IncrName, Apply, Replay, WholeRewrite, AllPresent;
    var am1 := NewIncr(s.mem, cfg.aofName, start);
    var am2 := NewBase(am1, cfg.aofName, cfg.rdb);
    var am3 := MarkRewritten(am2, true);
    InvLive(cfg, apply, empty, s);
    NewIncrLive(s.mem, cfg.aofName, start);
    NewBaseLive(am1, cfg.aofName, cfg.rdb);
    LastIsRead(am1);
    var disk := s.disk[Last(am1) := Log([])][am2.base.value.name := Snapshot(s.data)];
    var end := Rewritten(cfg, s, start);
    assert am3.incr == [am1.incr[|am1.incr| - 1]] && am3.base == am2.base;
    ReplayRewritten(apply, empty, am3, disk);
    ApplyNone(apply, s.data);
    ResidueRun(cfg, apply, empty, s, start);
  }

  lemma InvLive<D, C>(cfg: Config, apply: (D, C) -> D, empty: D, s: State<D, C>)
    requires Inv(cfg, apply, empty, s)
    ensures Live(s.mem, cfg.aofName)
  {
    hide Live;
  }

  function WholeRewrite<D, C>(start: int): seq<Step<D, C>> {
    [OpenIncr(true, start), PersistIncr(Stored), Fork(true)] + [ChildSaves, RenameBase(true), RenameIncr(true, 0)]
    + [PersistRewrite(Stored)]
  }

  /** The state those steps end in. */
  function Rewritten<D, C>(cfg: Config, s: State<D, C>, start: int): State<D, C> {
    var am1 := NewIncr(s.mem, cfg.aofName, start);
    var am2 := NewBase(am1, cfg.aofName, cfg.rdb);
    var am3 := MarkRewritten(am2, true);
    s.(disk := s.disk[Last(am1) := Log([])][am2.base.value.name := Snapshot(s.data)], persisted := am3, mem := am3,
       fd := Some(Last(am1)), child := Some(Child(s.data, true)), phase := Deleting)
  }

  lemma RunThree<D, C>(cfg: Config, apply: (D, C) -> D, empty: D, s: State<D, C>, a: Step<D, C>, b: Step<D, C>,
                       c: Step<D, C>, s1: State<D, C>, s2: State<D, C>, s3: State<D, C>)
    requires Next(cfg, apply, empty, s, a) == Some(s1) && Next(cfg, apply, empty, s1, b) == Some(s2)
    requires Next(cfg, apply, empty, s2, c) == Some(s3)
    ensures Run(cfg, apply, empty, s, [a, b, c]) == Some(s3)
  {
    hide Next;
    assert [a, b, c][1..] == [b, c] && [b, c][1..] == [c] && [c][1..] == [];
    assert Run(cfg, apply, empty, s3, []) == Some(s3);
    assert Run(cfg, apply, empty, s2, [c]) == Some(s3);
    assert Run(cfg, apply, empty, s1, [b, c]) == Some(s3);
  }

  lemma {:induction false} RunAppend<D, C>(cfg: Config, apply: (D, C) -> D, empty: D, s: State<D, C>,
                                           a: seq<Step<D, C>>, b: seq<Step<D, C>>)
    ensures Run(cfg, apply, empty, s, a + b)
         == match Run(cfg, apply, empty, s, a)
            case None => None
            case Some(s') => Run(cfg, apply, empty, s', b)
    decreases |a|
  {
    hide Next;
    if a == [] {
      assert a + b == b;
    } else {
      assert (a + b)[1..] == a[1..] + b;
      var r := Next(cfg, apply, empty, s, a[0]);
      if r.Some? { RunAppend(cfg, apply, empty, r.value, a[1..], b); }
    }
  }

  lemma RunOne<D, C>(cfg: Config, apply: (D, C) -> D, empty: D, s: State<D, C>, a: Step<D, C>)
    ensures Run(cfg, apply, empty, s, [a]) == Next(cfg, apply, empty, s, a)
  {
    hide Next;
    assert [a][1..] == [];
  }

  /** After the fork the new INCR file is listed and written, and the child holds the dataset. */
  function Forked<D, C>(cfg: Config, s: State<D, C>, start: int): State<D, C> {
    var am := NewIncr(s.mem, cfg.aofName, start);
    s.(disk := s.disk[Last(am) := Log([])], persisted := am, mem := am, fd := Some(Last(am)),
       child := Some(Child(s.data, false)))
  }

  lemma ForkRun<D, C>(cfg: Config, apply: (D, C) -> D, empty: D, s: State<D, C>, start: int)
    requires s.aof.On? && s.phase.Idle? && s.child.None?
    ensures Run(cfg, apply, empty, s, [OpenIncr(true, start), PersistIncr(Stored), Fork(true)])
         == Some(Forked(cfg, s, start))
  {
    hide IncrName, Run;
    var am := NewIncr(s.mem, cfg.aofName, start);
    var s1 := s.(disk := s.disk[Last(am) := Log([])], phase := Opened(am));
    var s2 := s1.(persisted := am, mem := am, phase := ReadyToFork, fd := Some(Last(am)));
    RunThree(cfg, apply, empty, s, OpenIncr(true, start), PersistIncr(Stored), Fork(true), s1, s2,
             Forked(cfg, s, start));
  }

  /** After the renames the snapshot is the new BASE. */
  function Renamed<D, C>(cfg: Config, s: State<D, C>): State<D, C>
    requires s.child.Some?
  {
    var am := NewBase(s.mem, cfg.aofName, cfg.rdb);
    s.(disk := s.disk[am.base.value.name := Snapshot(s.child.value.snapshot)],
       child := Some(s.child.value.(saved := true)), phase := IncrRenamed(am))
  }

  lemma RenameRun<D, C>(cfg: Config, apply: (D, C) -> D, empty: D, s: State<D, C>)
    requires s.aof.On? && s.phase.Idle? && s.child.Some?
    ensures Run(cfg, apply, empty, s, [ChildSaves, RenameBase(true), RenameIncr(true, 0)]) == Some(Renamed(cfg, s))
  {
    hide BaseName, Run;
    var am := NewBase(s.mem, cfg.aofName, cfg.rdb);
    var s1 := s.(child := Some(s.child.value.(saved := true)));
    var s2 := s1.(disk := s.disk[am.base.value.name := Snapshot(s.child.value.snapshot)], phase := BaseRenamed(am));
    RunThree(cfg, apply, empty, s, ChildSaves, RenameBase(true), RenameIncr(true, 0), s1, s2, Renamed(cfg, s));
  }

  lemma ResidueRun<D, C>(cfg: Config, apply: (D, C) -> D, empty: D, s: State<D, C>, start: int)
    requires s.aof.On? && s.phase.Idle? && s.child.None?
    ensures Run(cfg, apply, empty, s, WholeRewrite<D, C>(start)) == Some(Rewritten(cfg, s, start))
  {
    hide BaseName, IncrName, Run, Next, MarkRewritten;
    var s3 := Forked(cfg, s, start);
    var s6 := Renamed(cfg, s3);
    ForkRun(cfg, apply, empty, s, start);
    RenameRun(cfg, apply, empty, s3);
    RunOne(cfg, apply, empty, s6, PersistRewrite(Stored));
    PersistStep(cfg, apply, empty, s6);
    var a: seq<Step<D, C>> := [OpenIncr(true, start), PersistIncr(Stored), Fork(true)];
    var b: seq<Step<D, C>> := [ChildSaves, RenameBase(true), RenameIncr(true, 0)];
    RunAppend(cfg, apply, empty, s, a + b, [PersistRewrite(Stored)]);
    RunAppend(cfg, apply, empty, s, a, b);
  }
}
