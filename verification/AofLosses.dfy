/** Three runs in which a file of the manifest is lost or an old one comes back: the conditions on runs rule
    out nothing else, and each of them is needed. */
module AofLosses {
  import opened CString
  import opened AofManifest
  import opened AofProtocol
  import opened AofRewrite
  import opened AofRestart

  lemma RunTwice<D, C>(cfg: Config, apply: (D, C) -> D, empty: D, s: State<D, C>, a: seq<Step<D, C>>,
                       b: seq<Step<D, C>>, s1: State<D, C>, s2: State<D, C>)
    requires Run(cfg, apply, empty, s, a) == Some(s1) && Run(cfg, apply, empty, s1, b) == Some(s2)
    ensures Run(cfg, apply, empty, s, a + b) == Some(s2)
  {
    hide Run;
    RunAppend(cfg, apply, empty, s, a, b);
  }

  // ----- a file an interrupted rewrite left behind -----

  function FirstBase(cfg: Config): string { BaseName(cfg.aofName, 1, cfg.rdb) }
  function FirstIncr(cfg: Config): string { IncrName(cfg.aofName, 1) }

  lemma FirstNames(cfg: Config, start: int)
    ensures FirstBase(cfg) != FirstIncr(cfg) && FirstBase(cfg) != TempIncr(cfg) && FirstIncr(cfg) != TempIncr(cfg)
    ensures NewBase(EMPTY, cfg.aofName, cfg.rdb).base.value.name == FirstBase(cfg)
    ensures NewBase(EMPTY, cfg.aofName, cfg.rdb).incr == []
    ensures NextIncrName(cfg, NewBase(EMPTY, cfg.aofName, cfg.rdb)) == FirstIncr(cfg)
  {
    hide BaseName, IncrName, TempIncr;
    NamesDiffer(cfg.aofName, 1, 1, cfg.rdb, cfg.rdb);
    TempIsNotIssued(cfg, 1, cfg.rdb);
  }

  /** The file is enabled and a command logged while the child saves. */
  function Enabling<D, C>(cfg: Config, apply: (D, C) -> D, empty: D, c: C): State<D, C> {
    State(WaitRewrite, apply(empty, c), EMPTY, EMPTY, map[TempIncr(cfg) := Log([c])], [], Some(TempIncr(cfg)),
          Some(Child(empty, true)), Idle)
  }

  function EnableSteps<D, C>(c: C, start: int): seq<Step<D, C>> {
    [StartAppendOnly, OpenIncr(true, start), Fork(true)] + [Command(c), Flush(1), ChildSaves]
  }

  lemma EnableRun<D, C>(cfg: Config, apply: (D, C) -> D, empty: D, c: C, start: int)
    ensures Run(cfg, apply, empty, StartOff(empty), EnableSteps(c, start)) == Some(Enabling(cfg, apply, empty, c))
  {
    hide Run, TempIncr;
    var s := StartOff<D, C>(empty);
    var s1 := s.(aof := WaitRewrite);
    var s2 := s1.(disk := map[TempIncr(cfg) := Log([])], fd := Some(TempIncr(cfg)), phase := ReadyToFork);
    var s3 := s2.(phase := Idle, child := Some(Child(empty, false)));
    RunThree(cfg, apply, empty, s, StartAppendOnly, OpenIncr(true, start), Fork(true), s1, s2, s3);
    var s4 := s3.(data := apply(empty, c), buf := [c]);
    var s5 := s4.(disk := map[TempIncr(cfg) := Log([c])], buf := []);
    var none: seq<C> := [];
    assert s4.buf[..1] == [c] && s4.buf[1..] == none && none + [c] == [c];
    assert s4.disk[TempIncr(cfg) := Log([c])] == s5.disk;
    RunThree(cfg, apply, empty, s3, Command(c), Flush(1), ChildSaves, s4, s5, Enabling(cfg, apply, empty, c));
    RunTwice(cfg, apply, empty, s, [StartAppendOnly, OpenIncr(true, start), Fork(true)],
             [Command(c), Flush(1), ChildSaves], s3, Enabling(cfg, apply, empty, c));
  }

  /** The process dies with both new files renamed but in no manifest; the next one starts from nothing. */
  function Again<D, C>(cfg: Config, empty: D, c: C): State<D, C> {
    State(On, empty, EMPTY, EMPTY, map[FirstIncr(cfg) := Log([c]), FirstBase(cfg) := Snapshot(empty)], [], None, None,
          BaseMade(NewBase(EMPTY, cfg.aofName, cfg.rdb)))
  }

  function CrashSteps<D, C>(empty: D, start: int): seq<Step<D, C>> {
    [RenameBase(true), RenameIncr(true, start), Restart(true, false, empty)] + [BootBase]
  }

  lemma CrashRun<D, C>(cfg: Config, apply: (D, C) -> D, empty: D, c: C, start: int)
    ensures Run(cfg, apply, empty, Enabling(cfg, apply, empty, c), CrashSteps(empty, start))
         == Some(Again(cfg, empty, c))
  {
    hide Run, TempIncr, BaseName, IncrName, FirstBase, FirstIncr, Next;
    FirstNames(cfg, start);
    var s := Enabling(cfg, apply, empty, c);
    var s3 := Orphaned<D, C>(cfg, empty, c);
    RenamesThenCrash(cfg, apply, empty, c, start);
    StartsOver(cfg, apply, empty, c);
    RunTwice(cfg, apply, empty, s, [RenameBase(true), RenameIncr(true, start), Restart(true, false, empty)],
             [BootBase], s3, Again(cfg, empty, c));
  }

  function Orphaned<D, C>(cfg: Config, empty: D, c: C): State<D, C> {
    State(On, empty, EMPTY, EMPTY, map[FirstBase(cfg) := Snapshot(empty), FirstIncr(cfg) := Log([c])], [], None, None,
          Loaded)
  }

  lemma RenamesThenCrash<D, C>(cfg: Config, apply: (D, C) -> D, empty: D, c: C, start: int)
    ensures Run(cfg, apply, empty, Enabling(cfg, apply, empty, c),
                [RenameBase(true), RenameIncr(true, start), Restart(true, false, empty)])
         == Some(Orphaned(cfg, empty, c))
  {
    hide Run, TempIncr, BaseName, IncrName, FirstBase, FirstIncr;
    FirstNames(cfg, start);
    var s := Enabling(cfg, apply, empty, c);
    var am := NewBase(EMPTY, cfg.aofName, cfg.rdb);
    var s1 := s.(disk := s.disk[FirstBase(cfg) := Snapshot(empty)], phase := BaseRenamed(am));
    var s2 := s1.(disk := Orphaned(cfg, empty, c).disk, fd := Some(FirstIncr(cfg)),
                  phase := IncrRenamed(NewIncr(am, cfg.aofName, start)));
    assert (s1.disk - {TempIncr(cfg)})[FirstIncr(cfg) := Log([c])] == s2.disk;
    RunThree(cfg, apply, empty, s, RenameBase(true), RenameIncr(true, start), Restart(true, false, empty), s1, s2,
             Orphaned(cfg, empty, c));
  }

  lemma StartsOver<D, C>(cfg: Config, apply: (D, C) -> D, empty: D, c: C)
    ensures Run(cfg, apply, empty, Orphaned(cfg, empty, c), [BootBase]) == Some(Again(cfg, empty, c))
  {
    hide Run, BaseName, IncrName, FirstBase, FirstIncr;
    FirstNames(cfg, 0);
    var s := Orphaned<D, C>(cfg, empty, c);
    assert s.disk[FirstBase(cfg) := Snapshot(empty)] == Again(cfg, empty, c).disk;
    RunOne(cfg, apply, empty, s, BootBase);
  }

  /** A crash between the renames and the manifest, when the file is enabled for the first time, brings the
      commands of the dead process back at the start after next: the new process takes the renamed file for
      its own and appends to it, but has not replayed it. */
  lemma LeftoverReplayed<D, C>(cfg: Config, apply: (D, C) -> D, empty: D, c: C, start: int)
    requires apply(empty, c) != empty
    ensures var steps := EnableSteps<D, C>(c, start) + CrashSteps(empty, start)
                         + [BootIncr(start), BootPersist(Stored)];
      var r := Run(cfg, apply, empty, StartOff(empty), steps);
      && r.Some? && r.value.aof.On? && r.value.data == empty
      && !Durable(apply, empty, r.value.mem, r.value.disk, r.value.buf, r.value.data)
  {
    hide Run, Next, TempIncr, BaseName, IncrName, EnableSteps, CrashSteps, Durable;
    EnableRun(cfg, apply, empty, c, start);
    CrashRun(cfg, apply, empty, c, start);
    var s := Again(cfg, empty, c);
    RunTwice(cfg, apply, empty, StartOff(empty), EnableSteps(c, start), CrashSteps(empty, start),
             Enabling(cfg, apply, empty, c), s);
    FirstNames(cfg, start);
    ReplayBase(apply, empty, s.phase.am, s.disk);
    BootReplays(cfg, apply, empty, s, start);
    RunAppend(cfg, apply, empty, StartOff(empty), EnableSteps<D, C>(c, start) + CrashSteps(empty, start),
              [BootIncr(start), BootPersist(Stored)]);
    assert Apply(apply, empty, [c]) == apply(empty, c) by {
      ApplyOne(apply, empty, [], c);
      assert [] + [c] == [c];
    }
  }

  // ----- a server that starts with the file on -----

  function First(cfg: Config, start: int): Manifest {
    NewIncr(NewBase(EMPTY, cfg.aofName, cfg.rdb), cfg.aofName, start)
  }

  function Begun<D, C>(cfg: Config, empty: D, start: int): State<D, C> {
    State(On, empty, First(cfg, start), First(cfg, start),
          map[FirstBase(cfg) := Snapshot(empty), FirstIncr(cfg) := Log([])], [], Some(FirstIncr(cfg)), None, Idle)
  }

  function BeginSteps<D, C>(empty: D, start: int): seq<Step<D, C>> {
    [Restart(true, false, empty), BootBase, BootIncr(start)] + ([BootPersist(Stored)] + [Finish(true)])
  }

  lemma BeginRun<D, C>(cfg: Config, apply: (D, C) -> D, empty: D, start: int)
    ensures Run(cfg, apply, empty, StartOff(empty), BeginSteps(empty, start)) == Some(Begun(cfg, empty, start))
  {
    hide Run, BaseName, IncrName, FirstBase, FirstIncr;
    FirstNames(cfg, start);
    var s := StartOff<D, C>(empty);
    var am := NewBase(EMPTY, cfg.aofName, cfg.rdb);
    var s1 := s.(aof := On, phase := Loaded);
    var s2 := s1.(disk := map[FirstBase(cfg) := Snapshot(empty)], phase := BaseMade(am));
    var s3 := Begun<D, C>(cfg, empty, start).(mem := EMPTY, persisted := EMPTY, phase := Booted(First(cfg, start)));
    OpenedNext(cfg, am, start);
    RunThree(cfg, apply, empty, s, Restart(true, false, empty), BootBase, BootIncr(start), s1, s2, s3);
    BeginRest(cfg, apply, empty, start, s3);
    RunTwice(cfg, apply, empty, s, [Restart(true, false, empty), BootBase, BootIncr(start)],
             [BootPersist(Stored)] + [Finish(true)], s3, Begun(cfg, empty, start));
  }

  lemma OpenedNext(cfg: Config, am: Manifest, start: int)
    ensures Last(NewIncr(am, cfg.aofName, start)) == NextIncrName(cfg, am)
  {
    hide IncrName;
  }

  lemma BeginRest<D, C>(cfg: Config, apply: (D, C) -> D, empty: D, start: int, s: State<D, C>)
    requires s == Begun<D, C>(cfg, empty, start).(mem := EMPTY, persisted := EMPTY, phase := Booted(First(cfg, start)))
    ensures Run(cfg, apply, empty, s, [BootPersist(Stored)] + [Finish(true)]) == Some(Begun(cfg, empty, start))
  {
    hide Run, BaseName, IncrName;
    var s' := Begun<D, C>(cfg, empty, start).(phase := Deleting);
    RunOne(cfg, apply, empty, s, BootPersist(Stored));
    RunOne(cfg, apply, empty, s', Finish(true));
    RunTwice(cfg, apply, empty, s, [BootPersist(Stored)], [Finish(true)], s', Begun(cfg, empty, start));
  }

  // ----- numbers that start over -----

  function SecondBase(cfg: Config): string { BaseName(cfg.aofName, 2, cfg.rdb) }

  /** The manifest of a rewrite with the file off: one BASE, and the rest is history. */
  function OffRewritten(cfg: Config, start: int): Manifest {
    MarkRewritten(NewBase(First(cfg, start), cfg.aofName, cfg.rdb), false)
  }

  lemma OffRewrittenIs(cfg: Config, start: int)
    ensures var am := OffRewritten(cfg, start);
      && am.base.Some? && am.base.value.name == SecondBase(cfg) && am.incr == []
      && am.hist != [] && am.hist[0].name == FirstIncr(cfg)
      && Reloaded(am).incrSeq == 0
  {
    hide BaseName, IncrName;
  }

  lemma SecondNames(cfg: Config)
    ensures SecondBase(cfg) != FirstIncr(cfg)
  {
    hide BaseName, IncrName;
    NamesDiffer(cfg.aofName, 2, 1, cfg.rdb, cfg.rdb);
  }

  function TurnedOff<D, C>(cfg: Config, empty: D, start: int): State<D, C> {
    Begun<D, C>(cfg, empty, start).(aof := Off, fd := None, child := Some(Child(empty, false)))
  }

  lemma TurnOffRun<D, C>(cfg: Config, apply: (D, C) -> D, empty: D, start: int)
    ensures Run(cfg, apply, empty, Begun(cfg, empty, start), [StopAppendOnly(true), OpenIncr(true, start), Fork(true)])
         == Some(TurnedOff(cfg, empty, start))
  {
    hide Run, First, FirstBase, FirstIncr;
    var s := Begun<D, C>(cfg, empty, start);
    var s1 := s.(aof := Off, fd := None);
    RunThree(cfg, apply, empty, s, StopAppendOnly(true), OpenIncr(true, start), Fork(true), s1,
             s1.(phase := ReadyToFork), TurnedOff(cfg, empty, start));
  }

  function OffRenamed<D, C>(cfg: Config, empty: D, start: int): State<D, C> {
    var s := TurnedOff<D, C>(cfg, empty, start);
    s.(child := Some(Child(empty, true)), disk := s.disk[SecondBase(cfg) := Snapshot(empty)],
       phase := IncrRenamed(NewBase(First(cfg, start), cfg.aofName, cfg.rdb)))
  }

  lemma OffRenameRun<D, C>(cfg: Config, apply: (D, C) -> D, empty: D, start: int)
    ensures Run(cfg, apply, empty, TurnedOff(cfg, empty, start),
                [ChildSaves, RenameBase(true), RenameIncr(true, start)])
         == Some(OffRenamed(cfg, empty, start))
  {
    hide Run, BaseName, IncrName;
    var s := TurnedOff<D, C>(cfg, empty, start);
    var s1 := s.(child := Some(Child(empty, true)));
    var s3 := OffRenamed<D, C>(cfg, empty, start);
    RunThree(cfg, apply, empty, s, ChildSaves, RenameBase(true), RenameIncr(true, start), s1,
             s3.(phase := BaseRenamed(s3.phase.am)), s3);
  }

  function OffRestarted<D, C>(cfg: Config, empty: D, start: int): State<D, C> {
    var am := OffRewritten(cfg, start);
    State(On, empty, Reloaded(am), am, OffRenamed<D, C>(cfg, empty, start).disk, [], None, None, BaseMade(Reloaded(am)))
  }

  lemma OffRestartRun<D, C>(cfg: Config, apply: (D, C) -> D, empty: D, start: int)
    ensures Run(cfg, apply, empty, OffRenamed(cfg, empty, start),
                [PersistRewrite(Stored), Restart(true, false, empty), BootBase])
         == Some(OffRestarted(cfg, empty, start))
  {
    hide Run, BaseName, IncrName, MarkRewritten, FirstBase, FirstIncr, SecondBase, First, OffRewritten;
    var s := OffRenamed<D, C>(cfg, empty, start);
    var am := OffRewritten(cfg, start);
    OffRewrittenIs(cfg, start);
    OffRewrittenOf(cfg, start);
    SecondBaseOf(cfg, start);
    var s1 := s.(persisted := am, mem := am, phase := Deleting);
    ReplayBase(apply, empty, am, s1.disk);
    var s3 := OffRestarted<D, C>(cfg, empty, start);
    PersistStep(cfg, apply, empty, s);
    RunThree(cfg, apply, empty, s, PersistRewrite(Stored), Restart(true, false, empty), BootBase, s1,
             s3.(phase := Loaded), s3);
  }

  lemma OffRewrittenOf(cfg: Config, start: int)
    ensures OffRewritten(cfg, start) == MarkRewritten(NewBase(First(cfg, start), cfg.aofName, cfg.rdb), false)
  {
  }

  lemma SecondBaseOf(cfg: Config, start: int)
    ensures NewBase(First(cfg, start), cfg.aofName, cfg.rdb).base.value.name == SecondBase(cfg)
  {
    hide BaseName, IncrName;
  }

  function NumberSteps<D, C>(empty: D, start: int): seq<Step<D, C>> {
    [StopAppendOnly(true), OpenIncr(true, start), Fork(true)]
    + ([ChildSaves, RenameBase(true), RenameIncr(true, start)]
       + [PersistRewrite(Stored), Restart(true, false, empty), BootBase])
  }

  lemma NumberRun<D, C>(cfg: Config, apply: (D, C) -> D, empty: D, start: int)
    ensures Run(cfg, apply, empty, StartOff(empty), BeginSteps<D, C>(empty, start) + NumberSteps(empty, start))
         == Some(OffRestarted(cfg, empty, start))
  {
    hide Run, Begun, TurnedOff, OffRenamed, OffRestarted, BeginSteps;
    var b, t := Begun<D, C>(cfg, empty, start), TurnedOff<D, C>(cfg, empty, start);
    var n, e := OffRenamed<D, C>(cfg, empty, start), OffRestarted<D, C>(cfg, empty, start);
    BeginRun(cfg, apply, empty, start);
    TurnOffRun(cfg, apply, empty, start);
    OffRenameRun(cfg, apply, empty, start);
    OffRestartRun(cfg, apply, empty, start);
    var last: seq<Step<D, C>> := [PersistRewrite(Stored), Restart(true, false, empty), BootBase];
    RunTwice(cfg, apply, empty, t, [ChildSaves, RenameBase(true), RenameIncr(true, start)], last, n, e);
    RunTwice(cfg, apply, empty, b, [StopAppendOnly(true), OpenIncr(true, start), Fork(true)],
             [ChildSaves, RenameBase(true), RenameIncr(true, start)] + last, t, e);
    RunTwice(cfg, apply, empty, StartOff(empty), BeginSteps(empty, start), NumberSteps(empty, start), b, e);
  }

  /** A rewrite with the file off makes all INCR files history. If the process dies before they are unlinked,
      the next one numbers INCR files from one again, takes the name of a history file for the file it
      writes, and unlinks it. */
  lemma NewFileUnlinked<D, C>(cfg: Config, apply: (D, C) -> D, empty: D, start: int)
    requires !cfg.disableGc
    ensures var steps := BeginSteps<D, C>(empty, start) + NumberSteps(empty, start)
                         + [BootIncr(start), BootPersist(Stored)] + Deletes(|OffRewritten(cfg, start).hist|);
      var r := Run(cfg, apply, empty, StartOff(empty), steps);
      && r.Some? && r.value.aof.On? && r.value.mem.incr != [] && r.value.fd == Some(Last(r.value.mem))
      && !AllPresent(r.value.mem, r.value.disk)
  {
    hide Run, Next, BaseName, IncrName, BeginSteps, NumberSteps, MarkRewritten, First, OffRewritten, Deletes;
    var s := OffRestarted<D, C>(cfg, empty, start);
    var begin := BeginSteps<D, C>(empty, start) + NumberSteps(empty, start);
    NumberRun(cfg, apply, empty, start);
    OffRewrittenIs(cfg, start);
    BootRun(cfg, apply, empty, s, start);
    var boot: seq<Step<D, C>> := [BootIncr(start), BootPersist(Stored)];
    var s' := Run(cfg, apply, empty, s, boot).value;
    RunTwice(cfg, apply, empty, StartOff(empty), begin, boot, s, s');
    StillThere<D, C>(cfg, empty, start);
    ClashingBoot(cfg, s.phase.am, start, s'.disk);
    DeletionKeeps(cfg, apply, empty, s');
    RunAppend(cfg, apply, empty, StartOff(empty), begin + boot, Deletes(|s'.mem.hist|));
  }

  lemma StillThere<D, C>(cfg: Config, empty: D, start: int)
    ensures var disk := OffRestarted<D, C>(cfg, empty, start).disk;
      && FirstIncr(cfg) in disk && disk[FirstIncr(cfg)].Log?
      && SecondBase(cfg) in disk && disk[SecondBase(cfg)].Snapshot?
  {
    hide BaseName, IncrName, FirstBase, FirstIncr, SecondBase;
    SecondNames(cfg);
  }

  lemma ClashingBoot<D, C>(cfg: Config, am: Manifest, start: int, disk: map<string, Content<D, C>>)
    requires am.base.Some? && am.incr == [] && am.hist != [] && am.hist[0].name == NextIncrName(cfg, am)
    requires am.base.value.name in disk && disk[am.base.value.name].Snapshot?
    requires NextIncrName(cfg, am) in disk && disk[NextIncrName(cfg, am)].Log?
    ensures var r := NewIncr(am, cfg.aofName, start); AllPresent(r, disk) && !Apart(r)
  {
    hide IncrName;
    var r := NewIncr(am, cfg.aofName, start);
    assert r.incr[0].name == r.hist[0].name;
    assert Reads(r, r.hist[0].name);
  }

  // ----- an INCR file only the manifest on disk knows -----

  function SecondIncr(cfg: Config): string { IncrName(cfg.aofName, 2) }

  function Trailed<D, C>(cfg: Config, empty: D, start: int): State<D, C> {
    var s := Begun<D, C>(cfg, empty, start);
    s.(aof := Off, fd := None, disk := s.disk[SecondIncr(cfg) := Log([])],
       persisted := NewIncr(First(cfg, start), cfg.aofName, start))
  }

  lemma TrailRun<D, C>(cfg: Config, apply: (D, C) -> D, empty: D, start: int)
    ensures Run(cfg, apply, empty, Begun(cfg, empty, start),
                [OpenIncr(true, start), PersistIncr(StoredButReported), StopAppendOnly(false)])
         == Some(Trailed(cfg, empty, start))
  {
    hide Run, BaseName, IncrName;
    var s := Begun<D, C>(cfg, empty, start);
    var am := NewIncr(First(cfg, start), cfg.aofName, start);
    assert Last(am) == SecondIncr(cfg);
    var s1 := s.(disk := s.disk[SecondIncr(cfg) := Log([])], phase := Opened(am));
    RunThree(cfg, apply, empty, s, OpenIncr(true, start), PersistIncr(StoredButReported), StopAppendOnly(false), s1,
             s1.(persisted := am, phase := Idle), Trailed(cfg, empty, start));
  }

  function TrailForked<D, C>(cfg: Config, empty: D, start: int): State<D, C> {
    var s := Trailed<D, C>(cfg, empty, start);
    s.(aof := WaitRewrite, disk := s.disk[TempIncr(cfg) := Log([])], fd := Some(TempIncr(cfg)),
       child := Some(Child(empty, false)))
  }

  lemma TrailForkRun<D, C>(cfg: Config, apply: (D, C) -> D, empty: D, start: int)
    ensures Run(cfg, apply, empty, Trailed(cfg, empty, start), [StartAppendOnly, OpenIncr(true, start), Fork(true)])
         == Some(TrailForked(cfg, empty, start))
  {
    hide Run, First, FirstBase, FirstIncr, SecondIncr, TempIncr;
    var s := Trailed<D, C>(cfg, empty, start);
    var s3 := TrailForked<D, C>(cfg, empty, start);
    RunThree(cfg, apply, empty, s, StartAppendOnly, OpenIncr(true, start), Fork(true), s.(aof := WaitRewrite),
             s3.(child := None, phase := ReadyToFork), s3);
  }

  function TrailRenamed<D, C>(cfg: Config, empty: D, start: int): State<D, C> {
    var s := TrailForked<D, C>(cfg, empty, start);
    var am := NewBase(First(cfg, start), cfg.aofName, cfg.rdb);
    var disk := s.disk[SecondBase(cfg) := Snapshot(empty)];
    s.(child := Some(Child(empty, true)), disk := (disk - {TempIncr(cfg)})[SecondIncr(cfg) := Log([])],
       fd := Some(SecondIncr(cfg)), phase := IncrRenamed(NewIncr(am, cfg.aofName, start)))
  }

  lemma TrailRenameRun<D, C>(cfg: Config, apply: (D, C) -> D, empty: D, start: int)
    ensures Run(cfg, apply, empty, TrailForked(cfg, empty, start),
                [ChildSaves, RenameBase(true), RenameIncr(true, start)])
         == Some(TrailRenamed(cfg, empty, start))
  {
    hide Run, BaseName, IncrName, TempIncr, FirstBase, FirstIncr;
    var s := TrailForked<D, C>(cfg, empty, start);
    var am := NewBase(First(cfg, start), cfg.aofName, cfg.rdb);
    var s1 := s.(child := Some(Child(empty, true)));
    var s2 := s1.(disk := s.disk[SecondBase(cfg) := Snapshot(empty)], phase := BaseRenamed(am));
    TempIsNotIssued(cfg, 2, cfg.rdb);
    assert s2.disk[TempIncr(cfg)] == Log([]);
    RunThree(cfg, apply, empty, s, ChildSaves, RenameBase(true), RenameIncr(true, start), s1, s2,
             TrailRenamed(cfg, empty, start));
  }

  function TrailSteps<D, C>(start: int): seq<Step<D, C>> {
    [OpenIncr(true, start), PersistIncr(StoredButReported), StopAppendOnly(false)]
    + ([StartAppendOnly, OpenIncr(true, start), Fork(true)] + [ChildSaves, RenameBase(true), RenameIncr(true, start)])
  }

  lemma TrailedRun<D, C>(cfg: Config, apply: (D, C) -> D, empty: D, start: int)
    ensures Run(cfg, apply, empty, StartOff(empty), BeginSteps<D, C>(empty, start) + TrailSteps(start))
         == Some(TrailRenamed(cfg, empty, start))
  {
    hide Run, Begun, Trailed, TrailForked, TrailRenamed, BeginSteps;
    var b, t := Begun<D, C>(cfg, empty, start), Trailed<D, C>(cfg, empty, start);
    var f, e := TrailForked<D, C>(cfg, empty, start), TrailRenamed<D, C>(cfg, empty, start);
    BeginRun(cfg, apply, empty, start);
    TrailRun(cfg, apply, empty, start);
    TrailForkRun(cfg, apply, empty, start);
    TrailRenameRun(cfg, apply, empty, start);
    var last: seq<Step<D, C>> := [ChildSaves, RenameBase(true), RenameIncr(true, start)];
    RunTwice(cfg, apply, empty, t, [StartAppendOnly, OpenIncr(true, start), Fork(true)], last, f, e);
    RunTwice(cfg, apply, empty, b, [OpenIncr(true, start), PersistIncr(StoredButReported), StopAppendOnly(false)],
             [StartAppendOnly, OpenIncr(true, start), Fork(true)] + last, t, e);
    RunTwice(cfg, apply, empty, StartOff(empty), BeginSteps(empty, start), TrailSteps(start), b, e);
  }

  /** The manifest that lists a new INCR file is in place, but reported as failed. If the file is then turned
      off and on, the rewrite gives its own INCR file the same name, and when its manifest cannot be persisted
      it unlinks a file the manifest on disk lists. */
  lemma TrailingUnlinked<D, C>(cfg: Config, apply: (D, C) -> D, empty: D, start: int)
    ensures var r := Run(cfg, apply, empty, StartOff(empty),
                         BeginSteps<D, C>(empty, start) + TrailSteps(start) + [PersistRewrite(NotStored)]);
      r.Some? && !AllPresent(r.value.persisted, r.value.disk)
  {
    hide Run, BaseName, IncrName, TempIncr, BeginSteps, TrailSteps, FirstBase, FirstIncr, SecondBase;
    var s := TrailRenamed<D, C>(cfg, empty, start);
    TrailedRun(cfg, apply, empty, start);
    RunOne(cfg, apply, empty, s, PersistRewrite(NotStored));
    RunAppend(cfg, apply, empty, StartOff(empty), BeginSteps<D, C>(empty, start) + TrailSteps(start),
              [PersistRewrite(NotStored)]);
    var s' := Next(cfg, apply, empty, s, PersistRewrite(NotStored)).value;
    assert s'.persisted.incr[1].name == SecondIncr(cfg) == Last(s.phase.am);
  }
}
