/** What every step of the append-only file protocol keeps: the files of both manifests are there, and with
    the file on they stand for the dataset. */
module AofRewrite {
  import opened CString
  import opened AofManifest
  import opened AofProtocol

  // ----- names -----

  lemma TempIsNotIssued(cfg: Config, n: int, rdb: bool)
    ensures TempIncr(cfg) != IncrName(cfg.aofName, n) && TempIncr(cfg) != BaseName(cfg.aofName, n, rdb)
  {
    var t, b, i := TempIncr(cfg), BaseName(cfg.aofName, n, rdb), IncrName(cfg.aofName, n);
    assert t[|t| - 1] == 'r';
    assert b[|b| - 1] == 'b' || b[|b| - 1] == 'f';
    assert i[|i| - 1] == 'f';
  }

  lemma TempApart(cfg: Config, am: Manifest)
    requires Live(am, cfg.aofName)
    ensures !Reads(am, TempIncr(cfg)) && TempIncr(cfg) != NextIncrName(cfg, am)
  {
    hide TempIncr, IncrName, BaseName;
    forall i | 0 <= i < |am.incr|
      ensures am.incr[i].name != TempIncr(cfg)
    {
      TempIsNotIssued(cfg, am.incr[i].fileSeq, true);
    }
    TempIsNotIssued(cfg, am.baseSeq, true);
    TempIsNotIssued(cfg, am.baseSeq, false);
    TempIsNotIssued(cfg, am.incrSeq + 1, true);
  }

  lemma LastIsRead(am: Manifest)
    requires am.incr != []
    ensures Reads(am, Last(am))
  {
  }

  // ----- replay only looks at the listed files -----

  /** The files a load of `am` reads are the same on both disks. */
  ghost predicate SameFiles<D, C>(am: Manifest, disk: map<string, Content<D, C>>,
                                  disk': map<string, Content<D, C>>) {
    forall name :: Reads(am, name) && name in disk ==> name in disk' && disk'[name] == disk[name]
  }

  lemma {:induction false} ReplayLogsFrame<D, C>(apply: (D, C) -> D, d: D, disk: map<string, Content<D, C>>,
                                                 disk': map<string, Content<D, C>>, infos: seq<Info>)
    requires LogsPresent(infos, disk)
    requires forall i :: 0 <= i < |infos| ==>
               infos[i].name in disk' && disk'[infos[i].name] == disk[infos[i].name]
    ensures LogsPresent(infos, disk')
    ensures ReplayLogs(apply, d, disk, infos) == ReplayLogs(apply, d, disk', infos)
    decreases |infos|
  {
    hide Apply;
    if infos != [] {
      ReplayLogsFrame(apply, d, disk, disk', infos[..|infos| - 1]);
    }
  }

  /** Changing files the manifest does not list as BASE or INCR changes nothing. */
  lemma ReplayFrame<D, C>(apply: (D, C) -> D, empty: D, am: Manifest, disk: map<string, Content<D, C>>,
                          disk': map<string, Content<D, C>>)
    requires AllPresent(am, disk) && SameFiles(am, disk, disk')
    ensures AllPresent(am, disk') && Replay(apply, empty, am, disk') == Replay(apply, empty, am, disk)
  {
    hide ReplayLogs;
    var d := if am.base.Some? then disk[am.base.value.name].d else empty;
    forall i | 0 <= i < |am.incr|
      ensures am.incr[i].name in disk' && disk'[am.incr[i].name] == disk[am.incr[i].name]
    {
      assert Reads(am, am.incr[i].name);
    }
    assert am.base.Some? ==> Reads(am, am.base.value.name);
    ReplayLogsFrame(apply, d, disk, disk', am.incr);
  }

  /** Appending to the last INCR file is replayed last. */
  lemma ReplayAppend<D, C>(apply: (D, C) -> D, empty: D, am: Manifest, aofName: string,
                           disk: map<string, Content<D, C>>, cs: seq<C>)
    requires Live(am, aofName) && AllPresent(am, disk) && am.incr != []
    ensures var disk' := disk[Last(am) := Log(disk[Last(am)].cs + cs)];
      && AllPresent(am, disk')
      && Replay(apply, empty, am, disk') == Apply(apply, Replay(apply, empty, am, disk), cs)
  {
    hide Live, Apply, ReplayLogs, IncrName;
    var name, n := Last(am), |am.incr| - 1;
    var disk' := disk[name := Log(disk[name].cs + cs)];
    IncrsApart(am, aofName, am.incrSeq + 1);
    assert am.base.Some? ==> am.base.value.name != name;
    var d := if am.base.Some? then disk[am.base.value.name].d else empty;
    ReplayLogsFrame(apply, d, disk, disk', am.incr[..n]);
    ApplyAppend(apply, ReplayLogs(apply, d, disk, am.incr[..n]), disk[name].cs, cs);
    LastLog(apply, d, disk, am.incr);
    LastLog(apply, d, disk', am.incr);
  }

  lemma LastLog<D, C>(apply: (D, C) -> D, d: D, disk: map<string, Content<D, C>>, infos: seq<Info>)
    requires LogsPresent(infos, disk) && infos != []
    ensures var n := |infos| - 1;
      ReplayLogs(apply, d, disk, infos) == Apply(apply, ReplayLogs(apply, d, disk, infos[..n]), disk[infos[n].name].cs)
  {
    hide Apply;
  }

  /** A new INCR file at the end of the list is replayed last. */
  lemma ReplayNewIncr<D, C>(apply: (D, C) -> D, empty: D, am: Manifest, am': Manifest, disk: map<string, Content<D, C>>)
    requires AllPresent(am, disk)
    requires am'.incr != [] && am'.incr[..|am'.incr| - 1] == am.incr && am'.base == am.base
    requires Last(am') in disk && disk[Last(am')].Log?
    ensures AllPresent(am', disk)
    ensures Replay(apply, empty, am', disk) == Apply(apply, Replay(apply, empty, am, disk), disk[Last(am')].cs)
  {
    hide Apply;
    forall i | 0 <= i < |am'.incr|
      ensures am'.incr[i].name in disk && disk[am'.incr[i].name].Log?
    {
      assert i < |am.incr| ==> am'.incr[i] == am.incr[i];
    }
  }

  lemma ApplyNone<D, C>(apply: (D, C) -> D, d: D)
    ensures Apply(apply, d, []) == d
  {
  }

  // ----- the invariant -----

  predicate Booting<D, C>(s: State<D, C>) { s.phase.Loaded? || s.phase.BaseMade? || s.phase.Booted? }

  /** From here on the files on disk stand for the dataset, and the last of them is being written. */
  ghost predicate Promised<D, C>(s: State<D, C>) {
    (s.aof.On? && !Booting(s)) || (s.aof.WaitRewrite? && s.phase.Deleting?)
  }

  /** Replaying what the manifest lists, then the buffer, gives the dataset. */
  ghost predicate Durable<D, C>(apply: (D, C) -> D, empty: D, am: Manifest, disk: map<string, Content<D, C>>,
                                buf: seq<C>, data: D) {
    AllPresent(am, disk) && Apply(apply, Replay(apply, empty, am, disk), buf) == data
  }

  /** The file `name` has collected everything since the fork that the buffer does not hold. */
  ghost predicate Collects<D, C>(apply: (D, C) -> D, child: Option<Child<D>>, disk: map<string, Content<D, C>>,
                                 fd: Option<string>, buf: seq<C>, data: D, name: string) {
    && child.Some?
    && name in disk && disk[name].Log? && fd == Some(name)
    && Apply(apply, child.value.snapshot, disk[name].cs + buf) == data
  }

  ghost predicate CollectsIn<D, C>(apply: (D, C) -> D, s: State<D, C>, name: string) {
    Collects(apply, s.child, s.disk, s.fd, s.buf, s.data, name)
  }

  ghost predicate ChildInv<D, C>(cfg: Config, apply: (D, C) -> D, s: State<D, C>) {
    && (s.child.Some? && s.aof.On? && !s.phase.Deleting? ==> s.mem.incr != [] && CollectsIn(apply, s, Last(s.mem)))
    && (s.child.Some? && s.aof.WaitRewrite? && (s.phase.Idle? || s.phase.BaseRenamed?) ==>
          CollectsIn(apply, s, TempIncr(cfg)))
    && (s.child.Some? && s.aof.WaitRewrite? && s.phase.IncrRenamed? ==>
          s.phase.am.incr != [] && CollectsIn(apply, s, Last(s.phase.am)))
  }

  ghost predicate HasFile<D, C>(disk: map<string, Content<D, C>>, name: string, content: Content<D, C>) {
    name in disk && disk[name] == content
  }

  /** The manifest on disk lists one more INCR file than the server knows: persisting it failed only after
      it was in place. */
  predicate Trailing(mem: Manifest, persisted: Manifest) { |persisted.incr| > |mem.incr| }

  ghost predicate TrailOk<D, C>(cfg: Config, on: bool, mem: Manifest, persisted: Manifest,
                                disk: map<string, Content<D, C>>) {
    && mem.incr != [] && persisted.incr != []
    && persisted.incr == NewIncr(mem, cfg.aofName, persisted.incr[|persisted.incr| - 1].startOffset).incr
    && Last(persisted) == NextIncrName(cfg, mem)
    && Last(persisted) in disk && disk[Last(persisted)].Log?
    && (on ==> disk[Last(persisted)] == Log([]))
  }

  predicate MayTrail(phase: Phase) {
    phase.Idle? || phase.Opened? || phase.ReadyToFork? || phase.BaseRenamed? || phase.IncrRenamed?
  }

  /** The two manifests list the same BASE and INCR files, but for a trailing one, and they are all there. */
  ghost predicate Agree<D, C>(cfg: Config, on: bool, phase: Phase, mem: Manifest, persisted: Manifest,
                              disk: map<string, Content<D, C>>) {
    && Live(mem, cfg.aofName)
    && AllPresent(mem, disk)
    && persisted.base == mem.base
    && (if Trailing(mem, persisted) then MayTrail(phase) && TrailOk(cfg, on, mem, persisted, disk)
        else persisted.incr == mem.incr)
  }

  /** History never holds a file that is read, and while files are made there is none. With the automatic
      deletion off, history is only ever listed. */
  ghost predicate HistInv(cfg: Config, phase: Phase, mem: Manifest, persisted: Manifest) {
    && (mem.base.None? ==> mem.hist == [] && persisted.hist == [])
    && (cfg.disableGc || (Apart(mem) && Apart(persisted) && (MayTrail(phase) ==> mem.hist == [])))
  }

  ghost predicate BootInv<D, C>(cfg: Config, apply: (D, C) -> D, empty: D, s: State<D, C>, am: Manifest) {
    && s.aof.On? && s.child.None? && s.buf == []
    && (s.mem.incr != [] ==> am.incr == s.mem.incr)
    && Live(am, cfg.aofName) && Durable(apply, empty, am, s.disk, s.buf, s.data)
    && am.base.Some? && (cfg.disableGc || Apart(am))
  }

  ghost predicate PhaseInv<D, C>(cfg: Config, apply: (D, C) -> D, empty: D, s: State<D, C>) {
    match s.phase
    case Idle => true
    case Opened(am) =>
      && s.aof.On? && s.child.None? && s.buf == []
      && am.incr != [] && am == NewIncr(s.mem, cfg.aofName, am.incr[|am.incr| - 1].startOffset)
      && HasFile(s.disk, Last(am), Log([]))
    case ReadyToFork =>
      && s.child.None? && s.buf == []
      && (s.aof.On? ==> s.mem.incr != [] && HasFile(s.disk, Last(s.mem), Log([])))
      && (s.aof.WaitRewrite? ==> HasFile(s.disk, TempIncr(cfg), Log([])) && s.fd == Some(TempIncr(cfg)))
    case BaseRenamed(am) =>
      && s.child.Some?
      && am == NewBase(s.mem, cfg.aofName, cfg.rdb)
      && HasFile(s.disk, am.base.value.name, Snapshot(s.child.value.snapshot))
    case IncrRenamed(am) =>
      && s.child.Some?
      && (if s.aof.WaitRewrite? then
            && am.incr != []
            && am == NewIncr(NewBase(s.mem, cfg.aofName, cfg.rdb), cfg.aofName, am.incr[|am.incr| - 1].startOffset)
          else am == NewBase(s.mem, cfg.aofName, cfg.rdb))
      && HasFile(s.disk, am.base.value.name, Snapshot(s.child.value.snapshot))
    case Deleting => true
    case Loaded => s.aof.On? && s.child.None? && s.buf == [] && s.fd.None?
    case BaseMade(am) => BootInv(cfg, apply, empty, s, am) && s.fd.None?
    case Booted(am) => BootInv(cfg, apply, empty, s, am) && am.incr != [] && s.fd == Some(Last(am))
    case Down => s.aof.Off? && s.child.None?
  }

  ghost predicate Inv<D, C>(cfg: Config, apply: (D, C) -> D, empty: D, s: State<D, C>) {
    && Agree(cfg, s.aof.On?, s.phase, s.mem, s.persisted, s.disk)
    && HistInv(cfg, s.phase, s.mem, s.persisted)
    && (s.mem.base.None? ==> s.mem.incr == [])
    && (s.aof.On? || Promised(s) ==> Durable(apply, empty, s.mem, s.disk, s.buf, s.data))
    && (Promised(s) ==> s.mem.incr != [] && s.fd == Some(Last(s.mem)))
    && (s.aof.Off? || (s.aof.WaitRewrite? && s.child.None?) ==> s.buf == [])
    && ChildInv(cfg, apply, s)
    && PhaseInv(cfg, apply, empty, s)
  }

  // ----- every step keeps it -----

  lemma ApplyOne<D, C>(apply: (D, C) -> D, d: D, cs: seq<C>, c: C)
    ensures Apply(apply, d, cs + [c]) == apply(Apply(apply, d, cs), c)
  {
    assert (cs + [c])[..|cs|] == cs;
  }

  lemma DurableFrame<D, C>(apply: (D, C) -> D, empty: D, am: Manifest, disk: map<string, Content<D, C>>,
                           disk': map<string, Content<D, C>>, buf: seq<C>, data: D)
    requires Durable(apply, empty, am, disk, buf, data) && SameFiles(am, disk, disk')
    ensures Durable(apply, empty, am, disk', buf, data)
  {
    hide Apply, Replay, AllPresent, SameFiles;
    ReplayFrame(apply, empty, am, disk, disk');
  }

  ghost predicate KeptOrEmptied<D, C>(name: string, disk: map<string, Content<D, C>>,
                                      disk': map<string, Content<D, C>>) {
    name in disk ==> name in disk' && (disk'[name] == Log([]) || disk'[name] == disk[name])
  }

  /** The listed files are still there when they and the trailing one are. */
  lemma AgreeFrame<D, C>(cfg: Config, on: bool, phase: Phase, mem: Manifest, persisted: Manifest,
                         disk: map<string, Content<D, C>>, phase': Phase, disk': map<string, Content<D, C>>)
    requires Agree(cfg, on, phase, mem, persisted, disk) && SameFiles(mem, disk, disk')
    requires Trailing(mem, persisted) ==> MayTrail(phase') && KeptOrEmptied(NextIncrName(cfg, mem), disk, disk')
    ensures Agree(cfg, on, phase', mem, persisted, disk')
  {
    hide Live, SameFiles, AllPresent, NextIncrName, NewIncr;
    PresentFrame(mem, disk, disk');
  }

  lemma PresentFrame<D, C>(am: Manifest, disk: map<string, Content<D, C>>, disk': map<string, Content<D, C>>)
    requires AllPresent(am, disk) && SameFiles(am, disk, disk')
    ensures AllPresent(am, disk')
  {
    assert am.base.Some? ==> Reads(am, am.base.value.name);
    forall i | 0 <= i < |am.incr|
      ensures am.incr[i].name in disk' && disk'[am.incr[i].name].Log?
    {
      assert Reads(am, am.incr[i].name);
    }
  }

  lemma KeepCommand<D, C>(cfg: Config, apply: (D, C) -> D, empty: D, s: State<D, C>, c: C)
    requires Inv(cfg, apply, empty, s) && s.phase.Idle?
    ensures Inv(cfg, apply, empty, Next(cfg, apply, empty, s, Command(c)).value)
  {
    hide Agree, HistInv, Apply, Replay, TempIncr, AllPresent;
    if s.aof.On? {
      ApplyOne(apply, Replay(apply, empty, s.mem, s.disk), s.buf, c);
    }
    if s.child.Some? && !s.aof.Off? {
      var name := if s.aof.On? then Last(s.mem) else TempIncr(cfg);
      var cs := s.disk[name].cs;
      assert cs + (s.buf + [c]) == cs + s.buf + [c];
      ApplyOne(apply, s.child.value.snapshot, cs + s.buf, c);
    }
  }

  /** Moving the front of the buffer to the end of the last INCR file changes no replay. */
  lemma FlushDurable<D, C>(cfg: Config, apply: (D, C) -> D, empty: D, s: State<D, C>, n: nat)
    requires Live(s.mem, cfg.aofName) && s.mem.incr != [] && n <= |s.buf|
    requires Durable(apply, empty, s.mem, s.disk, s.buf, s.data)
    ensures var name := Last(s.mem);
      Durable(apply, empty, s.mem, s.disk[name := Log(s.disk[name].cs + s.buf[..n])], s.buf[n..], s.data)
  {
    hide Live, Apply, Replay;
    assert s.buf == s.buf[..n] + s.buf[n..];
    ReplayAppend(apply, empty, s.mem, cfg.aofName, s.disk, s.buf[..n]);
    ApplyAppend(apply, Replay(apply, empty, s.mem, s.disk), s.buf[..n], s.buf[n..]);
  }

  /** The last INCR file may grow, and so may a file that is not read. */
  lemma FlushAgrees<D, C>(cfg: Config, on: bool, phase: Phase, mem: Manifest, persisted: Manifest,
                          disk: map<string, Content<D, C>>, name: string, cs: seq<C>)
    requires Agree(cfg, on, phase, mem, persisted, disk) && name in disk && disk[name].Log?
    requires (mem.incr != [] && name == Last(mem)) || (!Reads(mem, name) && (on ==> name != NextIncrName(cfg, mem)))
    ensures Agree(cfg, on, phase, mem, persisted, disk[name := Log(cs)])
  {
    hide Live, NextIncrName, NewIncr;
    if mem.incr != [] && name == Last(mem) {
      LastIsRead(mem);
    }
    IncrsApart(mem, cfg.aofName, mem.incrSeq + 1);
    NextUnread(cfg, mem);
    if mem.base.Some? { BaseIsNoLast(cfg, mem, name); }
    forall i | 0 <= i < |mem.incr|
      ensures mem.incr[i].name in disk && disk[mem.incr[i].name].Log?
    {
    }
  }

  lemma NextUnread(cfg: Config, am: Manifest)
    requires Live(am, cfg.aofName)
    ensures !Reads(am, NextIncrName(cfg, am))
  {
    hide Live;
    IncrsApart(am, cfg.aofName, am.incrSeq + 1);
  }

  lemma BaseIsNoLast(cfg: Config, am: Manifest, name: string)
    requires Live(am, cfg.aofName) && am.base.Some?
    requires !Reads(am, name) || (am.incr != [] && name == Last(am))
    ensures name != am.base.value.name
  {
    hide Live;
    IncrsApart(am, cfg.aofName, am.incrSeq + 1);
  }

  lemma FlushNothing<D, C>(disk: map<string, Content<D, C>>, name: string, cs: seq<C>)
    requires name in disk && disk[name].Log? && cs == []
    ensures disk[name := Log(disk[name].cs + cs)] == disk
  {
    assert disk[name].cs + cs == disk[name].cs;
  }

  lemma KeepFlush<D, C>(cfg: Config, apply: (D, C) -> D, empty: D, s: State<D, C>, n: nat)
    requires Inv(cfg, apply, empty, s) && Next(cfg, apply, empty, s, Flush(n)).Some?
    ensures Inv(cfg, apply, empty, Next(cfg, apply, empty, s, Flush(n)).value)
  {
    hide Agree, HistInv, Apply, Replay, TempIncr, AllPresent, Durable, NextIncrName;
    var s' := Next(cfg, apply, empty, s, Flush(n)).value;
    if s' != s {
      var name := s.fd.value;
      AgreeLive(cfg, s);
      if s.aof.On? {
        FlushDurable(cfg, apply, empty, s, n);
        FlushAgrees(cfg, true, s.phase, s.mem, s.persisted, s.disk, name, s'.disk[name].cs);
      } else if s.buf == [] {
        FlushNothing(s.disk, name, s.buf[..n]);
      } else {
        TempApart(cfg, s.mem);
        FlushAgrees(cfg, false, s.phase, s.mem, s.persisted, s.disk, name, s'.disk[name].cs);
      }
      assert s'.disk[name].cs + s'.buf == s.disk[name].cs + s.buf;
    }
  }

  lemma AgreeLive<D, C>(cfg: Config, s: State<D, C>)
    requires Agree(cfg, s.aof.On?, s.phase, s.mem, s.persisted, s.disk)
    ensures Live(s.mem, cfg.aofName) && AllPresent(s.mem, s.disk) && s.persisted.base == s.mem.base
    ensures s.mem.incr == [] ==> s.persisted.incr == []
  {
    hide Live, AllPresent;
  }

  lemma KeepStartStop<D, C>(cfg: Config, apply: (D, C) -> D, empty: D, s: State<D, C>, step: Step<D, C>)
    requires Inv(cfg, apply, empty, s) && Next(cfg, apply, empty, s, step).Some?
    requires step.StartAppendOnly? || step.AbandonStart? || step.StopAppendOnly? || step.ChildSaves?
    ensures Inv(cfg, apply, empty, Next(cfg, apply, empty, s, step).value)
  {
    hide Live, Apply, Replay, TempIncr, AllPresent, Durable, NewIncr, NextIncrName, Apart;
  }

  lemma KeepOpenIncr<D, C>(cfg: Config, apply: (D, C) -> D, empty: D, s: State<D, C>, ok: bool, start: int)
    requires Inv(cfg, apply, empty, s) && Next(cfg, apply, empty, s, OpenIncr(ok, start)).Some? && s.buf == []
    ensures Inv(cfg, apply, empty, Next(cfg, apply, empty, s, OpenIncr(ok, start)).value)
  {
    hide Agree, HistInv, Apply, Replay, TempIncr, IncrName, AllPresent, Durable, NextIncrName, SameFiles, Reads;
    var s' := Next(cfg, apply, empty, s, OpenIncr(ok, start)).value;
    AgreeLive(cfg, s);
    OpenedFiles(cfg, s, TempIncr(cfg), s'.phase);
    OpenedFiles(cfg, s, NextIncrName(cfg, s.mem), s'.phase);
    KeepHist(cfg, s.phase, s'.phase, s.mem, s.persisted);
    if s.aof.On? {
      OpenedName(cfg, s.mem, start);
      SameIsSame(s.mem, s.disk);
      DurableFrame(apply, empty, s.mem, s.disk, s'.disk, s.buf, s.data);
    }
  }

  lemma OpenedName(cfg: Config, am: Manifest, start: int)
    requires Live(am, cfg.aofName)
    ensures Last(NewIncr(am, cfg.aofName, start)) == NextIncrName(cfg, am)
  {
    hide IncrName;
  }

  lemma KeepHist(cfg: Config, phase: Phase, phase': Phase, mem: Manifest, persisted: Manifest)
    requires HistInv(cfg, phase, mem, persisted) && (MayTrail(phase') ==> MayTrail(phase) || mem.hist == [])
    ensures HistInv(cfg, phase', mem, persisted)
  {
    hide Apart;
  }

  /** An empty file under the temporary or the next INCR name disturbs no listed file. */
  lemma OpenedFiles<D, C>(cfg: Config, s: State<D, C>, name: string, phase': Phase)
    requires Agree(cfg, s.aof.On?, s.phase, s.mem, s.persisted, s.disk) && MayTrail(phase')
    requires name == TempIncr(cfg) || name == NextIncrName(cfg, s.mem)
    ensures Agree(cfg, s.aof.On?, phase', s.mem, s.persisted, s.disk)
    ensures Agree(cfg, s.aof.On?, phase', s.mem, s.persisted, s.disk[name := Log([])])
    ensures SameFiles(s.mem, s.disk, s.disk[name := Log([])])
  {
    hide Live, TempIncr, NextIncrName, NewIncr, AllPresent, Reads;
    TempApart(cfg, s.mem);
    NextUnread(cfg, s.mem);
    AgreeFrame(cfg, s.aof.On?, s.phase, s.mem, s.persisted, s.disk, phase', s.disk);
    AgreeFrame(cfg, s.aof.On?, s.phase, s.mem, s.persisted, s.disk, phase', s.disk[name := Log([])]);
  }

  lemma KeepPersistIncr<D, C>(cfg: Config, apply: (D, C) -> D, empty: D, s: State<D, C>, result: Persist)
    requires Inv(cfg, apply, empty, s) && s.phase.Opened?
    ensures Inv(cfg, apply, empty, Next(cfg, apply, empty, s, PersistIncr(result)).value)
  {
    hide Agree, HistInv, Apply, Replay, TempIncr, IncrName, NewIncr, AllPresent, Durable;
    var s' := Next(cfg, apply, empty, s, PersistIncr(result)).value;
    var am := s.phase.am;
    AgreeLive(cfg, s);
    PersistIncrAgrees(cfg, s, result);
    if result.Stored? {
      NewIncrDurable(cfg, apply, empty, s.mem, am, s.disk, s.buf, s.data);
    }
  }

  lemma PersistIncrAgrees<D, C>(cfg: Config, s: State<D, C>, result: Persist)
    requires Agree(cfg, true, s.phase, s.mem, s.persisted, s.disk) && HistInv(cfg, s.phase, s.mem, s.persisted)
    requires s.phase.Opened? && s.mem.incr != []
    requires var am := s.phase.am;
      am.incr != [] && am == NewIncr(s.mem, cfg.aofName, am.incr[|am.incr| - 1].startOffset)
      && HasFile(s.disk, Last(am), Log([]))
    ensures var am := s.phase.am;
      && am.base == s.mem.base
      && (if result.Stored? then
            Agree(cfg, true, ReadyToFork, am, am, s.disk) && HistInv(cfg, ReadyToFork, am, am)
          else
            var persisted := if result.NotStored? then s.persisted else am;
            Agree(cfg, true, Idle, s.mem, persisted, s.disk) && HistInv(cfg, Idle, s.mem, persisted))
  {
    hide Live, AllPresent, IncrName;
    var am := s.phase.am;
    NewIncrLive(s.mem, cfg.aofName, am.incr[|am.incr| - 1].startOffset);
    NewIncrPresent(s.mem, am, s.disk);
    if !cfg.disableGc {
      assert am.hist == [];
    }
  }

  lemma NewIncrPresent<D, C>(am: Manifest, am': Manifest, disk: map<string, Content<D, C>>)
    requires AllPresent(am, disk)
    requires am'.incr != [] && am'.incr[..|am'.incr| - 1] == am.incr && am'.base == am.base
    requires Last(am') in disk && disk[Last(am')].Log?
    ensures AllPresent(am', disk)
  {
    forall i | 0 <= i < |am'.incr|
      ensures am'.incr[i].name in disk && disk[am'.incr[i].name].Log?
    {
      assert i < |am.incr| ==> am'.incr[i] == am.incr[i];
    }
  }

  /** An empty INCR file at the end of the list adds nothing. */
  lemma NewIncrDurable<D, C>(cfg: Config, apply: (D, C) -> D, empty: D, am: Manifest, am': Manifest,
                             disk: map<string, Content<D, C>>, buf: seq<C>, data: D)
    requires Durable(apply, empty, am, disk, buf, data)
    requires am'.incr != [] && am' == NewIncr(am, cfg.aofName, am'.incr[|am'.incr| - 1].startOffset)
    requires HasFile(disk, Last(am'), Log([]))
    ensures Durable(apply, empty, am', disk, buf, data)
  {
    hide Apply, Replay, AllPresent, IncrName;
    assert am'.incr[..|am'.incr| - 1] == am.incr;
    ReplayNewIncr(apply, empty, am, am', disk);
    ApplyNone(apply, Replay(apply, empty, am, disk));
  }

  lemma KeepFork<D, C>(cfg: Config, apply: (D, C) -> D, empty: D, s: State<D, C>, ok: bool)
    requires Inv(cfg, apply, empty, s) && s.phase.ReadyToFork?
    ensures Inv(cfg, apply, empty, Next(cfg, apply, empty, s, Fork(ok)).value)
  {
    hide Live, Replay, TempIncr, AllPresent, Durable, NewIncr, NextIncrName, Apart;
    ApplyNone(apply, s.data);
  }

  /** Giving up keeps everything when no listed file is gone. */
  lemma KeepGiveUp<D, C>(cfg: Config, apply: (D, C) -> D, empty: D, s: State<D, C>, s0: State<D, C>)
    requires Inv(cfg, apply, empty, s0) && s0.child.Some? && MayTrail(s0.phase)
    requires s == s0.(disk := s.disk) && SameFiles(s0.mem, s0.disk, s.disk)
    requires Trailing(s0.mem, s0.persisted) ==>
      var name := NextIncrName(cfg, s0.mem); name in s0.disk ==> name in s.disk && s.disk[name] == s0.disk[name]
    ensures Inv(cfg, apply, empty, GiveUp(cfg, s))
  {
    hide Agree, HistInv, Apply, Replay, TempIncr, AllPresent, Durable, NextIncrName, SameFiles, Reads;
    AgreeLive(cfg, s0);
    KeepHist(cfg, s0.phase, Idle, s0.mem, s0.persisted);
    DroppedFiles(cfg, s0.mem, s0.disk, s.disk, s.disk - {TempIncr(cfg)});
    GiveUpAgrees(cfg, s0.aof.On?, s0.phase, s0.mem, s0.persisted, s0.disk, GiveUp(cfg, s).disk);
    if s0.aof.On? { DurableFrame(apply, empty, s0.mem, s0.disk, GiveUp(cfg, s).disk, s0.buf, s0.data); }
  }

  lemma DroppedFiles<D, C>(cfg: Config, am: Manifest, disk: map<string, Content<D, C>>,
                           disk': map<string, Content<D, C>>, disk'': map<string, Content<D, C>>)
    requires Live(am, cfg.aofName) && SameFiles(am, disk, disk') && disk'' == disk' - {TempIncr(cfg)}
    ensures SameFiles(am, disk, disk'') && TempIncr(cfg) != NextIncrName(cfg, am)
  {
    hide Live, TempIncr, Reads, NextIncrName;
    TempApart(cfg, am);
  }

  lemma GiveUpAgrees<D, C>(cfg: Config, on: bool, phase: Phase, mem: Manifest, persisted: Manifest,
                           disk: map<string, Content<D, C>>, disk': map<string, Content<D, C>>)
    requires Agree(cfg, on, phase, mem, persisted, disk) && SameFiles(mem, disk, disk')
    requires Trailing(mem, persisted) ==>
      var name := NextIncrName(cfg, mem); name in disk ==> name in disk' && disk'[name] == disk[name]
    ensures Agree(cfg, on, Idle, mem, persisted, disk')
  {
    hide Live, SameFiles, AllPresent, NextIncrName, NewIncr;
    AgreeFrame(cfg, on, phase, mem, persisted, disk, Idle, disk');
  }

  lemma KeepRenameBase<D, C>(cfg: Config, apply: (D, C) -> D, empty: D, s: State<D, C>, ok: bool)
    requires Inv(cfg, apply, empty, s) && Next(cfg, apply, empty, s, RenameBase(ok)).Some?
    ensures Inv(cfg, apply, empty, Next(cfg, apply, empty, s, RenameBase(ok)).value)
  {
    hide Agree, HistInv, Apply, Replay, TempIncr, BaseName, AllPresent, Durable, NextIncrName, SameFiles, Reads;
    var s' := Next(cfg, apply, empty, s, RenameBase(ok)).value;
    AgreeLive(cfg, s);
    if !ok {
      SameIsSame(s.mem, s.disk);
      KeepGiveUp(cfg, apply, empty, s, s);
    } else {
      var name := s'.phase.am.base.value.name;
      NewBaseFile(cfg, s.mem, s.disk, s'.disk[name], cfg.rdb);
      AgreeFrame(cfg, s.aof.On?, s.phase, s.mem, s.persisted, s.disk, s'.phase, s'.disk);
      KeepHist(cfg, s.phase, s'.phase, s.mem, s.persisted);
      if s.aof.On? { DurableFrame(apply, empty, s.mem, s.disk, s'.disk, s.buf, s.data); }
      LastReadOf(s.mem);
    }
  }

  lemma SameIsSame<D, C>(am: Manifest, disk: map<string, Content<D, C>>)
    ensures SameFiles(am, disk, disk)
  {
  }

  lemma LastReadOf(am: Manifest)
    ensures am.incr != [] ==> Reads(am, Last(am))
  {
  }

  /** A file under the next BASE name replaces none that is read, collected, trailing or temporary. */
  lemma NewBaseFile<D, C>(cfg: Config, am: Manifest, disk: map<string, Content<D, C>>, c: Content<D, C>, rdb: bool)
    requires Live(am, cfg.aofName)
    ensures var name := NewBase(am, cfg.aofName, rdb).base.value.name;
      && SameFiles(am, disk, disk[name := c]) && !Reads(am, name)
      && name != NextIncrName(cfg, am) && name != TempIncr(cfg)
  {
    hide Live, Reads, TempIncr, BaseName, IncrName;
    NewBaseLive(am, cfg.aofName, rdb);
    TempIsNotIssued(cfg, am.baseSeq + 1, rdb);
    LiveCounts(am, cfg.aofName);
    NamesDiffer(cfg.aofName, am.baseSeq + 1, am.incrSeq + 1, rdb, rdb);
  }

  lemma LiveCounts(am: Manifest, aofName: string)
    requires Live(am, aofName)
    ensures 0 <= am.baseSeq && 0 <= am.incrSeq
  {
  }

  lemma KeepRenameIncr<D, C>(cfg: Config, apply: (D, C) -> D, empty: D, s: State<D, C>, ok: bool, start: int)
    requires Inv(cfg, apply, empty, s) && Next(cfg, apply, empty, s, RenameIncr(ok, start)).Some?
    ensures Inv(cfg, apply, empty, Next(cfg, apply, empty, s, RenameIncr(ok, start)).value)
  {
    hide Agree, HistInv, Apply, Replay, TempIncr, BaseName, AllPresent, Durable, SameFiles, Reads, IncrName;
    var s' := Next(cfg, apply, empty, s, RenameIncr(ok, start)).value;
    var am := s.phase.am;
    AgreeLive(cfg, s);
    SameIsSame(s.mem, s.disk);
    KeepHist(cfg, s.phase, s'.phase, s.mem, s.persisted);
    if !s.aof.WaitRewrite? {
      GoOnAgrees(cfg, s, s'.phase);
    } else if !ok {
      NewBaseFile(cfg, s.mem, s.disk, s.disk[am.base.value.name], cfg.rdb);
      WithoutUnread(s.mem, s.disk, am.base.value.name);
      KeepGiveUp(cfg, apply, empty, s.(disk := s.disk - {am.base.value.name}), s);
    } else {
      NewBaseFile(cfg, s.mem, s.disk, s.disk[am.base.value.name], cfg.rdb);
      RenamedAgrees(cfg, s, s'.phase);
    }
  }

  lemma GoOnAgrees<D, C>(cfg: Config, s: State<D, C>, phase': Phase)
    requires Agree(cfg, s.aof.On?, s.phase, s.mem, s.persisted, s.disk) && MayTrail(phase')
    ensures Agree(cfg, s.aof.On?, phase', s.mem, s.persisted, s.disk)
  {
    hide Live, AllPresent, TrailOk;
  }

  lemma WithoutUnread<D, C>(am: Manifest, disk: map<string, Content<D, C>>, name: string)
    requires !Reads(am, name)
    ensures SameFiles(am, disk, disk - {name})
  {
    hide Reads;
  }

  /** The temporary INCR file takes the next INCR name; a trailing file of that name is replaced. */
  lemma RenamedAgrees<D, C>(cfg: Config, s: State<D, C>, phase': Phase)
    requires Agree(cfg, false, s.phase, s.mem, s.persisted, s.disk) && MayTrail(phase')
    requires TempIncr(cfg) in s.disk && s.disk[TempIncr(cfg)].Log?
    ensures Agree(cfg, false, phase', s.mem, s.persisted,
                  (s.disk - {TempIncr(cfg)})[NextIncrName(cfg, s.mem) := s.disk[TempIncr(cfg)]])
  {
    hide Live, TempIncr, NextIncrName, NewIncr, AllPresent, Reads;
    var disk' := (s.disk - {TempIncr(cfg)})[NextIncrName(cfg, s.mem) := s.disk[TempIncr(cfg)]];
    TempApart(cfg, s.mem);
    NextUnread(cfg, s.mem);
    assert SameFiles(s.mem, s.disk, disk');
    PresentFrame(s.mem, s.disk, disk');
  }

  /** The new manifest replays to the dataset: its BASE is the child's snapshot and its INCR file what came
      after the fork. */
  lemma RewrittenReplays<D, C>(cfg: Config, apply: (D, C) -> D, empty: D, s: State<D, C>)
    requires Inv(cfg, apply, empty, s) && s.phase.IncrRenamed? && !s.aof.Off?
    ensures var am' := MarkRewritten(s.phase.am, s.fd.Some?);
            am'.incr != [] && s.fd == Some(Last(am')) && Durable(apply, empty, am', s.disk, s.buf, s.data)
  {
    hide Agree, HistInv, TempIncr, BaseName, IncrName, Apply, Replay;
    var am := s.phase.am;
    var am' := MarkRewritten(am, s.fd.Some?);
    assert am'.incr == [am.incr[|am.incr| - 1]] && am'.base == am.base;
    ReplayRewritten(apply, empty, am', s.disk);
    ApplyAppend(apply, s.child.value.snapshot, s.disk[Last(am')].cs, s.buf);
  }

  /** Replaying a new BASE and one INCR file. */
  lemma ReplayRewritten<D, C>(apply: (D, C) -> D, empty: D, am: Manifest, disk: map<string, Content<D, C>>)
    requires am.base.Some? && |am.incr| == 1
    requires am.base.value.name in disk && disk[am.base.value.name].Snapshot?
    requires Last(am) in disk && disk[Last(am)].Log?
    ensures AllPresent(am, disk)
    ensures Replay(apply, empty, am, disk) == Apply(apply, disk[am.base.value.name].d, disk[Last(am)].cs)
  {
    hide Apply;
    assert am.incr[..0] == [];
    assert ReplayLogs(apply, disk[am.base.value.name].d, disk, am.incr[..0]) == disk[am.base.value.name].d;
  }

  lemma PersistStep<D, C>(cfg: Config, apply: (D, C) -> D, empty: D, s: State<D, C>)
    requires s.phase.IncrRenamed? && s.phase.am.base.Some?
    ensures var am' := MarkRewritten(s.phase.am, s.fd.Some?);
      Next(cfg, apply, empty, s, PersistRewrite(Stored)) == Some(s.(persisted := am', mem := am', phase := Deleting))
  {
    hide MarkRewritten;
  }

  /** The manifest after a rewrite: numbered names, and a history apart from what is read. */
  lemma RewrittenFormed(cfg: Config, mem: Manifest, am: Manifest, waiting: bool, writing: bool)
    requires Live(mem, cfg.aofName)
    requires if waiting then
               && am.incr != []
               && am == NewIncr(NewBase(mem, cfg.aofName, cfg.rdb), cfg.aofName, am.incr[|am.incr| - 1].startOffset)
             else am == NewBase(mem, cfg.aofName, cfg.rdb)
    ensures Live(am, cfg.aofName) && Live(MarkRewritten(am, writing), cfg.aofName) && am.base.Some?
    ensures mem.hist == [] ==> Apart(MarkRewritten(am, writing))
  {
    hide Live, BaseName, IncrName, Apart, MarkRewritten;
    NewBaseLive(mem, cfg.aofName, cfg.rdb);
    if waiting {
      var start := am.incr[|am.incr| - 1].startOffset;
      NewIncrLive(NewBase(mem, cfg.aofName, cfg.rdb), cfg.aofName, start);
      NewIncrLive(mem, cfg.aofName, start);
      assert NewIncr(NewBase(mem, cfg.aofName, cfg.rdb), cfg.aofName, start)
          == NewBase(NewIncr(mem, cfg.aofName, start), cfg.aofName, cfg.rdb);
      if mem.hist == [] { RewrittenApart(NewIncr(mem, cfg.aofName, start), cfg.aofName, cfg.rdb, writing); }
    } else if mem.hist == [] {
      RewrittenApart(mem, cfg.aofName, cfg.rdb, writing);
    }
    MarkRewrittenLive(am, cfg.aofName, writing);
  }

  /** With the file off the rewritten manifest lists the BASE alone. */
  lemma RewrittenPresent<D, C>(cfg: Config, apply: (D, C) -> D, empty: D, s: State<D, C>)
    requires Inv(cfg, apply, empty, s) && s.phase.IncrRenamed?
    ensures AllPresent(MarkRewritten(s.phase.am, s.fd.Some?), s.disk)
  {
    hide Live, HistInv, TempIncr, BaseName, IncrName, Apply, Replay, TrailOk;
  }

  lemma SameManifest<D, C>(cfg: Config, am: Manifest, disk: map<string, Content<D, C>>, on: bool, phase: Phase)
    requires Live(am, cfg.aofName) && AllPresent(am, disk) && am.base.Some? && (cfg.disableGc || Apart(am))
    requires !MayTrail(phase)
    ensures Agree(cfg, on, phase, am, am, disk) && HistInv(cfg, phase, am, am)
  {
    hide Live, AllPresent, Apart;
  }

  lemma KeepPersistRewrite<D, C>(cfg: Config, apply: (D, C) -> D, empty: D, s: State<D, C>)
    requires Inv(cfg, apply, empty, s) && s.phase.IncrRenamed?
    ensures Next(cfg, apply, empty, s, PersistRewrite(Stored)).Some?
    ensures Inv(cfg, apply, empty, Next(cfg, apply, empty, s, PersistRewrite(Stored)).value)
  {
    hide Next, Agree, TempIncr, BaseName, IncrName, Apply, Replay, Collects, MarkRewritten, AllPresent, Durable, Apart;
    AgreeLive(cfg, s);
    var am' := MarkRewritten(s.phase.am, s.fd.Some?);
    RewrittenFormed(cfg, s.mem, s.phase.am, s.aof.WaitRewrite?, s.fd.Some?);
    RewrittenKeepsBase(s.phase.am, s.fd.Some?);
    RewrittenPresent(cfg, apply, empty, s);
    SameManifest(cfg, am', s.disk, s.aof.On?, Deleting);
    PersistStep(cfg, apply, empty, s);
    if !s.aof.Off? { RewrittenReplays(cfg, apply, empty, s); }
  }

  lemma RewrittenKeepsBase(am: Manifest, writing: bool)
    ensures MarkRewritten(am, writing).base == am.base
  {
  }

  lemma KeepPersistFailed<D, C>(cfg: Config, apply: (D, C) -> D, empty: D, s: State<D, C>)
    requires Inv(cfg, apply, empty, s) && s.phase.IncrRenamed?
    requires !(s.aof.WaitRewrite? && Trailing(s.mem, s.persisted))
    ensures Next(cfg, apply, empty, s, PersistRewrite(NotStored)).Some?
    ensures Inv(cfg, apply, empty, Next(cfg, apply, empty, s, PersistRewrite(NotStored)).value)
  {
    hide Agree, HistInv, Apply, Replay, TempIncr, BaseName, IncrName, AllPresent, Durable, SameFiles, Reads, Live;
    var am := s.phase.am;
    var made := {am.base.value.name} + (if s.aof.WaitRewrite? && am.incr != [] then {Last(am)} else {});
    AgreeLive(cfg, s);
    RewrittenKeepsBase(am, s.fd.Some?);
    NewBaseFile(cfg, s.mem, s.disk, Snapshot(s.data), cfg.rdb);
    NextUnread(cfg, s.mem);
    WithoutMade(s.mem, s.disk, made);
    KeepGiveUp(cfg, apply, empty, s.(disk := s.disk - made), s);
  }

  lemma WithoutMade<D, C>(am: Manifest, disk: map<string, Content<D, C>>, made: set<string>)
    requires forall name :: name in made ==> !Reads(am, name)
    ensures SameFiles(am, disk, disk - made)
  {
    hide Reads;
  }

  lemma KeepDeleteOne<D, C>(cfg: Config, apply: (D, C) -> D, empty: D, s: State<D, C>)
    requires Inv(cfg, apply, empty, s) && Next(cfg, apply, empty, s, DeleteOne).Some?
    ensures Inv(cfg, apply, empty, Next(cfg, apply, empty, s, DeleteOne).value)
  {
    hide Agree, HistInv, Apply, Replay, TempIncr, AllPresent, Durable, Collects, SameFiles;
    var s' := Next(cfg, apply, empty, s, DeleteOne).value;
    var gone := s.mem.hist[0].name;
    DropOneKeeps(cfg, s.mem, s.persisted);
    WithoutUnread(s.mem, s.disk, gone);
    DropOneAgrees(cfg, s.aof.On?, s.mem, s.persisted, s.disk);
    if s.aof.On? || Promised(s) {
      DurableFrame(apply, empty, s.mem, s.disk, s'.disk, s.buf, s.data);
      SameLists(apply, empty, s.mem, s'.mem, s'.disk, s.buf, s.data);
    }
  }

  lemma DropOneKeeps(cfg: Config, am: Manifest, persisted: Manifest)
    requires HistInv(cfg, Deleting, am, persisted) && am.hist != [] && !cfg.disableGc
    ensures HistInv(cfg, Deleting, am.(hist := am.hist[1..]), persisted) && !Reads(am, am.hist[0].name)
  {
    var r := am.(hist := am.hist[1..]);
    forall k | 0 <= k < |r.hist|
      ensures !Reads(r, r.hist[k].name)
    {
      assert r.hist[k] == am.hist[k + 1];
      assert !Reads(am, am.hist[k + 1].name);
    }
  }

  lemma DropOneAgrees<D, C>(cfg: Config, on: bool, am: Manifest, persisted: Manifest, disk: map<string, Content<D, C>>)
    requires Agree(cfg, on, Deleting, am, persisted, disk) && am.hist != [] && !Reads(am, am.hist[0].name)
    ensures Agree(cfg, on, Deleting, am.(hist := am.hist[1..]), persisted, disk - {am.hist[0].name})
  {
    hide Reads;
    WithoutUnread(am, disk, am.hist[0].name);
    PresentFrame(am, disk, disk - {am.hist[0].name});
  }

  /** The history has no part in a replay. */
  lemma SameLists<D, C>(apply: (D, C) -> D, empty: D, am: Manifest, am': Manifest, disk: map<string, Content<D, C>>,
                        buf: seq<C>, data: D)
    requires Durable(apply, empty, am, disk, buf, data) && am'.base == am.base && am'.incr == am.incr
    ensures Durable(apply, empty, am', disk, buf, data)
  {
  }

  lemma KeepFinish<D, C>(cfg: Config, apply: (D, C) -> D, empty: D, s: State<D, C>, stored: bool)
    requires Inv(cfg, apply, empty, s) && Next(cfg, apply, empty, s, Finish(stored)).Some?
    ensures Inv(cfg, apply, empty, Next(cfg, apply, empty, s, Finish(stored)).value)
  {
    hide Live, Apply, Replay, TempIncr, AllPresent, Durable, TrailOk, Collects;
  }
}
