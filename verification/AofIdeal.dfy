/** The append-only file without files: what the log on disk stands for, told from the steps alone. No name, no
    manifest and no list of files is left; every run of the protocol shows the same as this machine. */
module AofIdeal {
  import opened CString
  import opened AofManifest
  import opened AofProtocol
  import opened AofRewrite
  import opened AofRestart

  datatype Ideal<D, C> = Ideal(
    mode: AofState,
    data: D,
    saved: D,                   // the dataset the listed files replay to
    tail: Option<seq<C>>,       // the commands of the last INCR file, None if there is no INCR file
    extra: Option<seq<C>>,      // the commands of a file that only the manifest on disk lists
    pending: seq<C>,            // executed, not written
    child: Option<D>,           // the dataset at the fork
    collected: seq<C>,          // written since, while the first rewrite after a start is under way
    open: bool)                 // there is a file to write to

  function OrNone<C>(cs: Option<seq<C>>): seq<C> { if cs.Some? then cs.value else [] }

  /** What a process that starts now would load. */
  function Recovered<D, C>(apply: (D, C) -> D, m: Ideal<D, C>): D { Apply(apply, m.saved, OrNone(m.extra)) }

  /** A rewrite that fails. */
  function Quit<D, C>(m: Ideal<D, C>): Ideal<D, C> {
    m.(child := None, pending := if m.mode.WaitRewrite? then [] else m.pending)
  }

  function Flushed<D, C>(apply: (D, C) -> D, m: Ideal<D, C>, n: nat): Ideal<D, C> {
    if n > |m.pending| then m
    else
      match m.mode
      case On =>
        m.(saved := Apply(apply, m.saved, m.pending[..n]), tail := Some(OrNone(m.tail) + m.pending[..n]),
           pending := m.pending[n..])
      case WaitRewrite => m.(collected := m.collected + m.pending[..n], pending := m.pending[n..])
      case Off => m
  }

  /** The rewritten files take over: the dataset of the fork, and of the log only what is still written to. */
  function Replaced<D, C>(apply: (D, C) -> D, m: Ideal<D, C>): Ideal<D, C> {
    var tail := if m.mode.WaitRewrite? then Some(m.collected) else if m.open then m.tail else None;
    m.(saved := if m.child.Some? then Apply(apply, m.child.value, OrNone(tail)) else m.saved, tail := tail,
       extra := None)
  }

  function After<D, C>(apply: (D, C) -> D, m: Ideal<D, C>, step: Step<D, C>): Ideal<D, C> {
    match step
    case Command(c) =>
      var logged := m.mode.On? || (m.mode.WaitRewrite? && m.child.Some?);
      m.(data := apply(m.data, c), pending := if logged then m.pending + [c] else m.pending)
    case Flush(n) => Flushed(apply, m, n)
    case StartAppendOnly => m.(mode := WaitRewrite, child := None)
    case AbandonStart => m.(mode := Off)
    case StopAppendOnly(stored) =>
      m.(mode := Off, open := false, child := None, pending := [],
         extra := if m.mode.On? && stored then None else m.extra)
    case OpenIncr(ok, _) => if m.mode.WaitRewrite? && ok then m.(open := true) else m
    case PersistIncr(result) =>
      (match result
       case Stored => m.(tail := Some([]), extra := None)
       case NotStored => m
       case StoredButReported => m.(extra := Some([])))
    case Fork(ok) => m.(child := if ok then Some(m.data) else None, collected := [])
    case ChildSaves => m
    case ChildFails => Quit(m)
    case RenameBase(ok) => if ok then m else Quit(m)
    case RenameIncr(ok, _) =>
      if !m.mode.WaitRewrite? then m
      else if !ok then Quit(m)
      else m.(extra := if m.extra.Some? then Some(m.collected) else None)
    case PersistRewrite(result) => if result.Stored? then Replaced(apply, m) else Quit(m)
    case DeleteOne => m
    case Finish(_) => m.(mode := if m.mode.WaitRewrite? then On else m.mode, child := None)
    case Restart(on, _, rdb) =>
      var d := Recovered(apply, m);
      m.(mode := if on then On else Off, data := if on then d else rdb, saved := d,
         tail := if m.extra.Some? then m.extra else m.tail, extra := None, pending := [], child := None, open := false)
    case BootBase => m
    case BootIncr(_) => m.(open := true)
    case BootPersist(result) =>
      if result.Stored? || m.tail.Some? then m.(tail := Some(OrNone(m.tail)))
      else m.(mode := Off, open := false, tail := if result.NotStored? then None else Some([]))
  }

  function IdealRun<D, C>(apply: (D, C) -> D, m: Ideal<D, C>, steps: seq<Step<D, C>>): Ideal<D, C>
    decreases |steps|
  {
    if steps == [] then m else IdealRun(apply, After(apply, m, steps[0]), steps[1..])
  }

  function IdealOff<D, C>(empty: D): Ideal<D, C> { Ideal(Off, empty, empty, None, None, [], None, [], false) }

  // ----- what both show -----

  /** The files of the manifest stand for the dataset and the tail. */
  ghost predicate Stand<D, C>(apply: (D, C) -> D, empty: D, am: Manifest, disk: map<string, Content<D, C>>, saved: D,
                              tail: Option<seq<C>>) {
    && AllPresent(am, disk) && Replay(apply, empty, am, disk) == saved
    && (tail.Some? <==> am.incr != [])
    && (tail.Some? ==> HasFile(disk, Last(am), Log(tail.value)))
  }

  ghost predicate ExtraIs<D, C>(mem: Manifest, persisted: Manifest, disk: map<string, Content<D, C>>,
                                extra: Option<seq<C>>) {
    && (extra.Some? <==> Trailing(mem, persisted))
    && (extra.Some? ==> HasFile(disk, Last(persisted), Log(extra.value)))
  }

  ghost predicate CollectedIs<D, C>(cfg: Config, aof: AofState, child: Option<Child<D>>, phase: Phase,
                                    disk: map<string, Content<D, C>>, collected: seq<C>) {
    aof.WaitRewrite? && child.Some? ==>
      && (phase.Idle? || phase.BaseRenamed? ==> HasFile(disk, TempIncr(cfg), Log(collected)))
      && (phase.IncrRenamed? ==> phase.am.incr != [] && HasFile(disk, Last(phase.am), Log(collected)))
  }

  ghost predicate BootIs<D, C>(s: State<D, C>, m: Ideal<D, C>) {
    && (Booting(s) ==> m.data == m.saved && m.extra.None? && m.mode.On?)
    && (s.phase.Loaded? ==> !s.mem.dirty)
    && (s.phase.BaseMade? ==> s.phase.am.incr == s.mem.incr && (s.phase.am.dirty ==> s.mem.incr == []))
    && (s.phase.Booted? ==>
          && (s.phase.am.dirty <==> s.mem.incr == [])
          && if s.mem.incr == [] then |s.phase.am.incr| == 1 && HasFile(s.disk, Last(s.phase.am), Log([]))
             else s.phase.am.incr == s.mem.incr)
  }

  ghost predicate SameFront<D, C>(s: State<D, C>, m: Ideal<D, C>) {
    && s.aof == m.mode && s.data == m.data && s.buf == m.pending && s.fd.Some? == m.open
    && (s.child.Some? <==> m.child.Some?) && (s.child.Some? ==> s.child.value.snapshot == m.child.value)
  }

  ghost predicate Shows<D, C>(cfg: Config, apply: (D, C) -> D, empty: D, s: State<D, C>, m: Ideal<D, C>) {
    && SameFront(s, m)
    && Stand(apply, empty, s.mem, s.disk, m.saved, m.tail)
    && ExtraIs(s.mem, s.persisted, s.disk, m.extra)
    && CollectedIs(cfg, s.aof, s.child, s.phase, s.disk, m.collected)
    && BootIs(s, m)
  }

  lemma StandFrame<D, C>(apply: (D, C) -> D, empty: D, am: Manifest, am': Manifest, disk: map<string, Content<D, C>>,
                         disk': map<string, Content<D, C>>, saved: D, tail: Option<seq<C>>)
    requires Stand(apply, empty, am, disk, saved, tail) && SameFiles(am, disk, disk')
    requires am'.base == am.base && am'.incr == am.incr
    ensures Stand(apply, empty, am', disk', saved, tail)
  {
    hide Apply, Replay, AllPresent;
    ReplayFrame(apply, empty, am, disk, disk');
    SameReplay(apply, empty, am, am', disk');
    LastReadOf(am);
  }

  // ----- steps without a new file -----

  lemma ShowCommand<D, C>(cfg: Config, apply: (D, C) -> D, empty: D, s: State<D, C>, m: Ideal<D, C>, c: C)
    requires Shows(cfg, apply, empty, s, m) && s.phase.Idle?
    ensures Shows(cfg, apply, empty, Next(cfg, apply, empty, s, Command(c)).value, After(apply, m, Command(c)))
  {
    hide Stand, ExtraIs, CollectedIs;
  }

  lemma ShowSwitch<D, C>(cfg: Config, apply: (D, C) -> D, empty: D, s: State<D, C>, m: Ideal<D, C>, step: Step<D, C>)
    requires Inv(cfg, apply, empty, s) && Shows(cfg, apply, empty, s, m) && Next(cfg, apply, empty, s, step).Some?
    requires step.StartAppendOnly? || step.AbandonStart? || step.StopAppendOnly? || step.ChildSaves? || step.Fork?
    ensures Shows(cfg, apply, empty, Next(cfg, apply, empty, s, step).value, After(apply, m, step))
  {
    hide Stand, Live, Apply, Replay, TempIncr, AllPresent, Durable, NewIncr, NextIncrName, Apart, TrailOk, Collects;
  }

  /** Writing the front of the buffer adds it to what the files stand for. */
  lemma FlushStands<D, C>(cfg: Config, apply: (D, C) -> D, empty: D, am: Manifest, disk: map<string, Content<D, C>>,
                          saved: D, tail: seq<C>, cs: seq<C>)
    requires Live(am, cfg.aofName) && Stand(apply, empty, am, disk, saved, Some(tail))
    ensures Stand(apply, empty, am, disk[Last(am) := Log(tail + cs)], Apply(apply, saved, cs), Some(tail + cs))
  {
    hide Live, Apply, Replay, AllPresent;
    ReplayAppend(apply, empty, am, cfg.aofName, disk, cs);
  }

  /** A file the manifest does not list is free to change. */
  lemma OtherStands<D, C>(apply: (D, C) -> D, empty: D, am: Manifest, disk: map<string, Content<D, C>>, saved: D,
                          tail: Option<seq<C>>, name: string, c: Content<D, C>)
    requires Stand(apply, empty, am, disk, saved, tail) && !Reads(am, name)
    ensures Stand(apply, empty, am, disk[name := c], saved, tail)
    ensures Stand(apply, empty, am, disk - {name}, saved, tail)
  {
    hide Stand, Reads;
    StandFrame(apply, empty, am, am, disk, disk[name := c], saved, tail);
    StandFrame(apply, empty, am, am, disk, disk - {name}, saved, tail);
  }

  /** The file only the manifest on disk lists has the next name. */
  lemma ExtraName<D, C>(cfg: Config, s: State<D, C>)
    requires Agree(cfg, s.aof.On?, s.phase, s.mem, s.persisted, s.disk) && Trailing(s.mem, s.persisted)
    ensures s.persisted.incr != [] && Last(s.persisted) == NextIncrName(cfg, s.mem)
    ensures s.aof.On? ==> HasFile(s.disk, Last(s.persisted), Log([]))
  {
    hide Live, AllPresent, NewIncr, NextIncrName;
  }

  lemma ShowFlush<D, C>(cfg: Config, apply: (D, C) -> D, empty: D, s: State<D, C>, m: Ideal<D, C>, n: nat)
    requires Inv(cfg, apply, empty, s) && Shows(cfg, apply, empty, s, m) && Next(cfg, apply, empty, s, Flush(n)).Some?
    ensures Shows(cfg, apply, empty, Next(cfg, apply, empty, s, Flush(n)).value, After(apply, m, Flush(n)))
  {
    hide Shows, Inv, After, Next;
    if s.buf == [] {
      FlushesNothing(cfg, apply, empty, s, m, n);
    } else if s.aof.On? {
      FlushesOn(cfg, apply, empty, s, m, n);
    } else {
      FlushesTemp(cfg, apply, empty, s, m, n);
    }
  }

  lemma FlushesOn<D, C>(cfg: Config, apply: (D, C) -> D, empty: D, s: State<D, C>, m: Ideal<D, C>, n: nat)
    requires Inv(cfg, apply, empty, s) && Shows(cfg, apply, empty, s, m) && Next(cfg, apply, empty, s, Flush(n)).Some?
    requires s.aof.On?
    ensures Shows(cfg, apply, empty, Next(cfg, apply, empty, s, Flush(n)).value, After(apply, m, Flush(n)))
  {
    hide Agree, HistInv, Apply, Replay, TempIncr, AllPresent, Durable, NextIncrName, Stand, ChildInv, Reads, Live;
    AgreeLive(cfg, s);
    if Trailing(s.mem, s.persisted) { ExtraName(cfg, s); }
    NextUnread(cfg, s.mem);
    LastReadOf(s.mem);
    TailThere(apply, empty, s.mem, s.disk, m.saved, m.tail);
    FlushStands(cfg, apply, empty, s.mem, s.disk, m.saved, m.tail.value, s.buf[..n]);
  }

  lemma FlushesTemp<D, C>(cfg: Config, apply: (D, C) -> D, empty: D, s: State<D, C>, m: Ideal<D, C>, n: nat)
    requires Inv(cfg, apply, empty, s) && Shows(cfg, apply, empty, s, m) && Next(cfg, apply, empty, s, Flush(n)).Some?
    requires !s.aof.On? && s.buf != []
    ensures Shows(cfg, apply, empty, Next(cfg, apply, empty, s, Flush(n)).value, After(apply, m, Flush(n)))
  {
    hide Agree, HistInv, Apply, Replay, TempIncr, AllPresent, Durable, NextIncrName, Stand, ChildInv, Reads, Live;
    AgreeLive(cfg, s);
    if Trailing(s.mem, s.persisted) { ExtraName(cfg, s); }
    TempApart(cfg, s.mem);
    Collecting(cfg, apply, empty, s);
    OtherStands(apply, empty, s.mem, s.disk, m.saved, m.tail, TempIncr(cfg), Log(m.collected + s.buf[..n]));
  }

  lemma Collecting<D, C>(cfg: Config, apply: (D, C) -> D, empty: D, s: State<D, C>)
    requires Inv(cfg, apply, empty, s) && s.phase.Idle? && s.buf != [] && !s.aof.On?
    ensures s.aof.WaitRewrite? && s.child.Some? && s.fd == Some(TempIncr(cfg))
  {
    hide Agree, HistInv, Apply, Replay, TempIncr, Durable;
  }

  lemma TailThere<D, C>(apply: (D, C) -> D, empty: D, am: Manifest, disk: map<string, Content<D, C>>, saved: D,
                        tail: Option<seq<C>>)
    requires Stand(apply, empty, am, disk, saved, tail)
    ensures tail.Some? <==> am.incr != []
    ensures tail.Some? ==> HasFile(disk, Last(am), Log(tail.value))
  {
    hide Replay, AllPresent;
  }

  lemma FlushesNothing<D, C>(cfg: Config, apply: (D, C) -> D, empty: D, s: State<D, C>, m: Ideal<D, C>, n: nat)
    requires Inv(cfg, apply, empty, s) && Shows(cfg, apply, empty, s, m) && s.buf == []
    requires Next(cfg, apply, empty, s, Flush(n)).Some?
    ensures Shows(cfg, apply, empty, Next(cfg, apply, empty, s, Flush(n)).value, After(apply, m, Flush(n)))
  {
    hide Agree, HistInv, Replay, TempIncr, AllPresent, Durable, NextIncrName, Live, ChildInv;
    ApplyNone(apply, m.saved);
    assert s.buf[..n] == [] && s.buf[n..] == [];
    assert OrNone(m.tail) + [] == OrNone(m.tail);
    assert m.collected + [] == m.collected;
    if s.fd.Some? && s.fd.value in s.disk && s.disk[s.fd.value].Log? { FlushNothing(s.disk, s.fd.value, []); }
  }

  // ----- a rewrite -----

  lemma ShowOpenIncr<D, C>(cfg: Config, apply: (D, C) -> D, empty: D, s: State<D, C>, m: Ideal<D, C>, ok: bool,
                           start: int)
    requires Inv(cfg, apply, empty, s) && Shows(cfg, apply, empty, s, m)
    requires Next(cfg, apply, empty, s, OpenIncr(ok, start)).Some?
    ensures Shows(cfg, apply, empty, Next(cfg, apply, empty, s, OpenIncr(ok, start)).value,
                  After(apply, m, OpenIncr(ok, start)))
  {
    hide Agree, HistInv, Apply, Replay, TempIncr, IncrName, AllPresent, Durable, NextIncrName, SameFiles, Reads, Stand,
      ChildInv, ExtraIs, Live;
    AgreeLive(cfg, s);
    TempApart(cfg, s.mem);
    NextUnread(cfg, s.mem);
    OpenedName(cfg, s.mem, start);
    OpenedExtra(cfg, s, m);
    OtherStands(apply, empty, s.mem, s.disk, m.saved, m.tail, TempIncr(cfg), Log([]));
    OtherStands(apply, empty, s.mem, s.disk, m.saved, m.tail, NextIncrName(cfg, s.mem), Log([]));
  }

  lemma OpenedExtra<D, C>(cfg: Config, s: State<D, C>, m: Ideal<D, C>)
    requires Agree(cfg, s.aof.On?, s.phase, s.mem, s.persisted, s.disk)
    requires ExtraIs(s.mem, s.persisted, s.disk, m.extra) && TempIncr(cfg) != NextIncrName(cfg, s.mem)
    ensures ExtraIs(s.mem, s.persisted, s.disk[TempIncr(cfg) := Log([])], m.extra)
    ensures s.aof.On? ==> ExtraIs(s.mem, s.persisted, s.disk[NextIncrName(cfg, s.mem) := Log([])], m.extra)
  {
    hide Agree, TempIncr, NextIncrName;
    if Trailing(s.mem, s.persisted) { ExtraName(cfg, s); }
  }

  lemma ShowPersistIncr<D, C>(cfg: Config, apply: (D, C) -> D, empty: D, s: State<D, C>, m: Ideal<D, C>,
                              result: Persist)
    requires Inv(cfg, apply, empty, s) && Shows(cfg, apply, empty, s, m) && s.phase.Opened?
    ensures Shows(cfg, apply, empty, Next(cfg, apply, empty, s, PersistIncr(result)).value,
                  After(apply, m, PersistIncr(result)))
  {
    hide Agree, HistInv, Apply, Replay, TempIncr, IncrName, AllPresent, Durable, ChildInv, Stand;
    var am := s.phase.am;
    NewIncrStands(cfg, apply, empty, s.mem, am, s.disk, m.saved, m.tail);
  }

  /** An empty INCR file at the end of the list is the new tail. */
  lemma NewIncrStands<D, C>(cfg: Config, apply: (D, C) -> D, empty: D, am: Manifest, am': Manifest,
                            disk: map<string, Content<D, C>>, saved: D, tail: Option<seq<C>>)
    requires Stand(apply, empty, am, disk, saved, tail)
    requires am'.incr != [] && am' == NewIncr(am, cfg.aofName, am'.incr[|am'.incr| - 1].startOffset)
    requires HasFile(disk, Last(am'), Log([]))
    ensures Stand(apply, empty, am', disk, saved, Some([]))
  {
    hide Apply, Replay, AllPresent, IncrName;
    assert am'.incr[..|am'.incr| - 1] == am.incr;
    ReplayNewIncr(apply, empty, am, am', disk);
    ApplyNone(apply, Replay(apply, empty, am, disk));
  }

  /** A failed rewrite leaves the listed files. */
  lemma ShowGiveUp<D, C>(cfg: Config, apply: (D, C) -> D, empty: D, s: State<D, C>, m: Ideal<D, C>,
                         gone: set<string>)
    requires Inv(cfg, apply, empty, s) && Shows(cfg, apply, empty, s, m) && MayTrail(s.phase)
    requires forall name :: name in gone ==> !Reads(s.mem, name)
    requires NextIncrName(cfg, s.mem) in gone ==> !Trailing(s.mem, s.persisted)
    ensures Shows(cfg, apply, empty, GiveUp(cfg, s.(disk := s.disk - gone)), Quit(m))
  {
    hide Agree, HistInv, Apply, Replay, TempIncr, IncrName, AllPresent, Durable, NextIncrName, SameFiles, Reads, Stand,
      ChildInv, PhaseInv;
    var s' := GiveUp(cfg, s.(disk := s.disk - gone));
    AgreeLive(cfg, s);
    if Trailing(s.mem, s.persisted) { ExtraName(cfg, s); }
    TempApart(cfg, s.mem);
    WithoutMade(s.mem, s.disk, gone);
    WithoutMade(s.mem, s.disk, gone + {TempIncr(cfg)});
    assert s.disk - (gone + {TempIncr(cfg)}) == s.disk - gone - {TempIncr(cfg)};
    StandFrame(apply, empty, s.mem, s.mem, s.disk, s'.disk, m.saved, m.tail);
  }

  lemma ShowRenameBase<D, C>(cfg: Config, apply: (D, C) -> D, empty: D, s: State<D, C>, m: Ideal<D, C>, ok: bool)
    requires Inv(cfg, apply, empty, s) && Shows(cfg, apply, empty, s, m)
    requires Next(cfg, apply, empty, s, RenameBase(ok)).Some?
    ensures Shows(cfg, apply, empty, Next(cfg, apply, empty, s, RenameBase(ok)).value, After(apply, m, RenameBase(ok)))
  {
    hide Agree, HistInv, Apply, Replay, TempIncr, BaseName, AllPresent, Durable, NextIncrName, SameFiles, Reads, Stand,
      ChildInv, PhaseInv;
    AgreeLive(cfg, s);
    if !ok {
      ShowGiveUp(cfg, apply, empty, s, m, {});
      assert s.disk - {} == s.disk;
    } else {
      if Trailing(s.mem, s.persisted) { ExtraName(cfg, s); }
      var c := Snapshot(s.child.value.snapshot);
      NewBaseFile(cfg, s.mem, s.disk, c, cfg.rdb);
      var name := NewBase(s.mem, cfg.aofName, cfg.rdb).base.value.name;
      OtherStands(apply, empty, s.mem, s.disk, m.saved, m.tail, name, c);
    }
  }

  lemma ShowRenameIncr<D, C>(cfg: Config, apply: (D, C) -> D, empty: D, s: State<D, C>, m: Ideal<D, C>, ok: bool,
                             start: int)
    requires Inv(cfg, apply, empty, s) && Shows(cfg, apply, empty, s, m)
    requires Next(cfg, apply, empty, s, RenameIncr(ok, start)).Some?
    ensures Shows(cfg, apply, empty, Next(cfg, apply, empty, s, RenameIncr(ok, start)).value,
                  After(apply, m, RenameIncr(ok, start)))
  {
    hide Agree, HistInv, Apply, Replay, TempIncr, BaseName, AllPresent, Durable, SameFiles, Reads, Stand, ChildInv,
      NextIncrName, NewIncr, Live, ExtraIs;
    if s.aof.WaitRewrite? && ok {
      hide After, Next, Shows, Inv;
      ShowRenamed(cfg, apply, empty, s, m, start);
    } else if s.aof.WaitRewrite? {
      AgreeLive(cfg, s);
      NewBaseFile(cfg, s.mem, s.disk, Snapshot(s.data), cfg.rdb);
      ShowGiveUp(cfg, apply, empty, s, m, {s.phase.am.base.value.name});
    }
  }

  /** The temporary file gets the next INCR name, and with it the place of a file only the disk knows of. */
  lemma ShowRenamed<D, C>(cfg: Config, apply: (D, C) -> D, empty: D, s: State<D, C>, m: Ideal<D, C>, start: int)
    requires Inv(cfg, apply, empty, s) && Shows(cfg, apply, empty, s, m) && s.aof.WaitRewrite?
    requires Next(cfg, apply, empty, s, RenameIncr(true, start)).Some?
    ensures Shows(cfg, apply, empty, Next(cfg, apply, empty, s, RenameIncr(true, start)).value,
                  After(apply, m, RenameIncr(true, start)))
  {
    hide Agree, HistInv, Apply, Replay, TempIncr, BaseName, AllPresent, Durable, SameFiles, Reads, Stand, ChildInv,
      IncrName, Live;
    AgreeLive(cfg, s);
    if Trailing(s.mem, s.persisted) { ExtraName(cfg, s); }
    TempApart(cfg, s.mem);
    NextUnread(cfg, s.mem);
    var name := NextIncrName(cfg, s.mem);
    OtherStands(apply, empty, s.mem, s.disk, m.saved, m.tail, TempIncr(cfg), Log([]));
    OtherStands(apply, empty, s.mem, s.disk - {TempIncr(cfg)}, m.saved, m.tail, name, Log(m.collected));
  }

  lemma ShowPersistRewrite<D, C>(cfg: Config, apply: (D, C) -> D, empty: D, s: State<D, C>, m: Ideal<D, C>)
    requires Inv(cfg, apply, empty, s) && Shows(cfg, apply, empty, s, m) && s.phase.IncrRenamed?
    requires Next(cfg, apply, empty, s, PersistRewrite(Stored)).Some?
    ensures Shows(cfg, apply, empty, Next(cfg, apply, empty, s, PersistRewrite(Stored)).value,
                  After(apply, m, PersistRewrite(Stored)))
  {
    hide Next, Agree, HistInv, Apply, Replay, TempIncr, BaseName, IncrName, AllPresent, Durable, Stand, MarkRewritten;
    PersistStep(cfg, apply, empty, s);
    RewrittenStands(cfg, apply, empty, s, m);
  }

  /** The rewritten manifest stands for the dataset of the fork and the tail it keeps. */
  lemma RewrittenStands<D, C>(cfg: Config, apply: (D, C) -> D, empty: D, s: State<D, C>, m: Ideal<D, C>)
    requires Inv(cfg, apply, empty, s) && Shows(cfg, apply, empty, s, m) && s.phase.IncrRenamed?
    ensures var r := Replaced(apply, m);
      Stand(apply, empty, MarkRewritten(s.phase.am, s.fd.Some?), s.disk, r.saved, r.tail)
  {
    hide Agree, HistInv, TempIncr, BaseName, IncrName, Apply, Replay, AllPresent, Durable, ChildInv, BootIs, ExtraIs;
    var am := MarkRewritten(s.phase.am, s.fd.Some?);
    var snapshot := s.child.value.snapshot;
    KeepsLast(s.phase.am, s.fd.Some?);
    hide MarkRewritten, Stand;
    TailKept(cfg, apply, empty, s, m);
    RewrittenReplay(apply, empty, am, s.disk, snapshot, Replaced(apply, m).tail);
  }

  lemma KeepsLast(am: Manifest, writing: bool)
    ensures var r := MarkRewritten(am, writing);
      r.base == am.base && r.incr == if am.incr != [] && writing then [am.incr[|am.incr| - 1]] else []
  {
  }

  /** The INCR file a rewrite leaves in the list holds the tail. */
  lemma TailKept<D, C>(cfg: Config, apply: (D, C) -> D, empty: D, s: State<D, C>, m: Ideal<D, C>)
    requires Inv(cfg, apply, empty, s) && Shows(cfg, apply, empty, s, m) && s.phase.IncrRenamed?
    ensures var (am, tail) := (s.phase.am, Replaced(apply, m).tail);
      && am.base.Some? && HasFile(s.disk, am.base.value.name, Snapshot(s.child.value.snapshot))
      && (tail.Some? <==> am.incr != [] && s.fd.Some?)
      && (tail.Some? ==> HasFile(s.disk, Last(am), Log(tail.value)))
  {
    hide Agree, HistInv, BaseName, IncrName, Apply, Replay, AllPresent, Durable, BootIs, ExtraIs;
  }

  lemma RewrittenReplay<D, C>(apply: (D, C) -> D, empty: D, am: Manifest, disk: map<string, Content<D, C>>,
                              snapshot: D, tail: Option<seq<C>>)
    requires am.base.Some? && HasFile(disk, am.base.value.name, Snapshot(snapshot)) && |am.incr| <= 1
    requires tail.Some? <==> am.incr != []
    requires tail.Some? ==> HasFile(disk, Last(am), Log(tail.value))
    ensures Stand(apply, empty, am, disk, Apply(apply, snapshot, OrNone(tail)), tail)
  {
    hide Apply, Replay, AllPresent;
    ApplyNone(apply, snapshot);
    if am.incr == [] {
      ReplayBase(apply, empty, am, disk);
    } else {
      ReplayRewritten(apply, empty, am, disk);
    }
  }

  lemma ShowPersistFailed<D, C>(cfg: Config, apply: (D, C) -> D, empty: D, s: State<D, C>, m: Ideal<D, C>)
    requires Inv(cfg, apply, empty, s) && Shows(cfg, apply, empty, s, m) && s.phase.IncrRenamed?
    requires !(s.aof.WaitRewrite? && Trailing(s.mem, s.persisted))
    requires Next(cfg, apply, empty, s, PersistRewrite(NotStored)).Some?
    ensures Shows(cfg, apply, empty, Next(cfg, apply, empty, s, PersistRewrite(NotStored)).value, Quit(m))
  {
    hide Agree, HistInv, Apply, Replay, TempIncr, BaseName, IncrName, AllPresent, Durable, SameFiles, Reads, Live,
      Shows;
    var am := s.phase.am;
    var made := {am.base.value.name} + (if s.aof.WaitRewrite? && am.incr != [] then {Last(am)} else {});
    AgreeLive(cfg, s);
    RewrittenKeepsBase(am, s.fd.Some?);
    NewBaseFile(cfg, s.mem, s.disk, Snapshot(s.data), cfg.rdb);
    NextUnread(cfg, s.mem);
    ShowGiveUp(cfg, apply, empty, s, m, made);
  }

  lemma ShowDelete<D, C>(cfg: Config, apply: (D, C) -> D, empty: D, s: State<D, C>, m: Ideal<D, C>)
    requires Inv(cfg, apply, empty, s) && Shows(cfg, apply, empty, s, m)
    requires Next(cfg, apply, empty, s, DeleteOne).Some?
    ensures Shows(cfg, apply, empty, Next(cfg, apply, empty, s, DeleteOne).value, m)
  {
    hide Agree, HistInv, Apply, Replay, TempIncr, AllPresent, Durable, Collects, SameFiles, Reads, Stand, ChildInv;
    var s' := Next(cfg, apply, empty, s, DeleteOne).value;
    DropOneKeeps(cfg, s.mem, s.persisted);
    WithoutUnread(s.mem, s.disk, s.mem.hist[0].name);
    StandFrame(apply, empty, s.mem, s'.mem, s.disk, s'.disk, m.saved, m.tail);
    NoneTrails(cfg, s);
  }

  /** The two manifests list the same once a rewritten or loaded one is in place. */
  lemma NoneTrails<D, C>(cfg: Config, s: State<D, C>)
    requires Agree(cfg, s.aof.On?, s.phase, s.mem, s.persisted, s.disk) && !MayTrail(s.phase)
    ensures s.persisted.base == s.mem.base && s.persisted.incr == s.mem.incr
  {
    hide Live, AllPresent;
  }

  lemma ShowFinish<D, C>(cfg: Config, apply: (D, C) -> D, empty: D, s: State<D, C>, m: Ideal<D, C>, stored: bool)
    requires Inv(cfg, apply, empty, s) && Shows(cfg, apply, empty, s, m)
    requires Next(cfg, apply, empty, s, Finish(stored)).Some?
    ensures Shows(cfg, apply, empty, Next(cfg, apply, empty, s, Finish(stored)).value, After(apply, m, Finish(stored)))
  {
    hide Agree, HistInv, Apply, Replay, TempIncr, AllPresent, Durable, Collects, Stand, ChildInv;
    NoneTrails(cfg, s);
  }

  // ----- a new process -----

  lemma ShowRestart<D, C>(cfg: Config, apply: (D, C) -> D, empty: D, s: State<D, C>, m: Ideal<D, C>, on: bool,
                          torn: bool, rdb: D)
    requires Inv(cfg, apply, empty, s) && Shows(cfg, apply, empty, s, m)
    requires Next(cfg, apply, empty, s, Restart(on, torn, rdb)).Some?
    ensures Shows(cfg, apply, empty, Next(cfg, apply, empty, s, Restart(on, torn, rdb)).value,
                  After(apply, m, Restart(on, torn, rdb)))
  {
    hide Agree, HistInv, Apply, Replay, TempIncr, AllPresent, Durable, ChildInv, PhaseInv, WritesInside, Stand;
    PersistedStands(cfg, apply, empty, s, m);
  }

  /** The manifest on disk stands for what a new process would load. */
  lemma PersistedStands<D, C>(cfg: Config, apply: (D, C) -> D, empty: D, s: State<D, C>, m: Ideal<D, C>)
    requires Agree(cfg, s.aof.On?, s.phase, s.mem, s.persisted, s.disk) && Shows(cfg, apply, empty, s, m)
    ensures AllPresent(s.persisted, s.disk) && Replay(apply, empty, s.persisted, s.disk) == Recovered(apply, m)
    ensures Stand(apply, empty, Reloaded(s.persisted), s.disk, Recovered(apply, m),
                  if m.extra.Some? then m.extra else m.tail)
  {
    hide Live, Apply, Replay, AllPresent, IncrName;
    if Trailing(s.mem, s.persisted) {
      assert s.persisted.incr[..|s.persisted.incr| - 1] == s.mem.incr;
      ReplayNewIncr(apply, empty, s.mem, s.persisted, s.disk);
    } else {
      SameReplay(apply, empty, s.mem, s.persisted, s.disk);
      ApplyNone(apply, m.saved);
    }
    SameReplay(apply, empty, s.persisted, Reloaded(s.persisted), s.disk);
  }

  lemma ShowBootBase<D, C>(cfg: Config, apply: (D, C) -> D, empty: D, s: State<D, C>, m: Ideal<D, C>)
    requires Inv(cfg, apply, empty, s) && Shows(cfg, apply, empty, s, m) && s.phase.Loaded?
    ensures Shows(cfg, apply, empty, Next(cfg, apply, empty, s, BootBase).value, m)
  {
    hide Agree, HistInv, Apply, Replay, TempIncr, BaseName, AllPresent, Durable, ChildInv, PhaseInv, Stand, SameFiles;
    var s' := Next(cfg, apply, empty, s, BootBase).value;
    NoneTrails(cfg, s);
    if s.mem.base.None? && s.mem.incr == [] { NothingRead(s.mem, s.disk, s'.disk); } else { SameIsSame(s.mem, s.disk); }
    StandFrame(apply, empty, s.mem, s.mem, s.disk, s'.disk, m.saved, m.tail);
  }

  lemma ShowBootIncr<D, C>(cfg: Config, apply: (D, C) -> D, empty: D, s: State<D, C>, m: Ideal<D, C>, start: int)
    requires Inv(cfg, apply, empty, s) && Shows(cfg, apply, empty, s, m) && s.phase.BaseMade?
    requires s.phase.am.incr == [] ==> NewAtBoot(cfg, s.phase.am, s.disk)
    ensures Shows(cfg, apply, empty, Next(cfg, apply, empty, s, BootIncr(start)).value,
                  After(apply, m, BootIncr(start)))
  {
    hide Agree, HistInv, Apply, Replay, TempIncr, IncrName, AllPresent, Durable, ChildInv, PhaseInv, Stand, SameFiles;
    var s' := Next(cfg, apply, empty, s, BootIncr(start)).value;
    NoneTrails(cfg, s);
    if s.mem.incr == [] {
      GrownFiles(s.mem, s.disk, Last(s'.phase.am));
      StandFrame(apply, empty, s.mem, s.mem, s.disk, s'.disk, m.saved, m.tail);
    } else {
      TailThere(apply, empty, s.mem, s.disk, m.saved, m.tail);
    }
  }

  lemma ShowBootPersist<D, C>(cfg: Config, apply: (D, C) -> D, empty: D, s: State<D, C>, m: Ideal<D, C>,
                              result: Persist)
    requires Inv(cfg, apply, empty, s) && Shows(cfg, apply, empty, s, m) && s.phase.Booted?
    ensures BootPersistStep(s, result).Some?
    ensures Shows(cfg, apply, empty, BootPersistStep(s, result).value, After(apply, m, BootPersist(result)))
  {
    hide Agree, HistInv, Apply, Replay, TempIncr, IncrName, AllPresent, Durable, ChildInv, PhaseInv, Stand, Live,
      Recovered, HasFile, Flushed, Replaced;
    NoneTrails(cfg, s);
    TailThere(apply, empty, s.mem, s.disk, m.saved, m.tail);
    BootStands(cfg, apply, empty, s, m);
  }

  lemma BootStands<D, C>(cfg: Config, apply: (D, C) -> D, empty: D, s: State<D, C>, m: Ideal<D, C>)
    requires Inv(cfg, apply, empty, s) && Shows(cfg, apply, empty, s, m) && s.phase.Booted?
    ensures Stand(apply, empty, s.phase.am, s.disk, m.saved, Some(OrNone(m.tail)))
  {
    hide Agree, HistInv, Apply, Replay, TempIncr, IncrName, AllPresent, ChildInv, Live;
    ApplyNone(apply, Replay(apply, empty, s.phase.am, s.disk));
  }

  // ----- whole runs -----

  lemma ShowStep<D, C>(cfg: Config, apply: (D, C) -> D, empty: D, s: State<D, C>, m: Ideal<D, C>, step: Step<D, C>)
    requires Inv(cfg, apply, empty, s) && Shows(cfg, apply, empty, s, m)
    requires Clean(cfg, s, step) && Next(cfg, apply, empty, s, step).Some?
    ensures Shows(cfg, apply, empty, Next(cfg, apply, empty, s, step).value, After(apply, m, step))
  {
    hide Inv, Shows;
    match step
    case Command(c) => ShowCommand(cfg, apply, empty, s, m, c);
    case Flush(n) => ShowFlush(cfg, apply, empty, s, m, n);
    case StartAppendOnly => ShowSwitch(cfg, apply, empty, s, m, step);
    case AbandonStart => ShowSwitch(cfg, apply, empty, s, m, step);
    case StopAppendOnly(stored) => ShowSwitch(cfg, apply, empty, s, m, step);
    case OpenIncr(ok, start) => ShowOpenIncr(cfg, apply, empty, s, m, ok, start);
    case PersistIncr(result) => ShowPersistIncr(cfg, apply, empty, s, m, result);
    case Fork(ok) => ShowSwitch(cfg, apply, empty, s, m, step);
    case ChildSaves => ShowSwitch(cfg, apply, empty, s, m, step);
    case ChildFails =>
      ShowGiveUp(cfg, apply, empty, s, m, {});
      assert s.disk - {} == s.disk;
    case RenameBase(ok) => ShowRenameBase(cfg, apply, empty, s, m, ok);
    case RenameIncr(ok, start) => ShowRenameIncr(cfg, apply, empty, s, m, ok, start);
    case PersistRewrite(result) =>
      if result.Stored? {
        ShowPersistRewrite(cfg, apply, empty, s, m);
      } else {
        ShowPersistFailed(cfg, apply, empty, s, m);
      }
    case DeleteOne => ShowDelete(cfg, apply, empty, s, m);
    case Finish(stored) => ShowFinish(cfg, apply, empty, s, m, stored);
    case Restart(on, torn, rdb) => ShowRestart(cfg, apply, empty, s, m, on, torn, rdb);
    case BootBase => ShowBootBase(cfg, apply, empty, s, m);
    case BootIncr(start) => ShowBootIncr(cfg, apply, empty, s, m, start);
    case BootPersist(result) => ShowBootPersist(cfg, apply, empty, s, m, result);
  }

  lemma {:induction false} RunShows<D, C>(cfg: Config, apply: (D, C) -> D, empty: D, s: State<D, C>, m: Ideal<D, C>,
                                          steps: seq<Step<D, C>>)
    requires Inv(cfg, apply, empty, s) && Shows(cfg, apply, empty, s, m) && CleanRun(cfg, apply, empty, s, steps)
    ensures var r := Run(cfg, apply, empty, s, steps);
      r.Some? ==> Inv(cfg, apply, empty, r.value) && Shows(cfg, apply, empty, r.value, IdealRun(apply, m, steps))
    decreases |steps|
  {
    hide Inv, Shows, Clean, Next, After;
    if steps != [] {
      var r := Next(cfg, apply, empty, s, steps[0]);
      if r.Some? {
        KeepStep(cfg, apply, empty, s, steps[0]);
        ShowStep(cfg, apply, empty, s, m, steps[0]);
        RunShows(cfg, apply, empty, r.value, After(apply, m, steps[0]), steps[1..]);
      }
    }
  }

  lemma StartShows<D, C>(cfg: Config, apply: (D, C) -> D, empty: D)
    ensures Shows(cfg, apply, empty, StartOff<D, C>(empty), IdealOff<D, C>(empty))
  {
  }

  /** Every run ends with the state, the dataset, the buffer and the child of the machine without files, and
      the manifest on disk is complete and replays to what that machine says a new process loads. */
  lemma RunIsIdeal<D, C>(cfg: Config, apply: (D, C) -> D, empty: D, steps: seq<Step<D, C>>)
    requires CleanRun(cfg, apply, empty, StartOff(empty), steps)
    ensures var r := Run(cfg, apply, empty, StartOff(empty), steps);
      r.Some? ==>
        var s, m := r.value, IdealRun(apply, IdealOff(empty), steps);
        && s.aof == m.mode && s.data == m.data && s.buf == m.pending && s.fd.Some? == m.open
        && (s.child.Some? <==> m.child.Some?) && (s.child.Some? ==> s.child.value.snapshot == m.child.value)
        && AllPresent(s.persisted, s.disk) && Replay(apply, empty, s.persisted, s.disk) == Recovered(apply, m)
  {
    hide Inv, CleanRun, Run, IdealRun, Shows, AllPresent, Replay, Recovered, IdealOff;
    StartOffValid<D, C>(cfg, apply, empty);
    StartShows<D, C>(cfg, apply, empty);
    RunShows(cfg, apply, empty, StartOff(empty), IdealOff(empty), steps);
    var r := Run(cfg, apply, empty, StartOff(empty), steps);
    if r.Some? { ShowsAll(cfg, apply, empty, r.value, IdealRun(apply, IdealOff(empty), steps)); }
  }

  lemma ShowsAll<D, C>(cfg: Config, apply: (D, C) -> D, empty: D, s: State<D, C>, m: Ideal<D, C>)
    requires Inv(cfg, apply, empty, s) && Shows(cfg, apply, empty, s, m)
    ensures SameFront(s, m)
    ensures AllPresent(s.persisted, s.disk) && Replay(apply, empty, s.persisted, s.disk) == Recovered(apply, m)
  {
    hide Agree, HistInv, AllPresent, Replay, Recovered, Durable, ChildInv, PhaseInv, Stand;
    PersistedStands(cfg, apply, empty, s, m);
  }
}
