/** What the steps of a run alone tell: whether the append-only file is on, which commands made the dataset, and
    which of them a crash loses. */
module AofHistory {
  import opened CString
  import opened AofManifest
  import opened AofProtocol
  import opened AofRewrite
  import opened AofRestart
  import opened AofIdeal

  // ----- whether the file is on -----

  predicate TurnsOff<D, C>(step: Step<D, C>) {
    step.StopAppendOnly? || step.AbandonStart? || (step.Restart? && !step.on)
  }

  /** An append-only file was asked for, and neither given up nor yet made by a finished rewrite. */
  ghost predicate Waiting<D, C>(steps: seq<Step<D, C>>) {
    exists i :: 0 <= i < |steps| && steps[i].StartAppendOnly?
      && forall k :: i < k < |steps| ==> !TurnsOff(steps[k]) && !steps[k].Restart? && !steps[k].Finish?
  }

  ghost predicate TurnsOn<D, C>(steps: seq<Step<D, C>>, i: nat)
    requires i < |steps|
  {
    (steps[i].Restart? && steps[i].on) || (steps[i].Finish? && Waiting(steps[..i]))
  }

  ghost predicate LeftOn<D, C>(steps: seq<Step<D, C>>) {
    exists i: nat :: i < |steps| && TurnsOn(steps, i) && forall k :: i < k < |steps| ==> !TurnsOff(steps[k])
  }

  lemma WaitingNext<D, C>(steps: seq<Step<D, C>>, x: Step<D, C>)
    ensures Waiting(steps + [x]) <==>
              x.StartAppendOnly? || (Waiting(steps) && !TurnsOff(x) && !x.Restart? && !x.Finish?)
  {
    hide TurnsOff;
    var all := steps + [x];
    if x.StartAppendOnly? {
      assert all[|steps|] == x;
    } else if Waiting(steps) && !TurnsOff(x) && !x.Restart? && !x.Finish? {
      var i :| 0 <= i < |steps| && steps[i].StartAppendOnly?
        && forall k :: i < k < |steps| ==> !TurnsOff(steps[k]) && !steps[k].Restart? && !steps[k].Finish?;
      assert all[i] == steps[i];
    }
    if Waiting(all) && !x.StartAppendOnly? {
      var i :| 0 <= i < |all| && all[i].StartAppendOnly?
        && forall k :: i < k < |all| ==> !TurnsOff(all[k]) && !all[k].Restart? && !all[k].Finish?;
      assert all[|steps|] == x;
      assert forall k :: 0 <= k < |steps| ==> steps[k] == all[k];
    }
  }

  lemma LeftOnNext<D, C>(steps: seq<Step<D, C>>, x: Step<D, C>)
    ensures LeftOn(steps + [x]) <==>
              (x.Restart? && x.on) || (x.Finish? && Waiting(steps)) || (LeftOn(steps) && !TurnsOff(x))
  {
    hide TurnsOff, Waiting;
    var all := steps + [x];
    assert all[..|steps|] == steps && all[|steps|] == x;
    assert TurnsOn(all, |steps|) <==> (x.Restart? && x.on) || (x.Finish? && Waiting(steps));
    forall i | 0 <= i < |steps| ensures TurnsOn(all, i) <==> TurnsOn(steps, i) { assert all[..i] == steps[..i]; }
    if LeftOn(steps) && !TurnsOff(x) {
      var i: nat :| i < |steps| && TurnsOn(steps, i) && forall k :: i < k < |steps| ==> !TurnsOff(steps[k]);
      assert TurnsOn(all, i);
    }
    if LeftOn(all) && !TurnsOn(all, |steps|) {
      var i: nat :| i < |all| && TurnsOn(all, i) && forall k :: i < k < |all| ==> !TurnsOff(all[k]);
      assert forall k :: 0 <= k < |steps| ==> steps[k] == all[k];
    }
  }

  /** The state of the file as the steps before it tell it. */
  ghost predicate Switched<D, C>(s: State<D, C>, steps: seq<Step<D, C>>) {
    && (s.aof.On? <==> LeftOn(steps) && !s.phase.Down?)
    && (s.aof.WaitRewrite? <==> Waiting(steps))
    && (Booting(s) ==> s.aof.On?) && (s.phase.Down? ==> s.aof.Off?)
  }

  lemma NothingSwitched<D, C>(empty: D)
    ensures Switched(StartOff<D, C>(empty), [])
  {
  }

  lemma SwitchStep<D, C>(cfg: Config, apply: (D, C) -> D, empty: D, s: State<D, C>, steps: seq<Step<D, C>>,
                         x: Step<D, C>)
    requires Switched(s, steps) && Next(cfg, apply, empty, s, x).Some?
    ensures Switched(Next(cfg, apply, empty, s, x).value, steps + [x])
  {
    hide Waiting, LeftOn, Replay, AllPresent, WritesInside, Apply, NewIncr, NewBase, MarkRewritten, NextIncrName,
      TempIncr, Reloaded, WithBase;
    WaitingNext(steps, x);
    LeftOnNext(steps, x);
  }

  lemma RunLast<D, C>(cfg: Config, apply: (D, C) -> D, empty: D, s: State<D, C>, steps: seq<Step<D, C>>)
    requires steps != []
    ensures var n := |steps| - 1;
      Run(cfg, apply, empty, s, steps) == match Run(cfg, apply, empty, s, steps[..n])
                                          case None => None
                                          case Some(s') => Next(cfg, apply, empty, s', steps[n])
  {
    hide Next, Run;
    var n := |steps| - 1;
    assert steps == steps[..n] + [steps[n]];
    RunAppend(cfg, apply, empty, s, steps[..n], [steps[n]]);
    var r := Run(cfg, apply, empty, s, steps[..n]);
    if r.Some? { RunOne(cfg, apply, empty, r.value, steps[n]); }
  }

  lemma {:induction false} RunSwitches<D, C>(cfg: Config, apply: (D, C) -> D, empty: D, steps: seq<Step<D, C>>)
    ensures var r := Run(cfg, apply, empty, StartOff(empty), steps); r.Some? ==> Switched(r.value, steps)
    decreases |steps|
  {
    hide Next, Switched;
    if steps == [] {
      NothingSwitched<D, C>(empty);
    } else {
      hide Run;
      var n := |steps| - 1;
      RunLast(cfg, apply, empty, StartOff(empty), steps);
      RunSwitches(cfg, apply, empty, steps[..n]);
      var r := Run(cfg, apply, empty, StartOff(empty), steps[..n]);
      if r.Some? && Next(cfg, apply, empty, r.value, steps[n]).Some? {
        SwitchStep(cfg, apply, empty, r.value, steps[..n], steps[n]);
        assert steps == steps[..n] + [steps[n]];
      }
    }
  }

  /** In every run the append-only file is on exactly if the last step that switched it turned it on: the start of
      a process with the file on, or the end of the first rewrite after the file was asked for. A process that
      exits while it starts is the one exception. */
  lemma OnExactly<D, C>(cfg: Config, apply: (D, C) -> D, empty: D, steps: seq<Step<D, C>>)
    ensures var r := Run(cfg, apply, empty, StartOff(empty), steps);
      r.Some? ==>
        && (r.value.aof.On? <==> LeftOn(steps) && !r.value.phase.Down?)
        && (r.value.aof.WaitRewrite? <==> Waiting(steps))
  {
    hide Run, Next, LeftOn, Waiting;
    RunSwitches(cfg, apply, empty, steps);
  }

  /** A process exits while it starts exactly if it had to make a new INCR file and the manifest that lists it
      was not persisted, or not as far as it was told. */
  lemma ExitsExactly<D, C>(cfg: Config, apply: (D, C) -> D, empty: D, steps: seq<Step<D, C>>, x: Step<D, C>)
    requires CleanRun(cfg, apply, empty, StartOff(empty), steps)
    ensures var s := Run(cfg, apply, empty, StartOff(empty), steps);
            var r := Run(cfg, apply, empty, StartOff(empty), steps + [x]);
      r.Some? ==>
        s.Some? && (r.value.phase.Down? <==> x.BootPersist? && !x.result.Stored? && s.value.mem.incr == [])
  {
    hide Run, CleanRun, Inv, Shows, IdealRun, IdealOff;
    var all := steps + [x];
    assert all[..|steps|] == steps && all[|steps|] == x;
    RunLast(cfg, apply, empty, StartOff(empty), all);
    StartOffValid<D, C>(cfg, apply, empty);
    StartShows<D, C>(cfg, apply, empty);
    RunShows(cfg, apply, empty, StartOff(empty), IdealOff(empty), steps);
    var s := Run(cfg, apply, empty, StartOff(empty), steps);
    if s.Some? && x.BootPersist? { BootDirty(cfg, apply, empty, s.value, IdealRun(apply, IdealOff(empty), steps)); }
    if s.Some? { OnlyBootExits(cfg, apply, empty, s.value, x); }
  }

  lemma BootDirty<D, C>(cfg: Config, apply: (D, C) -> D, empty: D, s: State<D, C>, m: Ideal<D, C>)
    requires Shows(cfg, apply, empty, s, m)
    ensures s.phase.Booted? ==> (s.phase.am.dirty <==> s.mem.incr == [])
  {
    hide Stand, ExtraIs, CollectedIs;
  }

  lemma OnlyBootExits<D, C>(cfg: Config, apply: (D, C) -> D, empty: D, s: State<D, C>, x: Step<D, C>)
    ensures var r := Next(cfg, apply, empty, s, x);
      r.Some? ==>
        (r.value.phase.Down? <==>
           x.BootPersist? && !x.result.Stored? && s.phase.Booted? && s.phase.am.dirty)
  {
    hide Replay, AllPresent, WritesInside, Apply, NewIncr, NewBase, MarkRewritten, NextIncrName, TempIncr, Reloaded,
      WithBase;
  }

  // ----- which commands made the dataset, and which are not written yet -----

  function Commands<D, C>(steps: seq<Step<D, C>>): seq<C> {
    if steps == [] then [] else (if steps[0].Command? then [steps[0].c] else []) + Commands(steps[1..])
  }

  function FlushedBy<D, C>(steps: seq<Step<D, C>>): nat {
    if steps == [] then 0 else (if steps[0].Flush? then steps[0].n else 0) + FlushedBy(steps[1..])
  }

  ghost predicate NoRestart<D, C>(steps: seq<Step<D, C>>) { forall i :: 0 <= i < |steps| ==> !steps[i].Restart? }

  ghost predicate NoStop<D, C>(steps: seq<Step<D, C>>) { forall i :: 0 <= i < |steps| ==> !steps[i].StopAppendOnly? }

  lemma DataStep<D, C>(cfg: Config, apply: (D, C) -> D, empty: D, s: State<D, C>, x: Step<D, C>)
    requires !x.Restart?
    ensures var r := Next(cfg, apply, empty, s, x);
      r.Some? ==> r.value.data == if x.Command? then apply(s.data, x.c) else s.data
  {
    hide Apply, NewIncr, NewBase, MarkRewritten, NextIncrName, TempIncr, WithBase;
  }

  lemma ApplyFirst<D, C>(apply: (D, C) -> D, d: D, c: C, cs: seq<C>)
    ensures Apply(apply, d, [c] + cs) == Apply(apply, apply(d, c), cs)
  {
    ApplyAppend(apply, d, [c], cs);
    assert [c][..0] == [];
  }

  /** Until the next restart, whatever else happens, the dataset is the old one with the commands applied. */
  lemma {:induction false} DataIsCommands<D, C>(cfg: Config, apply: (D, C) -> D, empty: D, s: State<D, C>,
                                                steps: seq<Step<D, C>>)
    requires NoRestart(steps)
    ensures var r := Run(cfg, apply, empty, s, steps);
      r.Some? ==> r.value.data == Apply(apply, s.data, Commands(steps))
    decreases |steps|
  {
    hide Next, Apply;
    if steps == [] {
      ApplyNone(apply, s.data);
    } else {
      var r := Next(cfg, apply, empty, s, steps[0]);
      DataStep(cfg, apply, empty, s, steps[0]);
      if r.Some? {
        DataIsCommands(cfg, apply, empty, r.value, steps[1..]);
        if steps[0].Command? {
          ApplyFirst(apply, s.data, steps[0].c, Commands(steps[1..]));
        } else {
          assert Commands(steps) == Commands(steps[1..]);
        }
      }
    }
  }

  lemma BufferStep<D, C>(cfg: Config, apply: (D, C) -> D, empty: D, s: State<D, C>, x: Step<D, C>)
    requires s.aof.On? && !x.Restart? && !x.StopAppendOnly?
    ensures var r := Next(cfg, apply, empty, s, x);
      r.Some? ==>
        && (r.value.aof.On? || (r.value.phase.Down? && x.BootPersist?))
        && (x.Flush? ==> x.n <= |s.buf|)
        && r.value.buf == match x
                          case Command(c) => s.buf + [c]
                          case Flush(n) => s.buf[n..]
                          case _ => s.buf
  {
    hide Apply, NewIncr, NewBase, MarkRewritten, NextIncrName, TempIncr, WithBase;
  }

  lemma StaysDown<D, C>(cfg: Config, apply: (D, C) -> D, empty: D, s: State<D, C>, steps: seq<Step<D, C>>)
    requires s.phase.Down? && NoRestart(steps) && steps != []
    ensures Run(cfg, apply, empty, s, steps).None?
  {
  }

  lemma QueueNext<D, C>(buf: seq<C>, buf': seq<C>, x: Step<D, C>, rest: seq<Step<D, C>>)
    requires x.Flush? ==> x.n <= |buf|
    requires buf' == match x
                     case Command(c) => buf + [c]
                     case Flush(n) => buf[n..]
                     case _ => buf
    ensures var (q, q') := (buf + Commands([x] + rest), buf' + Commands(rest));
      && FlushedBy([x] + rest) - FlushedBy(rest) == |q| - |q'|
      && (FlushedBy(rest) <= |q'| ==> q'[FlushedBy(rest)..] == q[FlushedBy([x] + rest)..])
  {
    hide Commands, FlushedBy;
    CommandsFirst(x, rest);
    var q, q' := buf + Commands([x] + rest), buf' + Commands(rest);
    if x.Command? {
      assert q == q';
    } else if x.Flush? {
      assert q' == q[x.n..];
    }
  }

  lemma CommandsFirst<D, C>(x: Step<D, C>, rest: seq<Step<D, C>>)
    ensures Commands([x] + rest) == (if x.Command? then [x.c] else []) + Commands(rest)
    ensures FlushedBy([x] + rest) == (if x.Flush? then x.n else 0) + FlushedBy(rest)
  {
    assert ([x] + rest)[1..] == rest;
  }

  /** While the file is on the buffer is a queue: commands join it at the end, and only a flush takes them out, from
      the front, until the file is stopped or the process ends. */
  lemma {:induction false} BufferIsQueue<D, C>(cfg: Config, apply: (D, C) -> D, empty: D, s: State<D, C>,
                                               steps: seq<Step<D, C>>)
    requires s.aof.On? && NoRestart(steps) && NoStop(steps)
    ensures var r := Run(cfg, apply, empty, s, steps);
      r.Some? ==>
        && FlushedBy(steps) <= |s.buf + Commands(steps)|
        && r.value.buf == (s.buf + Commands(steps))[FlushedBy(steps)..]
    decreases |steps|
  {
    hide Next, Commands, FlushedBy;
    NoCommands<D, C>();
    if steps == [] {
      assert s.buf + [] == s.buf;
    } else {
      var r, x, rest := Next(cfg, apply, empty, s, steps[0]), steps[0], steps[1..];
      BufferStep(cfg, apply, empty, s, x);
      if r.Some? {
        assert steps == [x] + rest;
        QueueNext(s.buf, r.value.buf, x, rest);
        if r.value.aof.On? {
          BufferIsQueue(cfg, apply, empty, r.value, rest);
        } else if rest != [] {
          StaysDown(cfg, apply, empty, r.value, rest);
        }
      }
    }
  }

  lemma NoCommands<D, C>()
    ensures Commands<D, C>([]) == [] && FlushedBy<D, C>([]) == 0
  {
  }

  // ----- which commands a crash loses -----

  /** The commands written to the file and those not yet written, told from the steps of a server whose file is
      always on: a crash drops the second list and touches nothing else. */
  datatype Lists<C> = Lists(kept: seq<C>, pending: seq<C>)

  function ListsNext<D, C>(l: Lists<C>, x: Step<D, C>): Lists<C> {
    match x
    case Command(c) => l.(pending := l.pending + [c])
    case Flush(n) => if n > |l.pending| then l else Lists(l.kept + l.pending[..n], l.pending[n..])
    case Restart(_, _, _) => l.(pending := [])
    case _ => l
  }

  function ListsRun<D, C>(l: Lists<C>, steps: seq<Step<D, C>>): Lists<C>
    decreases |steps|
  {
    if steps == [] then l else ListsRun(ListsNext(l, steps[0]), steps[1..])
  }

  predicate StaysOn<D, C>(x: Step<D, C>) { !x.StopAppendOnly? && (x.Restart? ==> x.on) }

  /** The machine without files holds the two lists, and a rewrite under way will save what is saved already. */
  ghost predicate Holds<D, C>(apply: (D, C) -> D, empty: D, m: Ideal<D, C>, l: Lists<C>) {
    && m.pending == l.pending && m.saved == Apply(apply, empty, l.kept)
    && m.data == Apply(apply, m.saved, m.pending)
    && OrNone(m.extra) == []
    && (m.child.Some? ==> m.open && m.tail.Some? && Apply(apply, m.child.value, m.tail.value) == m.saved)
  }

  ghost predicate OnOrDown<D, C>(s: State<D, C>) { s.aof.On? || (s.phase.Down? && s.buf == []) }

  lemma HoldsFlush<D, C>(apply: (D, C) -> D, empty: D, m: Ideal<D, C>, l: Lists<C>, n: nat)
    requires Holds(apply, empty, m, l) && m.mode.On? && n <= |m.pending|
    ensures Holds(apply, empty, After(apply, m, Flush(n)), ListsNext<D, C>(l, Flush(n)))
  {
    hide Apply;
    var out := m.pending[..n];
    assert m.pending == out + m.pending[n..];
    ApplyAppend(apply, empty, l.kept, out);
    ApplyAppend(apply, m.saved, out, m.pending[n..]);
    if m.child.Some? { ApplyAppend(apply, m.child.value, m.tail.value, out); }
  }

  lemma HoldsCommand<D, C>(apply: (D, C) -> D, empty: D, m: Ideal<D, C>, l: Lists<C>, c: C)
    requires Holds(apply, empty, m, l) && m.mode.On?
    ensures Holds(apply, empty, After(apply, m, Command(c)), ListsNext<D, C>(l, Command(c)))
  {
    hide Apply;
    ApplyOne(apply, m.saved, m.pending, c);
  }

  /** The fork comes right after a new file was opened and nothing was left to write. */
  lemma HoldsFork<D, C>(cfg: Config, apply: (D, C) -> D, empty: D, s: State<D, C>, m: Ideal<D, C>, l: Lists<C>,
                        ok: bool)
    requires Inv(cfg, apply, empty, s) && Shows(cfg, apply, empty, s, m) && Holds(apply, empty, m, l)
    requires s.aof.On? && s.phase.ReadyToFork?
    ensures Holds(apply, empty, After(apply, m, Fork(ok)), ListsNext<D, C>(l, Fork(ok)))
  {
    hide Agree, HistInv, Apply, Replay, TempIncr, Durable, ChildInv, AllPresent;
    ApplyNone(apply, m.saved);
  }

  lemma StayStep<D, C>(cfg: Config, apply: (D, C) -> D, empty: D, s: State<D, C>, x: Step<D, C>)
    requires Inv(cfg, apply, empty, s) && OnOrDown(s) && StaysOn(x) && Next(cfg, apply, empty, s, x).Some?
    ensures OnOrDown(Next(cfg, apply, empty, s, x).value)
    ensures !x.StartAppendOnly? && !x.AbandonStart? && (s.phase.Down? ==> x.Restart?)
    ensures (x.PersistIncr? ==> s.child.None?) && (x.Fork? ==> s.phase.ReadyToFork?)
    ensures (x.BootIncr? ==> s.child.None?) && (x.BootPersist? ==> s.child.None?)
    ensures x.Flush? ==> x.n <= |s.buf|
  {
    hide Agree, HistInv, Apply, Replay, TempIncr, Durable, ChildInv, AllPresent, NewIncr, NewBase, MarkRewritten,
      NextIncrName, Reloaded, WithBase, WritesInside, Live;
  }

  /** The other steps leave both lists. */
  lemma HoldsOther<D, C>(apply: (D, C) -> D, empty: D, m: Ideal<D, C>, l: Lists<C>, x: Step<D, C>)
    requires Holds(apply, empty, m, l) && (m.mode.On? || x.Restart?) && StaysOn(x)
    requires !x.Command? && !x.Flush? && !x.Fork? && !x.StartAppendOnly? && !x.AbandonStart?
    requires x.PersistIncr? || x.BootIncr? || x.BootPersist? ==> m.child.None?
    ensures Holds(apply, empty, After(apply, m, x), ListsNext(l, x))
  {
    hide Apply;
    ApplyNone(apply, m.saved);
  }

  lemma HoldsStep<D, C>(cfg: Config, apply: (D, C) -> D, empty: D, s: State<D, C>, m: Ideal<D, C>, l: Lists<C>,
                        x: Step<D, C>)
    requires Inv(cfg, apply, empty, s) && Shows(cfg, apply, empty, s, m) && Holds(apply, empty, m, l) && OnOrDown(s)
    requires StaysOn(x) && Next(cfg, apply, empty, s, x).Some?
    ensures Holds(apply, empty, After(apply, m, x), ListsNext(l, x)) && OnOrDown(Next(cfg, apply, empty, s, x).value)
  {
    hide Inv, Next, After, Holds, Stand, ExtraIs, CollectedIs, BootIs, StaysOn;
    StayStep(cfg, apply, empty, s, x);
    if x.Command? {
      HoldsCommand(apply, empty, m, l, x.c);
    } else if x.Flush? {
      HoldsFlush(apply, empty, m, l, x.n);
    } else if x.Fork? {
      HoldsFork(cfg, apply, empty, s, m, l, x.ok);
    } else {
      HoldsOther(apply, empty, m, l, x);
    }
  }

  lemma {:induction false} RunHolds<D, C>(cfg: Config, apply: (D, C) -> D, empty: D, s: State<D, C>, m: Ideal<D, C>,
                                          l: Lists<C>, steps: seq<Step<D, C>>)
    requires Inv(cfg, apply, empty, s) && Shows(cfg, apply, empty, s, m) && Holds(apply, empty, m, l) && OnOrDown(s)
    requires CleanRun(cfg, apply, empty, s, steps) && forall i :: 0 <= i < |steps| ==> StaysOn(steps[i])
    ensures var r := Run(cfg, apply, empty, s, steps);
      r.Some? ==>
        && Inv(cfg, apply, empty, r.value) && Shows(cfg, apply, empty, r.value, IdealRun(apply, m, steps))
        && Holds(apply, empty, IdealRun(apply, m, steps), ListsRun(l, steps))
    decreases |steps|
  {
    hide Inv, Shows, Holds, OnOrDown, Clean, Next, After, ListsNext, StaysOn;
    if steps != [] {
      var r := Next(cfg, apply, empty, s, steps[0]);
      if r.Some? {
        KeepStep(cfg, apply, empty, s, steps[0]);
        ShowStep(cfg, apply, empty, s, m, steps[0]);
        HoldsStep(cfg, apply, empty, s, m, l, steps[0]);
        RunHolds(cfg, apply, empty, r.value, After(apply, m, steps[0]), ListsNext(l, steps[0]), steps[1..]);
      }
    }
  }

  /** A server whose file is on from its first start and never stopped, through any number of crashes, restarts and
      rewrites: the files on disk replay to exactly the commands flushed before, in the order in which they were
      executed, and the dataset is these with the commands in the buffer. */
  lemma CrashesDropTheBuffer<D, C>(cfg: Config, apply: (D, C) -> D, empty: D, torn: bool, rdb: D,
                                   steps: seq<Step<D, C>>)
    requires CleanRun(cfg, apply, empty, StartOff(empty), [Restart(true, torn, rdb)] + steps)
    requires forall i :: 0 <= i < |steps| ==> StaysOn(steps[i])
    ensures var r := Run(cfg, apply, empty, StartOff(empty), [Restart(true, torn, rdb)] + steps);
      r.Some? ==>
        var s, l := r.value, ListsRun(Lists([], []), steps);
        && s.data == Apply(apply, empty, l.kept + l.pending) && s.buf == l.pending
        && AllPresent(s.persisted, s.disk) && Replay(apply, empty, s.persisted, s.disk) == Apply(apply, empty, l.kept)
  {
    hide Inv, Shows, Holds, Clean, Next, After, ListsRun, IdealRun, StaysOn, Apply, Replay, AllPresent, OnOrDown;
    var first := Restart(true, torn, rdb);
    assert ([first] + steps)[0] == first && ([first] + steps)[1..] == steps;
    var s0, m0: Ideal<D, C> := StartOff(empty), IdealOff(empty);
    var r0 := Next(cfg, apply, empty, s0, first);
    StartOffValid<D, C>(cfg, apply, empty);
    StartShows<D, C>(cfg, apply, empty);
    if r0.Some? {
      KeepStep(cfg, apply, empty, s0, first);
      ShowStep(cfg, apply, empty, s0, m0, first);
      var m := After(apply, m0, first);
      FirstStart(cfg, apply, empty, torn, rdb);
      RunHolds(cfg, apply, empty, r0.value, m, Lists([], []), steps);
      var r := Run(cfg, apply, empty, r0.value, steps);
      if r.Some? { HoldsShown(cfg, apply, empty, r.value, IdealRun(apply, m, steps), ListsRun(Lists([], []), steps)); }
    }
  }

  lemma FirstStart<D, C>(cfg: Config, apply: (D, C) -> D, empty: D, torn: bool, rdb: D)
    requires Next<D, C>(cfg, apply, empty, StartOff(empty), Restart(true, torn, rdb)).Some?
    ensures var first: Step<D, C> := Restart(true, torn, rdb);
      && OnOrDown(Next(cfg, apply, empty, StartOff(empty), first).value)
      && Holds(apply, empty, After(apply, IdealOff(empty), first), Lists([], []))
  {
    hide Apply, WritesInside;
    ApplyNone(apply, empty);
  }

  lemma HoldsShown<D, C>(cfg: Config, apply: (D, C) -> D, empty: D, s: State<D, C>, m: Ideal<D, C>, l: Lists<C>)
    requires Inv(cfg, apply, empty, s) && Shows(cfg, apply, empty, s, m) && Holds(apply, empty, m, l)
    ensures s.data == Apply(apply, empty, l.kept + l.pending) && s.buf == l.pending
    ensures AllPresent(s.persisted, s.disk) && Replay(apply, empty, s.persisted, s.disk) == Apply(apply, empty, l.kept)
  {
    hide Inv, Shows, Apply, Replay, AllPresent;
    ShowsAll(cfg, apply, empty, s, m);
    ApplyNone(apply, m.saved);
    ApplyAppend(apply, empty, l.kept, l.pending);
  }

  // ----- no state is a dead end -----

  /** The file is on, everything is written and no rewrite is under way. */
  predicate Settled<D, C>(s: State<D, C>) { s.aof.On? && s.phase.Idle? && s.child.None? && s.buf == [] }

  /** A step towards that. */
  function Onward<D, C>(cfg: Config, s: State<D, C>): Step<D, C> {
    match s.phase
    case Opened(_) => PersistIncr(Stored)
    case ReadyToFork => Fork(true)
    case BaseRenamed(_) => RenameIncr(true, 0)
    case IncrRenamed(_) => PersistRewrite(Stored)
    case Deleting => if cfg.disableGc || s.mem.hist == [] then Finish(true) else DeleteOne
    case _ =>
      if s.aof.Off? then StartAppendOnly
      else if s.child.Some? then (if s.child.value.saved then RenameBase(true) else ChildSaves)
      else if s.aof.WaitRewrite? then OpenIncr(true, 0)
      else Flush(|s.buf|)
  }

  function Ahead<D, C>(s: State<D, C>): nat {
    match s.phase
    case Opened(_) => 9
    case ReadyToFork => 8
    case BaseRenamed(_) => 5
    case IncrRenamed(_) => 4
    case Deleting => 3
    case _ =>
      if s.aof.Off? then 0
      else if s.child.Some? then (if s.child.value.saved then 6 else 7)
      else if s.aof.WaitRewrite? then 9
      else 1
  }

  function History<D, C>(s: State<D, C>): nat { if s.phase.Deleting? then |s.mem.hist| else 0 }

  ghost predicate Serving<D, C>(s: State<D, C>) { !Booting(s) && !s.phase.Down? }

  ghost predicate Nearer<D, C>(s: State<D, C>, s': State<D, C>) {
    && Serving(s') && (s.aof.Off? || !s'.aof.Off?)
    && ((s.aof.Off? && !s'.aof.Off?) || Ahead(s') < Ahead(s) || Settled(s')
        || (Ahead(s') == Ahead(s) && History(s') < History(s)))
  }

  lemma OnwardFromIdle<D, C>(cfg: Config, apply: (D, C) -> D, empty: D, s: State<D, C>)
    requires Inv(cfg, apply, empty, s) && s.phase.Idle? && !Settled(s)
    ensures Clean(cfg, s, Onward(cfg, s))
    ensures var r := Next(cfg, apply, empty, s, Onward(cfg, s)); r.Some? && Nearer(s, r.value)
  {
    hide Agree, HistInv, Live, Apply, Replay, TempIncr, IncrName, BaseName, NewIncr, NextIncrName, Durable, ChildInv;
    AgreeLive(cfg, s);
  }

  lemma OnwardToFork<D, C>(cfg: Config, apply: (D, C) -> D, empty: D, s: State<D, C>)
    requires Inv(cfg, apply, empty, s) && (s.phase.Opened? || s.phase.ReadyToFork? || s.phase.Deleting?)
    ensures Clean(cfg, s, Onward(cfg, s))
    ensures var r := Next(cfg, apply, empty, s, Onward(cfg, s)); r.Some? && Nearer(s, r.value)
  {
    hide Agree, HistInv, Live, Apply, Replay, TempIncr, IncrName, NewIncr, NextIncrName, Durable, ChildInv;
  }

  lemma OnwardToBase<D, C>(cfg: Config, apply: (D, C) -> D, empty: D, s: State<D, C>)
    requires Inv(cfg, apply, empty, s) && s.phase.BaseRenamed?
    ensures Clean(cfg, s, Onward(cfg, s))
    ensures var r := Next(cfg, apply, empty, s, Onward(cfg, s)); r.Some? && Nearer(s, r.value)
  {
    hide Agree, HistInv, Live, Apply, Replay, TempIncr, BaseName, NewIncr, NextIncrName, Durable;
  }

  lemma OnwardToEnd<D, C>(cfg: Config, apply: (D, C) -> D, empty: D, s: State<D, C>)
    requires Inv(cfg, apply, empty, s) && s.phase.IncrRenamed?
    ensures Clean(cfg, s, Onward(cfg, s))
    ensures var r := Next(cfg, apply, empty, s, Onward(cfg, s)); r.Some? && Nearer(s, r.value)
  {
    hide Agree, HistInv, Live, Apply, Replay, BaseName, IncrName, Durable, ChildInv, MarkRewritten;
  }

  lemma OnwardPossible<D, C>(cfg: Config, apply: (D, C) -> D, empty: D, s: State<D, C>)
    requires Inv(cfg, apply, empty, s) && Serving(s) && !Settled(s)
    ensures Clean(cfg, s, Onward(cfg, s))
    ensures var r := Next(cfg, apply, empty, s, Onward(cfg, s)); r.Some? && Nearer(s, r.value)
  {
    hide Inv, Next, Clean, Onward, Nearer, Settled;
    if s.phase.Idle? {
      OnwardFromIdle(cfg, apply, empty, s);
    } else if s.phase.BaseRenamed? {
      OnwardToBase(cfg, apply, empty, s);
    } else if s.phase.IncrRenamed? {
      OnwardToEnd(cfg, apply, empty, s);
    } else {
      OnwardToFork(cfg, apply, empty, s);
    }
  }

  ghost predicate Settles<D, C>(cfg: Config, apply: (D, C) -> D, empty: D, s: State<D, C>, steps: seq<Step<D, C>>) {
    && CleanRun(cfg, apply, empty, s, steps) && NoRestart(steps)
    && var r := Run(cfg, apply, empty, s, steps); r.Some? && Settled(r.value) && r.value.data == s.data
  }

  lemma {:induction false} WaySettles<D, C>(cfg: Config, apply: (D, C) -> D, empty: D, s: State<D, C>)
    returns (steps: seq<Step<D, C>>)
    requires Inv(cfg, apply, empty, s) && Serving(s)
    ensures Settles(cfg, apply, empty, s, steps)
    decreases s.aof.Off?, !Settled(s), Ahead(s), History(s)
  {
    hide Inv, Next, Clean, Settled, Ahead, History, Serving;
    if Settled(s) {
      steps := [];
    } else {
      var x := Onward(cfg, s);
      OnwardPossible(cfg, apply, empty, s);
      KeepStep(cfg, apply, empty, s, x);
      DataStep(cfg, apply, empty, s, x);
      var s' := Next(cfg, apply, empty, s, x).value;
      var rest := WaySettles(cfg, apply, empty, s');
      steps := [x] + rest;
      assert steps[0] == x && steps[1..] == rest;
    }
  }

  /** No state of a run is a dead end: unless a process is just starting or has exited, some steps from there, no
      restart among them, turn the file on, end every rewrite and put the dataset as it is on disk. */
  lemma NeverStuck<D, C>(cfg: Config, apply: (D, C) -> D, empty: D, steps: seq<Step<D, C>>)
    requires CleanRun(cfg, apply, empty, StartOff(empty), steps)
    ensures var r := Run(cfg, apply, empty, StartOff(empty), steps);
      r.Some? && Serving(r.value) ==> exists more :: SavesAll(cfg, apply, empty, r.value, more)
  {
    hide Inv, CleanRun, Run, Serving, SavesAll, Settles;
    StartOffValid<D, C>(cfg, apply, empty);
    RunKeeps(cfg, apply, empty, StartOff(empty), steps);
    var r := Run(cfg, apply, empty, StartOff(empty), steps);
    if r.Some? && Serving(r.value) {
      var more := WaySettles(cfg, apply, empty, r.value);
      SettledSaves(cfg, apply, empty, r.value, more);
    }
  }

  /** The steps end with the file on, no rewrite under way, and the dataset they began with in the files. */
  ghost predicate SavesAll<D, C>(cfg: Config, apply: (D, C) -> D, empty: D, s: State<D, C>, more: seq<Step<D, C>>) {
    var r := Run(cfg, apply, empty, s, more);
    && NoRestart(more) && r.Some? && Settled(r.value) && r.value.data == s.data
    && AllPresent(r.value.persisted, r.value.disk)
    && Replay(apply, empty, r.value.persisted, r.value.disk) == s.data
  }

  lemma SettledSaves<D, C>(cfg: Config, apply: (D, C) -> D, empty: D, s: State<D, C>, more: seq<Step<D, C>>)
    requires Inv(cfg, apply, empty, s) && Settles(cfg, apply, empty, s, more)
    ensures SavesAll(cfg, apply, empty, s, more)
  {
    hide Inv, CleanRun, Run, AllPresent, Replay, Recoverable;
    RunKeeps(cfg, apply, empty, s, more);
    var r := Run(cfg, apply, empty, s, more).value;
    InvRecovers(cfg, apply, empty, r);
    RecoveredData(apply, empty, r);
    ApplyNone(apply, Replay(apply, empty, r.persisted, r.disk));
  }

  /** Between the steps of a rewrite the server is free: it executes any command, and with the file on it can write
      any front of the buffer, and stop the file; with the file off it can be asked for. */
  lemma ServesWhenIdle<D, C>(cfg: Config, apply: (D, C) -> D, empty: D, steps: seq<Step<D, C>>, c: C, n: nat,
                             stored: bool)
    requires CleanRun(cfg, apply, empty, StartOff(empty), steps)
    ensures var r := Run(cfg, apply, empty, StartOff(empty), steps);
      r.Some? && r.value.phase.Idle? ==>
        var s := r.value;
        && Next(cfg, apply, empty, s, Command(c)).Some? && Next(cfg, apply, empty, s, Flush(0)).Some?
        && (s.aof.On? && n <= |s.buf| ==> Next(cfg, apply, empty, s, Flush(n)).Some?)
        && (!s.aof.Off? <==> Next(cfg, apply, empty, s, StopAppendOnly(stored)).Some?)
        && (s.aof.Off? <==> Next(cfg, apply, empty, s, StartAppendOnly).Some?)
        && (s.aof.WaitRewrite? && s.child.None? <==> Next(cfg, apply, empty, s, AbandonStart).Some?)
  {
    hide Inv, CleanRun, Run;
    StartOffValid<D, C>(cfg, apply, empty);
    RunKeeps(cfg, apply, empty, StartOff(empty), steps);
    var r := Run(cfg, apply, empty, StartOff(empty), steps);
    if r.Some? && r.value.phase.Idle? && r.value.aof.On? { WritesToLog(cfg, apply, empty, r.value); }
  }

  lemma WritesToLog<D, C>(cfg: Config, apply: (D, C) -> D, empty: D, s: State<D, C>)
    requires Inv(cfg, apply, empty, s) && s.phase.Idle? && s.aof.On?
    ensures s.fd.Some? && s.fd.value in s.disk && s.disk[s.fd.value].Log?
  {
    hide Agree, HistInv, Apply, Replay, Live, ChildInv;
    AgreeLive(cfg, s);
  }

  /** The same call, with another answer of the operating system. */
  predicate OtherAnswer<D, C>(x: Step<D, C>, y: Step<D, C>) {
    || (x.StopAppendOnly? && y.StopAppendOnly?)
    || (x.OpenIncr? && y.OpenIncr?)
    || (x.PersistIncr? && y.PersistIncr?)
    || (x.Fork? && y.Fork?)
    || (x.ChildSaves? && y.ChildFails?)
    || (x.RenameBase? && y.RenameBase?)
    || (x.RenameIncr? && y.RenameIncr?)
    || (x.PersistRewrite? && y.PersistRewrite?)
    || (x.Finish? && y.Finish?)
    || (x.BootIncr? && y.BootIncr?)
    || (x.BootPersist? && y.BootPersist?)
  }

  /** Every answer is taken: where a call can succeed it can fail, and the program goes on. */
  lemma AnswersAreTaken<D, C>(cfg: Config, apply: (D, C) -> D, empty: D, s: State<D, C>, x: Step<D, C>, y: Step<D, C>)
    requires OtherAnswer(x, y)
    ensures Next(cfg, apply, empty, s, x).Some? <==> Next(cfg, apply, empty, s, y).Some?
  {
    hide NewIncr, NewBase, MarkRewritten, NextIncrName, TempIncr, WithBase, GiveUp, Reloaded, Replay, AllPresent,
      WritesInside, CommandStep, FlushStep, RestartStep, DeleteOneStep, BootBaseStep, Apply, WithIncr;
    if x.OpenIncr? || x.PersistIncr? || x.RenameBase? {
      hide RenameIncrStep, PersistRewriteStep, FinishStep, BootIncrStep, BootPersistStep, ForkStep, StopAppendOnlyStep;
    } else {
      hide OpenIncrStep, PersistIncrStep, RenameBaseStep;
    }
  }

  /** When the history was deleted and that was stored, the next process finds none; if it was not, that process
      finds the same history again. */
  lemma HistoryAfterFinish<D, C>(cfg: Config, apply: (D, C) -> D, empty: D, s: State<D, C>, stored: bool, on: bool,
                                 torn: bool, rdb: D)
    requires !cfg.disableGc
    ensures var r := Run(cfg, apply, empty, s, [Finish(stored), Restart(on, torn, rdb)]);
      r.Some? ==> r.value.mem.hist == if stored then [] else s.persisted.hist
  {
    hide Run, AllPresent, Replay, WritesInside;
    var first, second: Step<D, C> := Finish(stored), Restart(on, torn, rdb);
    RunAppend(cfg, apply, empty, s, [first], [second]);
    assert [first] + [second] == [first, second];
    RunOne(cfg, apply, empty, s, first);
    var r := Next(cfg, apply, empty, s, first);
    if r.Some? { RunOne(cfg, apply, empty, r.value, second); }
  }
}
