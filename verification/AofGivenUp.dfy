/** A start of the append-only file that is given up leaves its temporary file open, and with it a rewrite done while
    the file is off keeps an INCR file it should have replaced. */
module AofGivenUp {
  import opened CString
  import opened AofManifest
  import opened AofProtocol
  import opened AofRewrite
  import opened AofRestart
  import opened AofIdeal
  import opened AofHistory

  /** A state of a run, the machine without files beside it, and the steps that led there. */
  ghost predicate At<D, C>(cfg: Config, apply: (D, C) -> D, empty: D, s0: State<D, C>, steps: seq<Step<D, C>>,
                           s: State<D, C>, m: Ideal<D, C>) {
    Run(cfg, apply, empty, s0, steps) == Some(s) && Inv(cfg, apply, empty, s) && Shows(cfg, apply, empty, s, m)
  }

  lemma Go<D, C>(cfg: Config, apply: (D, C) -> D, empty: D, s0: State<D, C>, steps: seq<Step<D, C>>, s: State<D, C>,
                 m: Ideal<D, C>, x: Step<D, C>) returns (s': State<D, C>)
    requires At(cfg, apply, empty, s0, steps, s, m) && Clean(cfg, s, x) && Next(cfg, apply, empty, s, x).Some?
    ensures Some(s') == Next(cfg, apply, empty, s, x)
    ensures At(cfg, apply, empty, s0, steps + [x], s', After(apply, m, x))
  {
    hide Inv, Shows, Clean, Next, After, Run;
    s' := Next(cfg, apply, empty, s, x).value;
    KeepStep(cfg, apply, empty, s, x);
    ShowStep(cfg, apply, empty, s, m, x);
    RunAppend(cfg, apply, empty, s0, steps, [x]);
    RunOne(cfg, apply, empty, s, x);
  }

  /** The file is stopped and asked for again, the fork fails, and a rewrite is done with the file off. */
  function GivenUpSteps<D, C>(stored: bool): seq<Step<D, C>> {
    [StopAppendOnly(stored), StartAppendOnly, OpenIncr(true, 0)] + [Fork(false), AbandonStart]
    + [OpenIncr(true, 0), Fork(true), ChildSaves] + [RenameBase(true), RenameIncr(true, 0), PersistRewrite(Stored)]
  }

  /** The file is stopped and asked for again: the temporary file is open. */
  lemma AsksAgain<D, C>(cfg: Config, apply: (D, C) -> D, empty: D, s: State<D, C>, m: Ideal<D, C>, stored: bool)
    returns (r: State<D, C>, n: Ideal<D, C>)
    requires Inv(cfg, apply, empty, s) && Shows(cfg, apply, empty, s, m) && Settled(s)
    ensures At(cfg, apply, empty, s, [StopAppendOnly(stored), StartAppendOnly, OpenIncr(true, 0)], r, n)
    ensures r.aof.WaitRewrite? && r.phase.ReadyToFork? && r.child.None? && r.data == s.data && r.buf == []
    ensures n.open && n.tail == m.tail
  {
    hide At, Inv, Shows, Clean, CommandStep, FlushStep, RestartStep, Flushed, Replaced, TempIncr, NewIncr;
    hide PersistIncrStep, RenameBaseStep, RenameIncrStep, PersistRewriteStep, DeleteOneStep, FinishStep, BootBaseStep;
    hide BootIncrStep, BootPersistStep, ForkStep;
    var x1, x2, x3: Step<D, C> := StopAppendOnly(stored), StartAppendOnly, OpenIncr(true, 0);
    NoSteps(cfg, apply, empty, s, m);
    CleanUnless(cfg, s, x1);
    var s1 := Go(cfg, apply, empty, s, [], s, m, x1);
    var m1 := After(apply, m, x1);
    assert [] + [x1] == [x1];
    CleanUnless(cfg, s1, x2);
    var s2 := Go(cfg, apply, empty, s, [x1], s1, m1, x2);
    var m2 := After(apply, m1, x2);
    CleanUnless(cfg, s2, x3);
    r := Go(cfg, apply, empty, s, [x1] + [x2], s2, m2, x3);
    n := After(apply, m2, x3);
    assert [x1] + [x2] + [x3] == [x1, x2, x3];
  }

  /** The fork fails and the start is given up: the temporary file stays open. */
  lemma GivesUp<D, C>(cfg: Config, apply: (D, C) -> D, empty: D, s: State<D, C>, m: Ideal<D, C>)
    returns (r: State<D, C>, n: Ideal<D, C>)
    requires Inv(cfg, apply, empty, s) && Shows(cfg, apply, empty, s, m)
    requires s.aof.WaitRewrite? && s.phase.ReadyToFork? && s.child.None? && s.buf == []
    ensures At(cfg, apply, empty, s, [Fork(false), AbandonStart], r, n)
    ensures r.aof.Off? && r.phase.Idle? && r.child.None? && r.data == s.data && r.buf == []
    ensures n.open == m.open && n.tail == m.tail && n.mode.Off?
  {
    hide At, Inv, Shows, Clean, CommandStep, FlushStep, RestartStep, Flushed, Replaced, OpenIncrStep;
    hide PersistIncrStep, RenameBaseStep, RenameIncrStep, PersistRewriteStep, DeleteOneStep, FinishStep, BootBaseStep;
    hide BootIncrStep, BootPersistStep, StopAppendOnlyStep;
    var x1, x2: Step<D, C> := Fork(false), AbandonStart;
    NoSteps(cfg, apply, empty, s, m);
    CleanUnless(cfg, s, x1);
    var s1 := Go(cfg, apply, empty, s, [], s, m, x1);
    var m1 := After(apply, m, x1);
    assert [] + [x1] == [x1];
    CleanUnless(cfg, s1, x2);
    r := Go(cfg, apply, empty, s, [x1], s1, m1, x2);
    n := After(apply, m1, x2);
    assert [x1] + [x2] == [x1, x2];
  }

  lemma NoSteps<D, C>(cfg: Config, apply: (D, C) -> D, empty: D, s: State<D, C>, m: Ideal<D, C>)
    requires Inv(cfg, apply, empty, s) && Shows(cfg, apply, empty, s, m)
    ensures At(cfg, apply, empty, s, [], s, m)
  {
    hide Inv, Shows;
  }

  lemma CleanUnless<D, C>(cfg: Config, s: State<D, C>, x: Step<D, C>)
    requires !x.BootIncr? && (x.OpenIncr? ==> s.buf == []) && (x.PersistRewrite? ==> x.result.Stored?)
    ensures Clean(cfg, s, x)
  {
  }

  lemma Saves<D, C>(cfg: Config, apply: (D, C) -> D, empty: D, s: State<D, C>, m: Ideal<D, C>)
    returns (r: State<D, C>, n: Ideal<D, C>)
    requires Inv(cfg, apply, empty, s) && Shows(cfg, apply, empty, s, m)
    requires s.aof.Off? && s.phase.Idle? && s.child.None? && s.buf == [] && m.mode.Off?
    ensures At(cfg, apply, empty, s, [OpenIncr(true, 0), Fork(true), ChildSaves], r, n)
    ensures r.aof.Off? && r.phase.Idle? && r.child.Some? && r.child.value.saved
    ensures n == m.(child := Some(m.data), collected := [])
  {
    hide At, Inv, Shows, Clean, CommandStep, FlushStep, RestartStep, Flushed, Replaced;
    hide PersistIncrStep, RenameBaseStep, RenameIncrStep, PersistRewriteStep, DeleteOneStep, FinishStep, BootBaseStep;
    hide BootIncrStep, BootPersistStep, StopAppendOnlyStep;
    var x1, x2, x3: Step<D, C> := OpenIncr(true, 0), Fork(true), ChildSaves;
    NoSteps(cfg, apply, empty, s, m);
    CleanUnless(cfg, s, x1);
    var s1 := Go(cfg, apply, empty, s, [], s, m, x1);
    assert [] + [x1] == [x1];
    CleanUnless(cfg, s1, x2);
    var s2 := Go(cfg, apply, empty, s, [x1], s1, m, x2);
    n := After(apply, m, x2);
    CleanUnless(cfg, s2, x3);
    r := Go(cfg, apply, empty, s, [x1] + [x2], s2, n, x3);
    assert [x1] + [x2] + [x3] == [x1, x2, x3];
  }

  /** The rewrite keeps the last INCR file because a file is open, though it is not that one. */
  lemma Replaces<D, C>(cfg: Config, apply: (D, C) -> D, empty: D, s: State<D, C>, m: Ideal<D, C>)
    returns (r: State<D, C>, n: Ideal<D, C>)
    requires Inv(cfg, apply, empty, s) && Shows(cfg, apply, empty, s, m)
    requires s.aof.Off? && s.phase.Idle? && s.child.Some? && s.child.value.saved && m.mode.Off?
    ensures At(cfg, apply, empty, s, [RenameBase(true), RenameIncr(true, 0), PersistRewrite(Stored)], r, n)
    ensures n == Replaced(apply, m)
  {
    hide At, Inv, Shows, Clean, CommandStep, FlushStep, RestartStep, Flushed, Replaced, BaseName, MarkRewritten;
    hide PersistIncrStep, OpenIncrStep, ForkStep, DeleteOneStep, FinishStep, BootBaseStep, BootIncrStep;
    hide BootPersistStep, StopAppendOnlyStep, NewIncr, TempIncr, NextIncrName;
    var x1, x2, x3: Step<D, C> := RenameBase(true), RenameIncr(true, 0), PersistRewrite(Stored);
    NoSteps(cfg, apply, empty, s, m);
    CleanUnless(cfg, s, x1);
    var s1 := Go(cfg, apply, empty, s, [], s, m, x1);
    assert [] + [x1] == [x1];
    CleanUnless(cfg, s1, x2);
    var s2 := Go(cfg, apply, empty, s, [x1], s1, m, x2);
    CleanUnless(cfg, s2, x3);
    r := Go(cfg, apply, empty, s, [x1] + [x2], s2, m, x3);
    n := After(apply, m, x3);
    assert [x1] + [x2] + [x3] == [x1, x2, x3];
  }

  lemma AtBoth<D, C>(cfg: Config, apply: (D, C) -> D, empty: D, s0: State<D, C>, a: seq<Step<D, C>>, s1: State<D, C>,
                     m1: Ideal<D, C>, b: seq<Step<D, C>>, s2: State<D, C>, m2: Ideal<D, C>)
    requires At(cfg, apply, empty, s0, a, s1, m1) && At(cfg, apply, empty, s1, b, s2, m2)
    ensures At(cfg, apply, empty, s0, a + b, s2, m2)
  {
    hide Inv, Shows, Run;
    RunAppend(cfg, apply, empty, s0, a, b);
  }

  lemma AtHas<D, C>(cfg: Config, apply: (D, C) -> D, empty: D, s0: State<D, C>, steps: seq<Step<D, C>>, s: State<D, C>,
                    m: Ideal<D, C>)
    requires At(cfg, apply, empty, s0, steps, s, m)
    ensures Run(cfg, apply, empty, s0, steps) == Some(s)
    ensures Inv(cfg, apply, empty, s) && Shows(cfg, apply, empty, s, m) && s.data == m.data
  {
    hide Inv, Run, Stand, ExtraIs, CollectedIs, BootIs;
  }

  lemma EndsWith<D, C>(cfg: Config, apply: (D, C) -> D, empty: D, s: State<D, C>, m: Ideal<D, C>, stored: bool)
    returns (r: State<D, C>, n: Ideal<D, C>)
    requires Inv(cfg, apply, empty, s) && Shows(cfg, apply, empty, s, m) && Settled(s)
    ensures At(cfg, apply, empty, s, GivenUpSteps(stored), r, n)
    ensures Recovered(apply, n) == Apply(apply, s.data, OrNone(m.tail))
  {
    hide At, Inv, Shows, Settled, Apply;
    var s1, m1 := AsksAgain(cfg, apply, empty, s, m, stored);
    var a: seq<Step<D, C>> := [StopAppendOnly(stored), StartAppendOnly, OpenIncr(true, 0)];
    AtHas(cfg, apply, empty, s, a, s1, m1);
    var s2, m2 := GivesUp(cfg, apply, empty, s1, m1);
    AtBoth(cfg, apply, empty, s, a, s1, m1, [Fork(false), AbandonStart], s2, m2);
    AtHas(cfg, apply, empty, s1, [Fork(false), AbandonStart], s2, m2);
    var s3, m3 := Saves(cfg, apply, empty, s2, m2);
    var b: seq<Step<D, C>> := [OpenIncr(true, 0), Fork(true), ChildSaves];
    AtBoth(cfg, apply, empty, s, a + [Fork(false), AbandonStart], s2, m2, b, s3, m3);
    AtHas(cfg, apply, empty, s2, b, s3, m3);
    r, n := Replaces(cfg, apply, empty, s3, m3);
    AtBoth(cfg, apply, empty, s, a + [Fork(false), AbandonStart] + b, s3, m3,
           [RenameBase(true), RenameIncr(true, 0), PersistRewrite(Stored)], r, n);
    ApplyNone(apply, n.saved);
  }

  /** From every settled state of every run, these steps leave files that replay to the dataset with the commands of
      the last INCR file applied once more: right exactly if that changes nothing. */
  lemma GivenUpReplaysTwice<D, C>(cfg: Config, apply: (D, C) -> D, empty: D, steps: seq<Step<D, C>>, stored: bool)
    requires CleanRun(cfg, apply, empty, StartOff(empty), steps)
    ensures var r := Run(cfg, apply, empty, StartOff(empty), steps);
      r.Some? && Settled(r.value) ==>
        var s := r.value;
        var e := Run(cfg, apply, empty, s, GivenUpSteps(stored));
        && s.mem.incr != [] && Last(s.mem) in s.disk && s.disk[Last(s.mem)].Log?
        && e.Some? && e.value.data == s.data && AllPresent(e.value.persisted, e.value.disk)
        && Replay(apply, empty, e.value.persisted, e.value.disk) == Apply(apply, s.data, s.disk[Last(s.mem)].cs)
  {
    hide Inv, CleanRun, Run, IdealRun, IdealOff, Shows, AllPresent, Replay, Apply, At, Recovered, GivenUpSteps;
    StartOffValid<D, C>(cfg, apply, empty);
    StartShows<D, C>(cfg, apply, empty);
    RunShows(cfg, apply, empty, StartOff(empty), IdealOff(empty), steps);
    var r := Run(cfg, apply, empty, StartOff(empty), steps);
    if r.Some? && Settled(r.value) {
      var s, m := r.value, IdealRun(apply, IdealOff(empty), steps);
      TailOnDisk(cfg, apply, empty, s, m);
      var e, n := EndsWith(cfg, apply, empty, s, m, stored);
      AtHas(cfg, apply, empty, s, GivenUpSteps(stored), e, n);
      ShowsAll(cfg, apply, empty, e, n);
      NoCommandsThere<D, C>(stored);
      DataIsCommands(cfg, apply, empty, s, GivenUpSteps(stored));
      ApplyNone(apply, s.data);
    }
  }

  lemma NoCommandsThere<D, C>(stored: bool)
    ensures NoRestart(GivenUpSteps<D, C>(stored)) && Commands(GivenUpSteps<D, C>(stored)) == []
  {
    var all := GivenUpSteps<D, C>(stored);
    forall i | 0 <= i < |all| ensures !all[i].Restart? && !all[i].Command? {}
    NoneOf(all);
  }

  lemma {:induction false} NoneOf<D, C>(steps: seq<Step<D, C>>)
    requires forall i :: 0 <= i < |steps| ==> !steps[i].Command?
    ensures Commands(steps) == []
  {
    if steps != [] { NoneOf(steps[1..]); }
  }

  lemma TailOnDisk<D, C>(cfg: Config, apply: (D, C) -> D, empty: D, s: State<D, C>, m: Ideal<D, C>)
    requires Inv(cfg, apply, empty, s) && Shows(cfg, apply, empty, s, m) && Settled(s)
    ensures s.mem.incr != [] && Last(s.mem) in s.disk && s.disk[Last(s.mem)] == Log(OrNone(m.tail))
  {
    hide Agree, HistInv, ChildInv, Apply, Replay, AllPresent, Durable;
  }
}
