/** feedAppendOnlyFile(): every command is logged for the database it ran in, with a SELECT in front
    whenever that is not the database selected last. */
module AofFeed {
  import opened CString
  import opened AofText
  import opened AofLoad

  /** A command with the database it is fed for; -1 asks for no SELECT. */
  datatype Feed = Feed(db: int, cmd: Command)

  predicate ValidFeed(kind: Table, f: Feed) {
    && -1 <= f.db < 0x8000_0000
    && Printable(f.cmd) && !kind(f.cmd).Unknown? && !kind(f.cmd).Select?
  }

  predicate DatabasesKnown(feeds: seq<Feed>) {
    forall i :: 0 <= i < |feeds| ==> feeds[i].db >= -1
  }

  predicate ValidFeeds(kind: Table, feeds: seq<Feed>) {
    DatabasesKnown(feeds) && forall i :: 0 <= i < |feeds| ==> ValidFeed(kind, feeds[i])
  }

  function SelectCommand(db: nat): Command { ["SELECT", Decimal(db)] }

  /** The text the writer formats for a SELECT. */
  function SelectText(db: nat): string {
    "*2\r\n$6\r\nSELECT\r\n$" + Decimal(|Decimal(db)|) + "\r\n" + Decimal(db) + "\r\n"
  }

  lemma SelectTextIsPrinted(db: nat)
    ensures Print(SelectCommand(db)) == SelectText(db)
  {
    hide Decimal;
    var c := SelectCommand(db);
    var arg := PrintArg(c[1]);
    SmallDecimals();
    assert c[1..] == [c[1]] && c[1..][1..] == [];
    assert PrintArgs(c[1..]) == arg + PrintArgs([]);
    assert PrintArgs(c[1..]) == arg;
    assert PrintArg("SELECT") == "$6\r\nSELECT\r\n" by { assert "$" + "6" == "$6"; }
    assert PrintArgs(c) == "$6\r\nSELECT\r\n" + arg;
    assert "*" + "2" == "*2";
    assert Print(c) == "*2\r\n" + ("$6\r\nSELECT\r\n" + arg);
    SelectTextShape(Decimal(|Decimal(db)|), Decimal(db));
  }

  lemma SmallDecimals()
    ensures Decimal(2) == "2" && Decimal(6) == "6"
  {
  }

  lemma SelectTextShape(n: string, d: string)
    ensures "*2\r\n" + ("$6\r\nSELECT\r\n" + ("$" + n + "\r\n" + d + "\r\n"))
         == "*2\r\n$6\r\nSELECT\r\n$" + n + "\r\n" + d + "\r\n"
  {
    var rest := n + "\r\n" + d + "\r\n";
    assert "$" + n + "\r\n" + d + "\r\n" == "$" + rest;
    assert "*2\r\n$6\r\nSELECT\r\n$" + n + "\r\n" + d + "\r\n" == "*2\r\n$6\r\nSELECT\r\n$" + rest;
    assert "*2\r\n" + ("$6\r\nSELECT\r\n" + ("$" + rest)) == ("*2\r\n" + "$6\r\nSELECT\r\n" + "$") + rest;
    assert "*2\r\n" + "$6\r\nSELECT\r\n" + "$" == "*2\r\n$6\r\nSELECT\r\n$";
  }

  predicate NeedsSelect(selected: int, f: Feed) { f.db != -1 && f.db != selected }

  function Selected(selected: int, f: Feed): int { if NeedsSelect(selected, f) then f.db else selected }

  /** What one call appends to the log. */
  function FeedText(selected: int, f: Feed): string
    requires f.db >= -1
  {
    (if NeedsSelect(selected, f) then SelectText(f.db) else "") + Print(f.cmd)
  }

  /** The commands of one feed. */
  function Commands(selected: int, f: Feed): seq<Command>
    requires f.db >= -1
  {
    if NeedsSelect(selected, f) then [SelectCommand(f.db), f.cmd] else [f.cmd]
  }

  /** The commands the log of `feeds` holds, given the database selected last. */
  function Expand(selected: int, feeds: seq<Feed>): seq<Command>
    requires DatabasesKnown(feeds)
    decreases |feeds|
  {
    if feeds == [] then []
    else
      Commands(selected, feeds[0]) + Expand(Selected(selected, feeds[0]), feeds[1..])
  }

  function FeedAll(selected: int, feeds: seq<Feed>): string
    requires DatabasesKnown(feeds)
    decreases |feeds|
  {
    if feeds == [] then "" else FeedText(selected, feeds[0]) + FeedAll(Selected(selected, feeds[0]), feeds[1..])
  }

  lemma {:induction false} FeedIsLog(selected: int, feeds: seq<Feed>)
    requires DatabasesKnown(feeds)
    ensures FeedAll(selected, feeds) == Log(Expand(selected, feeds))
    decreases |feeds|
  {
    hide Print;
    if feeds != [] {
      var f := feeds[0];
      FeedIsLog(Selected(selected, f), feeds[1..]);
      var cs := if NeedsSelect(selected, f) then [SelectCommand(f.db), f.cmd] else [f.cmd];
      LogAppend(cs, Expand(Selected(selected, f), feeds[1..]));
      LogOfOne(f.cmd);
      if NeedsSelect(selected, f) {
        SelectTextIsPrinted(f.db);
        LogOfOne(SelectCommand(f.db));
        LogAppend([SelectCommand(f.db)], [f.cmd]);
        assert cs == [SelectCommand(f.db)] + [f.cmd];
      }
    }
  }

  lemma LogOfOne(c: Command)
    ensures Log([c]) == Print(c)
  {
    assert [c][1..] == [];
    assert Log([c]) == Print(c) + Log([]);
  }

  // ----- replaying a fed log -----

  /** The same transactions, run on the feeds themselves: what executed, and for which database. */
  datatype Executed = Executed(multi: bool, queue: seq<Feed>, done: seq<Feed>)

  function Runnable(kind: Table, fs: seq<Feed>): seq<Feed> {
    if fs == [] then []
    else if kind(fs[0].cmd).Other? then [fs[0]] + Runnable(kind, fs[1..]) else Runnable(kind, fs[1..])
  }

  function ExecStep(kind: Table, e: Executed, f: Feed): Executed {
    if e.multi && !kind(f.cmd).Exec? then e.(queue := e.queue + [f])
    else if kind(f.cmd).Multi? then e.(multi := true, queue := [])
    else if kind(f.cmd).Exec? then
      (if e.multi then Executed(false, [], e.done + Runnable(kind, e.queue)) else e)
    else e.(done := e.done + [f])
  }

  function ExecAll(kind: Table, e: Executed, fs: seq<Feed>): Executed
    decreases |fs|
  {
    if fs == [] then e else ExecAll(kind, ExecStep(kind, e, fs[0]), fs[1..])
  }

  /** Each executed command is the fed one, in the database it was fed for. */
  ghost predicate SameTrace(trace: seq<(int, Command)>, done: seq<Feed>) {
    && |trace| == |done|
    && forall i :: 0 <= i < |trace| ==>
         trace[i].1 == done[i].cmd && (done[i].db == -1 || trace[i].0 == done[i].db)
  }

  ghost predicate SelectsKnown(kind: Table) {
    forall db: nat :: kind(SelectCommand(db)) == Select(db)
  }

  /** Loader and feeds agree, and the client's database is the one the writer believes selected, now or
      once the open transaction has run. */
  ghost predicate InStep(kind: Table, r: Client, e: Executed, selected: int) {
    && r.multi == e.multi
    && SameTrace(r.trace, e.done)
    && (if r.multi then
          var end := CallAll(kind, r.(multi := false, queue := []), r.queue);
          SameTrace(end.trace, e.done + Runnable(kind, e.queue)) && (selected == -1 || end.db == selected)
        else selected == -1 || r.db == selected)
  }

  lemma {:induction false} CallAllAppend(kind: Table, r: Client, a: seq<Command>, c: Command)
    ensures CallAll(kind, r, a + [c]) == Call(kind, CallAll(kind, r, a), c)
    decreases |a|
  {
    if a == [] {
      assert a + [c] == [c] && [c][1..] == [];
    } else {
      assert (a + [c])[1..] == a[1..] + [c];
      CallAllAppend(kind, Call(kind, r, a[0]), a[1..], c);
    }
  }

  lemma {:induction false} RunnableAppend(kind: Table, a: seq<Feed>, f: Feed)
    ensures Runnable(kind, a + [f]) == Runnable(kind, a) + (if kind(f.cmd).Other? then [f] else [])
  {
    if a == [] {
      assert a + [f] == [f] && [f][1..] == [];
    } else {
      assert (a + [f])[1..] == a[1..] + [f];
      RunnableAppend(kind, a[1..], f);
    }
  }

  lemma SelectStep(kind: Table, r: Client, e: Executed, selected: int, db: nat)
    requires SelectsKnown(kind) && InStep(kind, r, e, selected)
    ensures InStep(kind, Step(kind, r, SelectCommand(db)), e, db)
  {
    CallAllAppend(kind, r.(multi := false, queue := []), r.queue, SelectCommand(db));
  }

  lemma FeedStep(kind: Table, r: Client, e: Executed, selected: int, f: Feed)
    requires ValidFeed(kind, f) && InStep(kind, r, e, selected)
    requires f.db == -1 || f.db == selected
    ensures InStep(kind, Step(kind, r, f.cmd), ExecStep(kind, e, f), selected)
  {
    hide InStep, ValidFeed;
    InStepFlag(kind, r, e, selected);
    FeedKind(kind, f);
    if r.multi && !kind(f.cmd).Exec? {
      FeedQueued(kind, r, e, selected, f);
    } else if kind(f.cmd).Multi? {
      FeedOpens(kind, r, e, selected);
    } else if kind(f.cmd).Exec? {
      if r.multi { FeedRuns(kind, r, e, selected); }
    } else {
      FeedOther(kind, r, e, selected, f);
    }
  }

  lemma FeedKind(kind: Table, f: Feed)
    requires ValidFeed(kind, f)
    ensures !kind(f.cmd).Unknown? && !kind(f.cmd).Select?
  {
  }

  lemma InStepFlag(kind: Table, r: Client, e: Executed, selected: int)
    requires InStep(kind, r, e, selected)
    ensures r.multi == e.multi
  {
    hide SameTrace, CallAll, Runnable;
  }

  lemma FeedQueued(kind: Table, r: Client, e: Executed, selected: int, f: Feed)
    requires r.multi && InStep(kind, r, e, selected) && (f.db == -1 || f.db == selected)
    requires !kind(f.cmd).Unknown? && !kind(f.cmd).Select?
    ensures InStep(kind, r.(queue := r.queue + [f.cmd]), e.(queue := e.queue + [f]), selected)
  {
    hide CallAll, Runnable;
    CallAllAppend(kind, r.(multi := false, queue := []), r.queue, f.cmd);
    RunnableAppend(kind, e.queue, f);
    var done := e.done + Runnable(kind, e.queue);
    if kind(f.cmd).Other? {
      assert e.done + (Runnable(kind, e.queue) + [f]) == done + [f];
    } else {
      assert e.done + (Runnable(kind, e.queue) + []) == done;
    }
  }

  lemma FeedOpens(kind: Table, r: Client, e: Executed, selected: int)
    requires !r.multi && InStep(kind, r, e, selected)
    ensures InStep(kind, r.(multi := true, queue := []), e.(multi := true, queue := []), selected)
  {
    assert e.done + Runnable(kind, []) == e.done;
  }

  lemma FeedRuns(kind: Table, r: Client, e: Executed, selected: int)
    requires r.multi && InStep(kind, r, e, selected)
    ensures InStep(kind, CallAll(kind, r.(multi := false, queue := []), r.queue),
                   Executed(false, [], e.done + Runnable(kind, e.queue)), selected)
  {
    hide CallAll, Runnable;
    CallAllKeepsFlag(kind, r.(multi := false, queue := []), r.queue);
  }

  lemma FeedOther(kind: Table, r: Client, e: Executed, selected: int, f: Feed)
    requires !r.multi && InStep(kind, r, e, selected) && (f.db == -1 || f.db == selected)
    requires kind(f.cmd).Other?
    ensures InStep(kind, r.(trace := r.trace + [(r.db, f.cmd)]), e.(done := e.done + [f]), selected)
  {
    hide CallAll, Runnable;
  }

  lemma {:induction false} FeedsInStep(kind: Table, r: Client, e: Executed, selected: int, feeds: seq<Feed>)
    requires SelectsKnown(kind) && InStep(kind, r, e, selected)
    requires ValidFeeds(kind, feeds)
    ensures SameTrace(Run(kind, r, Expand(selected, feeds)).trace, ExecAll(kind, e, feeds).done)
    decreases |feeds|
  {
    hide Step, ExecStep, InStep, Run, SameTrace, Commands, SelectsKnown, ValidFeed;
    if feeds == [] {
      InStepTraces(kind, r, e, selected);
      RunNothing(kind, r);
    } else {
      var f := feeds[0];
      var selected' := Selected(selected, f);
      FeedInStep(kind, r, e, selected, f);
      RunAppend(kind, r, Commands(selected, f), Expand(selected', feeds[1..]));
      FeedsInStep(kind, AfterFeed(kind, r, selected, f), ExecStep(kind, e, f), selected', feeds[1..]);
    }
  }

  lemma FeedInStep(kind: Table, r: Client, e: Executed, selected: int, f: Feed)
    requires SelectsKnown(kind) && InStep(kind, r, e, selected) && ValidFeed(kind, f)
    ensures f.db >= -1
    ensures InStep(kind, AfterFeed(kind, r, selected, f), ExecStep(kind, e, f), Selected(selected, f))
  {
    hide Step, ExecStep, InStep, Run, SelectsKnown, ValidFeed;
    FeedDatabase(kind, f);
    if NeedsSelect(selected, f) {
      var r1 := Step(kind, r, SelectCommand(f.db));
      SelectStep(kind, r, e, selected, f.db);
      FeedStep(kind, r1, e, f.db, f);
      RunOneCommand(kind, r1, f.cmd);
      assert Commands(selected, f) == [SelectCommand(f.db)] + [f.cmd];
      RunFirst(kind, r, SelectCommand(f.db), [f.cmd]);
    } else {
      FeedStep(kind, r, e, selected, f);
      RunOneCommand(kind, r, f.cmd);
    }
  }

  lemma RunFirst(kind: Table, r: Client, c: Command, rest: seq<Command>)
    ensures Run(kind, r, [c] + rest) == Run(kind, Step(kind, r, c), rest)
  {
    assert ([c] + rest)[1..] == rest;
  }

  lemma InStepTraces(kind: Table, r: Client, e: Executed, selected: int)
    requires InStep(kind, r, e, selected)
    ensures SameTrace(r.trace, e.done)
  {
  }

  /** Loading the text a sequence of feeds appends to a fresh file executes the fed commands, with their
      transactions, each in the database it was fed for. */
  lemma ReplayOfFeeds(kind: Table, feeds: seq<Feed>)
    requires SelectsKnown(kind)
    requires ValidFeeds(kind, feeds)
    ensures SameTrace(TraceOf(Load(kind, FeedAll(-1, feeds))), ExecAll(kind, Executed(false, [], []), feeds).done)
  {
    FeedIsLog(-1, feeds);
    ExpandLoadable(kind, -1, feeds);
    LoadWholeLog(kind, Expand(-1, feeds));
    FeedsInStep(kind, FRESH, Executed(false, [], []), -1, feeds);
  }

  lemma {:induction false} ExpandLoadable(kind: Table, selected: int, feeds: seq<Feed>)
    requires SelectsKnown(kind)
    requires ValidFeeds(kind, feeds)
    ensures Loadable(kind, Expand(selected, feeds))
    decreases |feeds|
  {
    if feeds != [] {
      ExpandLoadable(kind, Selected(selected, feeds[0]), feeds[1..]);
      if NeedsSelect(selected, feeds[0]) {
        DecimalBound(feeds[0].db);
      }
    }
  }

  // ----- replaying the start of a fed log -----

  /** How many whole feeds the first `k` bytes of the log hold. */
  ghost function WholeFeeds(selected: int, feeds: seq<Feed>, k: nat): (n: nat)
    requires DatabasesKnown(feeds)
    ensures n <= |feeds|
    decreases |feeds|
  {
    if feeds == [] || k < |FeedText(selected, feeds[0])| then 0
    else 1 + WholeFeeds(Selected(selected, feeds[0]), feeds[1..], k - |FeedText(selected, feeds[0])|)
  }

  /** The client after the whole commands in the first `k` bytes of a log. */
  ghost function CutRun(kind: Table, r: Client, cs: seq<Command>, k: nat): Client {
    Run(kind, r, cs[..Whole(cs, k)])
  }

  lemma CutFirst(kind: Table, r: Client, c: Command, rest: seq<Command>, k: nat)
    ensures CutRun(kind, r, [c] + rest, k)
         == if k < |Print(c)| then r else CutRun(kind, Step(kind, r, c), rest, k - |Print(c)|)
  {
    hide Print, Step, Run, Whole;
    var cs := [c] + rest;
    assert cs[1..] == rest && cs[0] == c;
    if k < |Print(c)| {
      WholeNone(cs, k);
      assert cs[..0] == [];
      RunNothing(kind, r);
    } else {
      WholeCons(cs, k);
      var n := Whole(rest, k - |Print(c)|);
      assert cs[..n + 1] == [c] + rest[..n];
      RunFirst(kind, r, c, rest[..n]);
    }
  }

  lemma WholeNone(cs: seq<Command>, k: nat)
    requires cs != [] && k < |Print(cs[0])|
    ensures Whole(cs, k) == 0
  {
  }

  lemma RunNothing(kind: Table, r: Client)
    ensures Run(kind, r, []) == r
  {
  }

  lemma ExecFirst(kind: Table, e: Executed, feeds: seq<Feed>, n: nat)
    requires n < |feeds|
    ensures ExecAll(kind, e, feeds[..n + 1]) == ExecAll(kind, ExecStep(kind, e, feeds[0]), feeds[1..][..n])
    ensures ExecAll(kind, e, feeds[..0]) == e
  {
    hide ExecStep;
    assert feeds[..n + 1][1..] == feeds[1..][..n] && feeds[..n + 1][0] == feeds[0];
  }

  function AfterFeed(kind: Table, r: Client, selected: int, f: Feed): Client
    requires f.db >= -1
  {
    Run(kind, r, Commands(selected, f))
  }

  /** A cut inside a feed, even behind its SELECT, runs nothing of it. */
  lemma CutOfFeed(kind: Table, r: Client, e: Executed, selected: int, f: Feed, rest: seq<Command>, k: nat)
    requires SelectsKnown(kind) && InStep(kind, r, e, selected) && ValidFeed(kind, f)
    ensures var cut := CutRun(kind, r, Commands(selected, f) + rest, k);
      if k < |FeedText(selected, f)| then SameTrace(cut.trace, e.done)
      else
        && cut == CutRun(kind, AfterFeed(kind, r, selected, f), rest, k - |FeedText(selected, f)|)
        && InStep(kind, AfterFeed(kind, r, selected, f), ExecStep(kind, e, f), Selected(selected, f))
  {
    hide Step, ExecStep, InStep, Print, SameTrace, CutRun, SelectText, Run, SelectsKnown, ValidFeed;
    InStepTraces(kind, r, e, selected);
    FeedInStep(kind, r, e, selected, f);
    if NeedsSelect(selected, f) {
      var r1 := Step(kind, r, SelectCommand(f.db));
      SelectTextIsPrinted(f.db);
      SelectStep(kind, r, e, selected, f.db);
      InStepTraces(kind, r1, e, f.db);
      assert Commands(selected, f) + rest == [SelectCommand(f.db)] + ([f.cmd] + rest);
      CutFirst(kind, r, SelectCommand(f.db), [f.cmd] + rest, k);
      if k >= |SelectText(f.db)| { CutFirst(kind, r1, f.cmd, rest, k - |SelectText(f.db)|); }
      RunOneCommand(kind, r1, f.cmd);
      assert Commands(selected, f) == [SelectCommand(f.db)] + [f.cmd];
      RunFirst(kind, r, SelectCommand(f.db), [f.cmd]);
    } else {
      CutFirst(kind, r, f.cmd, rest, k);
      RunOneCommand(kind, r, f.cmd);
    }
  }

  lemma FeedDatabase(kind: Table, f: Feed)
    requires ValidFeed(kind, f)
    ensures f.db >= -1
  {
  }

  lemma RunOneCommand(kind: Table, r: Client, c: Command)
    ensures Run(kind, r, [c]) == Step(kind, r, c)
  {
    hide Step;
    assert [c][1..] == [];
  }

  lemma {:induction false} CutInStep(kind: Table, r: Client, e: Executed, selected: int, feeds: seq<Feed>, k: nat)
    requires SelectsKnown(kind) && InStep(kind, r, e, selected)
    requires ValidFeeds(kind, feeds)
    ensures SameTrace(CutRun(kind, r, Expand(selected, feeds), k).trace,
                      ExecAll(kind, e, feeds[..WholeFeeds(selected, feeds, k)]).done)
    decreases |feeds|
  {
    hide ExecStep, InStep, SameTrace, CutRun, AfterFeed, SelectsKnown, ValidFeed;
    if feeds == [] {
      CutNothing(kind, r, k);
      InStepTraces(kind, r, e, selected);
    } else {
      var f := feeds[0];
      CutOfFeed(kind, r, e, selected, f, Expand(Selected(selected, f), feeds[1..]), k);
      hide FeedText, ExecAll;
      if k < |FeedText(selected, f)| {
        ExecFirst(kind, e, feeds, 0);
      } else {
        var k' := k - |FeedText(selected, f)|;
        CutInStep(kind, AfterFeed(kind, r, selected, f), ExecStep(kind, e, f), Selected(selected, f), feeds[1..], k');
        ExecFirst(kind, e, feeds, WholeFeeds(Selected(selected, f), feeds[1..], k'));
      }
    }
  }

  /** What loading the start of a log runs. */
  lemma PrefixTrace(kind: Table, cs: seq<Command>, k: nat)
    requires Loadable(kind, cs) && k <= |Log(cs)|
    ensures var o := Load(kind, Log(cs)[..k]); !o.Failed? && TraceOf(o) == CutRun(kind, FRESH, cs, k).trace
  {
    hide Load, Log, Run, Whole, TraceOf, Loadable, Kept;
    LoadPrefix(kind, cs, k);
  }

  lemma CutNothing(kind: Table, r: Client, k: nat)
    ensures CutRun(kind, r, [], k) == r
  {
  }
}
