/** Loading the append-only log: loadSingleAppendOnlyFile() with aof-load-truncated on, on a file that
    is not in RDB format, and feedAppendOnlyFile() as the writer of such files. */
module AofLoad {
  import opened CString
  import opened AofText

  // ----- running commands in the fake client -----

  /** What lookupCommand() makes of a command, as far as the loader tells commands apart. */
  datatype Kind = Unknown | Multi | Exec | Select(db: nat) | Other

  type Table = Command -> Kind

  /** The fake client: its MULTI flag and queue, its selected database, and what it has executed. */
  datatype Client = Client(multi: bool, queue: seq<Command>, db: int, trace: seq<(int, Command)>)

  const FRESH := Client(false, [], 0, [])

  /** The command's proc. A MULTI or EXEC inside a transaction only replies with an error. */
  function Call(kind: Table, r: Client, c: Command): Client {
    match kind(c)
    case Select(d) => r.(db := d)
    case Multi => r
    case Exec => r
    case _ => r.(trace := r.trace + [(r.db, c)])
  }

  function CallAll(kind: Table, r: Client, cs: seq<Command>): Client
    decreases |cs|
  {
    if cs == [] then r else CallAll(kind, Call(kind, r, cs[0]), cs[1..])
  }

  /** One command of the log: queued inside a transaction unless it is EXEC, else executed. */
  function Step(kind: Table, r: Client, c: Command): Client {
    if r.multi && !kind(c).Exec? then r.(queue := r.queue + [c])
    else if kind(c).Multi? then r.(multi := true, queue := [])
    else if kind(c).Exec? then
      (if r.multi then CallAll(kind, r.(multi := false, queue := []), r.queue) else r)
    else Call(kind, r, c)
  }

  function Run(kind: Table, r: Client, cs: seq<Command>): Client
    decreases |cs|
  {
    if cs == [] then r else Run(kind, Step(kind, r, cs[0]), cs[1..])
  }

  lemma {:induction false} RunAppend(kind: Table, r: Client, a: seq<Command>, b: seq<Command>)
    ensures Run(kind, r, a + b) == Run(kind, Run(kind, r, a), b)
    decreases |a|
  {
    if a == [] {
      assert a + b == b;
    } else {
      assert (a + b)[1..] == a[1..] + b;
      RunAppend(kind, Step(kind, r, a[0]), a[1..], b);
    }
  }

  // ----- the loader -----

  /** AOF_OK, AOF_EMPTY, AOF_TRUNCATED with the size the file is cut to, or AOF_FAILED. */
  datatype Outcome =
    | Loaded(trace: seq<(int, Command)>)
    | EmptyFile
    | Truncated(trace: seq<(int, Command)>, size: nat)
    | Failed

  /** The load loop from position `pos` on, with the fake client and the two recovery offsets. */
  function LoadFrom(kind: Table, s: string, pos: nat, r: Client, validUpTo: nat, validBeforeMulti: nat): Outcome
    requires pos <= |s|
    decreases |s| - pos
  {
    match NextItem(s[pos..])
    case EndOfFile => if r.multi then Truncated(r.trace, validBeforeMulti) else Loaded(r.trace)
    case Annotation(used) => LoadFrom(kind, s, pos + used, r, validUpTo, validBeforeMulti)
    case Parsed(c, used) =>
      if kind(c).Unknown? then Failed
      else
        LoadFrom(kind, s, pos + used, Step(kind, r, c), pos + used,
                 if kind(c).Multi? then validUpTo else validBeforeMulti)
    case ShortRead => Truncated(r.trace, validUpTo)
    case _ => Failed
  }

  function Load(kind: Table, s: string): Outcome {
    if s == "" then EmptyFile else LoadFrom(kind, s, 0, FRESH, 0, 0)
  }

  /** loadSingleAppendOnlyFile(): the loop over the file, with the file it leaves behind. */
  method LoadFile(kind: Table, s: string) returns (r: Outcome, s': string)
    ensures r == Load(kind, s)
    ensures r.Truncated? ==> r.size <= |s|
    ensures s' == if r.Truncated? then s[..r.size] else s
  {
    hide NextItem, Step;
    if s == "" {
      return EmptyFile, s;
    }
    var client, pos, validUpTo: nat, validBeforeMulti: nat := FRESH, 0, 0, 0;
    while true
      invariant 0 <= pos <= |s| && validUpTo <= |s| && validBeforeMulti <= |s|
      invariant Load(kind, s) == LoadFrom(kind, s, pos, client, validUpTo, validBeforeMulti)
      decreases |s| - pos
    {
      var item := NextItem(s[pos..]);
      if item.EndOfFile? {
        if client.multi {
          validUpTo := validBeforeMulti;
          return Truncated(client.trace, validUpTo), s[..validUpTo];
        }
        return Loaded(client.trace), s;
      } else if item.Annotation? {
        pos := pos + item.used;
      } else if item.Parsed? {
        var c := item.cmd;
        if kind(c).Unknown? {
          return Failed, s;
        }
        if kind(c).Multi? {
          validBeforeMulti := validUpTo;
        }
        client := Step(kind, client, c);
        pos := pos + item.used;
        validUpTo := pos;
      } else if item.ShortRead? {
        return Truncated(client.trace, validUpTo), s[..validUpTo];
      } else {
        return Failed, s;
      }
    }
  }

  // ----- logs the server prints -----

  function Log(cs: seq<Command>): string {
    if cs == [] then "" else Print(cs[0]) + Log(cs[1..])
  }

  ghost predicate Loadable(kind: Table, cs: seq<Command>) {
    forall i :: 0 <= i < |cs| ==> Printable(cs[i]) && !kind(cs[i]).Unknown?
  }

  lemma {:induction false} LogAppend(a: seq<Command>, b: seq<Command>)
    ensures Log(a + b) == Log(a) + Log(b)
  {
    if a == [] {
      assert a + b == b;
    } else {
      assert (a + b)[1..] == a[1..] + b;
      LogAppend(a[1..], b);
    }
  }

  /** How many whole commands the first `k` bytes of the log hold. */
  ghost function Whole(cs: seq<Command>, k: nat): (n: nat)
    ensures n <= |cs|
  {
    if cs == [] || k < |Print(cs[0])| then 0 else 1 + Whole(cs[1..], k - |Print(cs[0])|)
  }

  /** The index of the last MULTI command, or -1. */
  ghost function LastMulti(kind: Table, cs: seq<Command>): (n: int)
    ensures -1 <= n < |cs|
    decreases |cs|
  {
    if cs == [] then -1
    else
      var n := LastMulti(kind, cs[1..]);
      if n >= 0 then n + 1 else if kind(cs[0]).Multi? then 0 else -1
  }

  /** What loading the first `k` bytes of the rest of a log does, from position `pos` on. */
  ghost function AfterCut(kind: Table, cs: seq<Command>, k: nat, pos: nat, r: Client, validBeforeMulti: nat): Outcome {
    var whole := cs[..Whole(cs, k)];
    CutOutcome(Run(kind, r, whole), |Log(whole)|, k, pos, BeforeMulti(kind, whole, pos, validBeforeMulti))
  }

  /** What the loader makes of `total` bytes of whole commands in a file of `k` bytes. */
  ghost function CutOutcome(client: Client, total: nat, k: nat, pos: nat, before: nat): Outcome {
    if total != k then Truncated(client.trace, pos + total)
    else if !client.multi then Loaded(client.trace)
    else Truncated(client.trace, before)
  }

  /** Where the last MULTI starts, or where one before these commands did. */
  ghost function BeforeMulti(kind: Table, whole: seq<Command>, pos: nat, validBeforeMulti: nat): nat {
    var m := LastMulti(kind, whole);
    if m < 0 then validBeforeMulti else pos + |Log(whole[..m])|
  }

  lemma {:induction false} LoadCutFrom(kind: Table, s: string, pos: nat, cs: seq<Command>, k: nat, r: Client, vbm: nat)
    requires Loadable(kind, cs) && k <= |Log(cs)|
    requires pos <= |s| && s[pos..] == Log(cs)[..k]
    ensures LoadFrom(kind, s, pos, r, pos, vbm) == AfterCut(kind, cs, k, pos, r, vbm)
    decreases |cs|
  {
    hide NextItem, Step, Print;
    if k == 0 {
      NothingLeft(s[pos..]);
      CutAtStart(cs);
    } else if k < |Print(cs[0])| {
      assert s[pos..] == Print(cs[0])[..k];
      ParseCut(cs[0], k);
      assert cs[..0] == [];
    } else {
      var c, used := cs[0], |Print(cs[0])|;
      var rest := Log(cs[1..])[..k - used];
      assert s[pos..] == Print(c) + rest;
      ParsePrinted(c, rest);
      assert s[pos + used..] == rest;
      var vbm' := if kind(c).Multi? then pos else vbm;
      LoadCutFrom(kind, s, pos + used, cs[1..], k - used, Step(kind, r, c), vbm');
      CutStep(kind, cs, k, pos, r, vbm);
    }
  }

  lemma NothingLeft(t: string)
    requires t == ""
    ensures NextItem(t) == EndOfFile
  {
  }

  lemma PrintNonempty(c: Command)
    ensures Print(c) != ""
  {
  }

  lemma CutAtStart(cs: seq<Command>)
    ensures Whole(cs, 0) == 0 && cs[..0] == []
  {
    if cs != [] {
      PrintNonempty(cs[0]);
    }
  }

  lemma CutStep(kind: Table, cs: seq<Command>, k: nat, pos: nat, r: Client, vbm: nat)
    requires cs != [] && |Print(cs[0])| <= k <= |Log(cs)|
    ensures var c, used := cs[0], |Print(cs[0])|;
      AfterCut(kind, cs, k, pos, r, vbm)
      == AfterCut(kind, cs[1..], k - used, pos + used, Step(kind, r, c), if kind(c).Multi? then pos else vbm)
  {
    hide Print, Step, Run, Log, Whole, BeforeMulti;
    var n := Whole(cs[1..], k - |Print(cs[0])|);
    var whole := cs[..n + 1];
    WholeCons(cs, k);
    FrontOf(cs, n);
    RunCons(kind, r, whole);
    LogCons(whole);
    BeforeMultiCons(kind, whole, pos, vbm);
  }

  lemma FrontOf(cs: seq<Command>, n: nat)
    requires n < |cs|
    ensures cs[..n + 1][1..] == cs[1..][..n] && cs[..n + 1][0] == cs[0]
  {
  }

  lemma BeforeMultiCons(kind: Table, cs: seq<Command>, pos: nat, vbm: nat)
    requires cs != []
    ensures BeforeMulti(kind, cs, pos, vbm)
         == BeforeMulti(kind, cs[1..], pos + |Print(cs[0])|, if kind(cs[0]).Multi? then pos else vbm)
  {
    hide Print, LastMulti, Log;
    MultiCons(kind, cs);
    var m := LastMulti(kind, cs[1..]);
    if m >= 0 {
      FrontOf(cs, m);
      LogCons(cs[..m + 1]);
    } else if kind(cs[0]).Multi? {
      assert cs[..0] == [];
      LogNothing();
    }
  }

  lemma WholeCons(cs: seq<Command>, k: nat)
    requires cs != [] && |Print(cs[0])| <= k
    ensures Whole(cs, k) == 1 + Whole(cs[1..], k - |Print(cs[0])|)
  {}

  lemma RunCons(kind: Table, r: Client, cs: seq<Command>)
    requires cs != []
    ensures Run(kind, r, cs) == Run(kind, Step(kind, r, cs[0]), cs[1..])
  {}

  lemma LogCons(cs: seq<Command>)
    requires cs != []
    ensures |Log(cs)| == |Print(cs[0])| + |Log(cs[1..])|
  {
    hide Print;
  }

  lemma LogNothing()
    ensures |Log([])| == 0
  {}

  lemma MultiCons(kind: Table, cs: seq<Command>)
    requires cs != []
    ensures var n := LastMulti(kind, cs[1..]);
            LastMulti(kind, cs) == if n >= 0 then n + 1 else if kind(cs[0]).Multi? then 0 else -1
  {}

  // ----- loading any prefix of a log -----

  function TraceOf(o: Outcome): seq<(int, Command)> {
    match o
    case Loaded(t) => t
    case Truncated(t, _) => t
    case _ => []
  }

  /** The client after the whole commands inside the first `k` bytes. */
  ghost function AtCut(kind: Table, cs: seq<Command>, k: nat): Client {
    Run(kind, FRESH, cs[..Whole(cs, k)])
  }

  /** The commands that are still in the file after recovery. */
  ghost function Kept(kind: Table, cs: seq<Command>, k: nat): (n: nat)
    ensures n <= Whole(cs, k)
  {
    var n := Whole(cs, k);
    var m := LastMulti(kind, cs[..n]);
    if AtCut(kind, cs, k).multi && |Log(cs[..n])| == k && m >= 0 then m else n
  }

  lemma {:induction false} WholeFits(cs: seq<Command>, k: nat)
    requires k <= |Log(cs)|
    ensures |Log(cs[..Whole(cs, k)])| <= k
    ensures Log(cs[..Whole(cs, k)]) == Log(cs)[..|Log(cs[..Whole(cs, k)])|]
    decreases |cs|
  {
    hide Print;
    var n := Whole(cs, k);
    if n == 0 {
      assert cs[..0] == [];
    } else {
      WholeFits(cs[1..], k - |Print(cs[0])|);
      assert cs[..n][1..] == cs[1..][..n - 1];
    }
  }

  lemma LogPrefix(cs: seq<Command>, n: nat)
    requires n <= |cs|
    ensures |Log(cs[..n])| <= |Log(cs)| && Log(cs)[..|Log(cs[..n])|] == Log(cs[..n])
  {
    assert cs == cs[..n] + cs[n..];
    LogAppend(cs[..n], cs[n..]);
  }

  lemma {:induction false} WholeOfWhole(cs: seq<Command>)
    ensures Whole(cs, |Log(cs)|) == |cs|
    decreases |cs|
  {
    hide Print;
    if cs != [] {
      WholeOfWhole(cs[1..]);
    }
  }

  /** A transaction that is open at the end has executed nothing since its MULTI. */
  lemma {:induction false} OpenBlockRanNothing(kind: Table, r: Client, cs: seq<Command>)
    requires Run(kind, r, cs).multi
    ensures var m := LastMulti(kind, cs);
      if m < 0 then r.multi && Run(kind, r, cs).trace == r.trace
      else Run(kind, r, cs[..m]).trace == Run(kind, r, cs).trace
    decreases |cs|
  {
    if cs != [] {
      var c, r1 := cs[0], Step(kind, r, cs[0]);
      OpenBlockRanNothing(kind, r1, cs[1..]);
      var m := LastMulti(kind, cs[1..]);
      CallAllKeepsFlag(kind, r.(multi := false, queue := []), r.queue);
      if m >= 0 {
        assert cs[..m + 1][1..] == cs[1..][..m];
      } else if kind(c).Multi? {
        assert cs[..0] == [];
      }
    }
  }

  lemma {:induction false} CallAllKeepsFlag(kind: Table, r: Client, cs: seq<Command>)
    ensures CallAll(kind, r, cs).multi == r.multi && CallAll(kind, r, cs).queue == r.queue
    decreases |cs|
  {
    if cs != [] {
      CallAllKeepsFlag(kind, Call(kind, r, cs[0]), cs[1..]);
    }
  }

  ghost predicate Ordinary(kind: Table, cs: seq<Command>) {
    forall i :: 0 <= i < |cs| ==> kind(cs[i]).Select? || kind(cs[i]).Other?
  }

  lemma {:induction false} QueuesAll(kind: Table, r: Client, cs: seq<Command>)
    requires r.multi && Ordinary(kind, cs)
    ensures Run(kind, r, cs) == r.(queue := r.queue + cs)
    decreases |cs|
  {
    if cs == [] {
      assert r.queue + cs == r.queue;
    } else {
      QueuesAll(kind, Step(kind, r, cs[0]), cs[1..]);
      assert r.queue + [cs[0]] + cs[1..] == r.queue + cs;
    }
  }

  lemma {:induction false} CallsAll(kind: Table, r: Client, cs: seq<Command>)
    requires !r.multi && Ordinary(kind, cs)
    ensures Run(kind, r, cs) == CallAll(kind, r, cs)
    decreases |cs|
  {
    if cs != [] { CallsAll(kind, Call(kind, r, cs[0]), cs[1..]); }
  }

  /** A whole transaction does what its commands do one after the other. */
  lemma TransactionRunsAll(kind: Table, r: Client, multi: Command, body: seq<Command>, exec: Command)
    requires !r.multi && r.queue == [] && kind(multi).Multi? && Ordinary(kind, body) && kind(exec).Exec?
    ensures Run(kind, r, [multi] + body + [exec]) == Run(kind, r, body)
  {
    hide CallAll;
    var open := r.(multi := true, queue := []);
    RunAppend(kind, r, [multi] + body, [exec]);
    RunAppend(kind, r, [multi], body);
    assert [multi][1..] == [] && [exec][1..] == [];
    assert Run(kind, r, [multi]) == open;
    QueuesAll(kind, open, body);
    assert [] + body == body;
    CallsAll(kind, r, body);
  }

  /** Loading a whole log runs every command; it succeeds exactly when no transaction is left open. */
  lemma LoadWholeLog(kind: Table, cs: seq<Command>)
    requires Loadable(kind, cs)
    ensures TraceOf(Load(kind, Log(cs))) == Run(kind, FRESH, cs).trace
    ensures cs != [] ==> (Load(kind, Log(cs)).Loaded? <==> !Run(kind, FRESH, cs).multi)
    ensures cs != [] ==> (Load(kind, Log(cs)).Truncated? <==> Run(kind, FRESH, cs).multi)
  {
    if cs != [] {
      PrintNonempty(cs[0]);
      var s := Log(cs);
      assert s[0..] == s == s[..|s|];
      LoadCutFrom(kind, s, 0, cs, |s|, FRESH, 0);
      WholeOfWhole(cs);
      assert cs[..|cs|] == cs;
    }
  }

  /** Loading any prefix of a log reports no format error and runs exactly the whole commands and the
      whole transactions inside the prefix. The file is cut back to the commands of `Kept`. */
  lemma LoadPrefix(kind: Table, cs: seq<Command>, k: nat)
    requires Loadable(kind, cs) && k <= |Log(cs)|
    ensures var o := Load(kind, Log(cs)[..k]);
      && !o.Failed?
      && TraceOf(o) == AtCut(kind, cs, k).trace
      && (o.Truncated? ==> o.size <= k && Log(cs)[..k][..o.size] == Log(cs[..Kept(kind, cs, k)]))
      && (!o.Truncated? ==> Log(cs)[..k] == Log(cs[..Kept(kind, cs, k)]))
  {
    hide LoadFrom, Log, Whole, Kept, AtCut, AfterCut, Loadable;
    var s := Log(cs)[..k];
    OutcomeKept(kind, cs, k);
    if k == 0 {
      NothingCut(kind, cs);
    } else {
      assert s[0..] == s;
      LoadCutFrom(kind, s, 0, cs, k, FRESH, 0);
    }
  }

  lemma NothingCut(kind: Table, cs: seq<Command>)
    ensures AfterCut(kind, cs, 0, 0, FRESH, 0) == Loaded([])
  {
    hide Print;
    CutAtStart(cs);
  }

  /** The outcome of a cut in terms of the commands that are kept. */
  lemma OutcomeKept(kind: Table, cs: seq<Command>, k: nat)
    requires k <= |Log(cs)|
    ensures var o := AfterCut(kind, cs, k, 0, FRESH, 0);
      && !o.Failed? && !o.EmptyFile?
      && TraceOf(o) == AtCut(kind, cs, k).trace
      && (o.Truncated? ==> o.size <= k && Log(cs)[..k][..o.size] == Log(cs[..Kept(kind, cs, k)]))
      && (!o.Truncated? ==> Log(cs)[..k] == Log(cs[..Kept(kind, cs, k)]))
  {
    hide Log, Whole, Run, LastMulti;
    var n := Whole(cs, k);
    var whole := cs[..n];
    WholeFits(cs, k);
    if AtCut(kind, cs, k).multi {
      OpenBlockRanNothing(kind, FRESH, whole);
      var m := LastMulti(kind, whole);
      assert whole[..m] == cs[..m];
      LogPrefix(cs, m);
      LogPrefix(whole, m);
    }
  }

  /** What is left in the file after recovery loads to the same dataset as the recovery itself. */
  lemma ReloadAfterRecovery(kind: Table, cs: seq<Command>, k: nat)
    requires Loadable(kind, cs) && k <= |Log(cs)|
    ensures TraceOf(Load(kind, Log(cs[..Kept(kind, cs, k)]))) == TraceOf(Load(kind, Log(cs)[..k]))
  {
    hide Load, Log, Run, TraceOf, Whole, LastMulti;
    var n, kept := Whole(cs, k), Kept(kind, cs, k);
    LoadPrefix(kind, cs, k);
    LoadWholeLog(kind, cs[..kept]);
    if kept < n {
      OpenBlockRanNothing(kind, FRESH, cs[..n]);
      assert cs[..n][..kept] == cs[..kept];
    }
  }

  // ----- appending after a recovery -----

  ghost predicate ContinuesAfter(kind: Table, file: seq<Command>, more: seq<Command>) {
    var r := Run(kind, FRESH, file);
    TraceOf(Load(kind, Log(file) + Log(more))) == Run(kind, r.(multi := false, queue := []), more).trace
  }

  /** The server goes on appending to the recovered file. What it appends is replayed as executed, for
      every continuation, exactly when recovery did not leave a transaction open in the file. */
  lemma AppendAfterRecovery(kind: Table, cs: seq<Command>, k: nat, ordinary: Command)
    requires Loadable(kind, cs) && k <= |Log(cs)|
    requires Printable(ordinary) && kind(ordinary).Other?
    ensures var file := cs[..Kept(kind, cs, k)];
      (forall more :: Loadable(kind, more) ==> ContinuesAfter(kind, file, more))
      <==> !Run(kind, FRESH, file).multi
  {
    hide Load, Log, Kept, Run, Loadable;
    var file := cs[..Kept(kind, cs, k)];
    var r := Run(kind, FRESH, file);
    FrontLoadable(kind, cs, Kept(kind, cs, k));
    forall more | Loadable(kind, more)
      ensures TraceOf(Load(kind, Log(file) + Log(more))) == Run(kind, r, more).trace
    {
      ContinuedTrace(kind, file, more);
    }
    if r.multi {
      QueuedNotRun(kind, r, ordinary);
      assert !ContinuesAfter(kind, file, [ordinary]);
    } else {
      QueueOnlyInside(kind, FRESH, file);
    }
  }

  lemma FrontLoadable(kind: Table, cs: seq<Command>, n: nat)
    requires Loadable(kind, cs) && n <= |cs|
    ensures Loadable(kind, cs[..n])
  {
  }

  lemma ContinuedTrace(kind: Table, file: seq<Command>, more: seq<Command>)
    requires Loadable(kind, file) && Loadable(kind, more)
    ensures TraceOf(Load(kind, Log(file) + Log(more))) == Run(kind, Run(kind, FRESH, file), more).trace
  {
    hide Load, Log, Run, TraceOf;
    LogAppend(file, more);
    LoadWholeLog(kind, file + more);
    RunAppend(kind, FRESH, file, more);
  }

  /** Inside a transaction an ordinary command is queued; outside it runs. */
  lemma QueuedNotRun(kind: Table, r: Client, ordinary: Command)
    requires r.multi && Printable(ordinary) && kind(ordinary).Other?
    ensures Loadable(kind, [ordinary])
    ensures Run(kind, r, [ordinary]).trace != Run(kind, r.(multi := false, queue := []), [ordinary]).trace
  {
    assert [ordinary][1..] == [];
    assert Run(kind, r.(multi := false, queue := []), [ordinary]).trace == r.trace + [(r.db, ordinary)];
  }

  lemma {:induction false} QueueOnlyInside(kind: Table, r: Client, cs: seq<Command>)
    requires !r.multi ==> r.queue == []
    ensures !Run(kind, r, cs).multi ==> Run(kind, r, cs).queue == []
    decreases |cs|
  {
    if cs != [] {
      CallAllKeepsFlag(kind, r.(multi := false, queue := []), r.queue);
      QueueOnlyInside(kind, Step(kind, r, cs[0]), cs[1..]);
    }
  }

  /** The log never issues MULTI inside a transaction, as the server's own propagation guarantees. */
  ghost predicate NotNested(kind: Table, cs: seq<Command>) {
    forall i :: 0 <= i < |cs| && kind(cs[i]).Multi? ==> !Run(kind, FRESH, cs[..i]).multi
  }

  /** On such logs recovery leaves a transaction open exactly when the cut falls strictly inside a
      command that belongs to a transaction: that path cuts back to the last whole command only. */
  lemma OpenAfterRecovery(kind: Table, cs: seq<Command>, k: nat)
    requires Loadable(kind, cs) && k <= |Log(cs)| && NotNested(kind, cs)
    ensures Run(kind, FRESH, cs[..Kept(kind, cs, k)]).multi
       <==> AtCut(kind, cs, k).multi && |Log(cs[..Whole(cs, k)])| != k
  {
    var n := Whole(cs, k);
    var whole := cs[..n];
    var m := LastMulti(kind, whole);
    if AtCut(kind, cs, k).multi {
      OpenBlockRanNothing(kind, FRESH, whole);
      LastMultiIsMulti(kind, whole);
      assert whole[m] == cs[m];
    }
  }

  lemma {:induction false} LastMultiIsMulti(kind: Table, cs: seq<Command>)
    requires LastMulti(kind, cs) >= 0
    ensures kind(cs[LastMulti(kind, cs)]).Multi?
    decreases |cs|
  {
    if LastMulti(kind, cs[1..]) >= 0 {
      LastMultiIsMulti(kind, cs[1..]);
    }
  }

  /** A concrete log whose recovery loses what is appended next: MULTI and a cut command. */
  lemma RecoveryCanLoseAppends(kind: Table, multi: Command, c: Command)
    requires Printable(multi) && Printable(c) && kind(multi).Multi? && kind(c).Other?
    ensures var cs, k := [multi, c], |Print(multi)| + 1;
      && k <= |Log(cs)| && cs[..Kept(kind, cs, k)] == [multi]
      && TraceOf(Load(kind, Log([multi]) + Log([c]))) == []
  {
    var cs, k := [multi, c], |Print(multi)| + 1;
    PrintNonempty(multi);
    OneCut(multi, c);
    hide Print;
    assert cs[..1] == [multi] && [multi][1..] == [] && [c][1..] == [] && cs[1..] == [c];
    assert |Log([multi])| == |Print(multi)|;
    assert Whole(cs, k) == 1 && Kept(kind, cs, k) == 1;
    LogAppend([multi], [c]);
    assert [multi] + [c] == cs;
    LoadWholeLog(kind, cs);
    var open := Step(kind, FRESH, multi);
    assert Run(kind, FRESH, cs) == Run(kind, open, [c]) == Step(kind, open, c);
  }

  lemma OneCut(a: Command, c: Command)
    ensures Whole([a, c], |Print(a)| + 1) == 1
    ensures |Print(a)| + 1 <= |Log([a, c])|
  {
    hide Decimal, PrintArgs;
    var cs := [a, c];
    assert cs[1..] == [c];
    assert |Print(c)| >= 2;
    assert Whole([c], 1) == 0;
    assert cs[0] == a;
    assert Whole(cs, |Print(a)| + 1) == 1 + Whole(cs[1..], 1);
    assert Log(cs) == Print(a) + Log([c]);
    assert Log([c]) == Print(c) + Log([c][1..]);
  }
}
