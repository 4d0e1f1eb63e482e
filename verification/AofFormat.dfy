/** The format of the append-only log, told without a reader: lines, arguments, commands and annotations one after
    the other. What loadSingleAppendOnlyFile() makes of any bytes follows from how far they keep to it. */
module AofFormat {
  import opened CString
  import opened AofText
  import opened AofLoad

  // ----- the format -----

  /** One line as fgets() takes it from the front of a file. */
  ghost predicate IsLine(h: string, rest: string) {
    && 0 < |h| <= LINE_MAX && NoNewline(h[..|h| - 1])
    && (h[|h| - 1] == '\n' || |h| == LINE_MAX || rest == "")
  }

  /** An argument: its length line, its bytes, and two more that are not looked at. */
  datatype Arg = Arg(header: string, value: string, end: string)

  function ArgText(a: Arg): string { a.header + a.value + a.end }

  function ArgsText(args: seq<Arg>): string { if args == [] then "" else ArgText(args[0]) + ArgsText(args[1..]) }

  function Values(args: seq<Arg>): seq<string> { if args == [] then [] else [args[0].value] + Values(args[1..]) }

  ghost predicate ArgOk(a: Arg, rest: string) {
    && IsLine(a.header, a.value + a.end + rest) && a.header[0] == '$'
    && Number(a.header[1..]) == |a.value| && |a.end| == 2
  }

  ghost predicate ArgsOk(args: seq<Arg>, rest: string) {
    args == [] || (ArgOk(args[0], ArgsText(args[1..]) + rest) && ArgsOk(args[1..], rest))
  }

  /** What stands in a log: a command with its count line, or an annotation. */
  datatype Entry = Entry(header: string, args: seq<Arg>) | Note(line: string)

  function EntryText(e: Entry): string {
    match e
    case Entry(header, args) => header + ArgsText(args)
    case Note(line) => line
  }

  ghost predicate EntryOk(e: Entry, rest: string) {
    match e
    case Entry(header, args) =>
      && IsLine(header, ArgsText(args) + rest) && |header| >= 2 && header[0] == '*' && header[1] != '\0'
      && Number(header[1..]) == |args| >= 1 && ArgsOk(args, rest)
    case Note(line) => IsLine(line, rest) && line[0] == '#'
  }

  /** The entry stands at the front of the bytes. */
  ghost predicate Begins(t: string, e: Entry, rest: string) { t == EntryText(e) + rest && EntryOk(e, rest) }

  function FileText(es: seq<Entry>): string { if es == [] then "" else EntryText(es[0]) + FileText(es[1..]) }

  ghost predicate FileOk(es: seq<Entry>, rest: string) {
    es == [] || (EntryOk(es[0], FileText(es[1..]) + rest) && FileOk(es[1..], rest))
  }

  function Cmds(es: seq<Entry>): seq<Command> {
    if es == [] then [] else (if es[0].Entry? then [Values(es[0].args)] else []) + Cmds(es[1..])
  }

  // ----- what the reader makes of it -----

  lemma ArgTaken(a: Arg, rest: string, n: nat)
    requires ArgOk(a, rest) && n > 0
    ensures ParseArgs(ArgText(a) + rest, n)
         == match ParseArgs(rest, n - 1)
            case Args(more, used) => Args([a.value] + more, |ArgText(a)| + used)
            case bad => bad
  {
    hide Number, LineLength, ParseArgs;
    var t := ArgText(a) + rest;
    assert t == a.header + (a.value + a.end + rest);
    LineTaken(a.header, a.value + a.end + rest, LINE_MAX);
    SplitArg(a.header, a.value, a.end, rest);
    assert t[1..|a.header|] == a.header[1..];
    ParseArgStep(t, n, |a.header|, |a.value|);
  }

  lemma {:induction false} ArgsTaken(args: seq<Arg>, rest: string, n: nat)
    requires ArgsOk(args, rest) && n >= |args|
    ensures ParseArgs(ArgsText(args) + rest, n)
         == match ParseArgs(rest, n - |args|)
            case Args(more, used) => Args(Values(args) + more, |ArgsText(args)| + used)
            case bad => bad
    decreases |args|
  {
    hide ParseArgs, ArgText, ArgOk;
    if args == [] {
      assert ArgsText(args) + rest == rest;
      assert forall more: seq<string> :: [] + more == more;
    } else {
      var tail := ArgsText(args[1..]) + rest;
      assert ArgsText(args) + rest == ArgText(args[0]) + tail;
      ArgTaken(args[0], tail, n);
      ArgsTaken(args[1..], rest, n - 1);
      var r := ParseArgs(rest, n - |args|);
      if r.Args? { assert [args[0].value] + (Values(args[1..]) + r.args) == Values(args) + r.args; }
    }
  }

  /** An entry is taken off the front. */
  lemma EntryTaken(e: Entry, rest: string)
    requires EntryOk(e, rest)
    ensures EntryText(e) != ""
    ensures NextItem(EntryText(e) + rest)
         == if e.Entry? then Parsed(Values(e.args), |EntryText(e)|) else Annotation(|EntryText(e)|)
  {
    hide Number, LineLength, ParseArgs, ArgsText, Values, NextItem, ArgsOk;
    match e
    case Note(line) =>
      LineTaken(line, rest, LINE_MAX);
      NoteStep(line + rest);
    case Entry(header, args) =>
      var tail := ArgsText(args) + rest;
      assert header + ArgsText(args) + rest == header + tail;
      LineTaken(header, tail, LINE_MAX);
      CommandStep(header, tail, |args|);
      ArgsTaken(args, rest, |args|);
      NoArgs(rest);
      assert Values(args) + [] == Values(args);
  }

  lemma NoteStep(t: string)
    requires t != "" && t[0] == '#'
    ensures NextItem(t) == Annotation(LineLength(t, LINE_MAX))
  {
  }

  lemma CommandStep(header: string, tail: string, argc: nat)
    requires LineLength(header + tail, LINE_MAX) == |header| >= 2 && header[0] == '*' && header[1] != '\0'
    requires Number(header[1..]) == argc >= 1
    ensures NextItem(header + tail) == match ParseArgs(tail, argc)
                                       case Args(args, more) => Parsed(args, |header| + more)
                                       case ArgsShort => ShortRead
                                       case ArgsFormat => FormatError
                                       case ArgsAbort => Abort
  {
    hide Number, LineLength, ParseArgs;
    var t := header + tail;
    assert t[1..|header|] == header[1..] && t[|header|..] == tail;
  }

  lemma NoArgs(t: string)
    ensures ParseArgs(t, 0) == Args([], 0)
  {
  }

  // ----- what is not an entry -----

  /** The bytes end inside an argument, or before it. */
  ghost predicate PartOfArg(p: string) {
    p == "" || exists h, x :: CutAfter(p, h, x)
  }

  ghost predicate CutAfter(p: string, h: string, x: string) {
    p == h + x && IsLine(h, x) && h[0] == '$' && 0 <= Number(h[1..]) && |x| < Number(h[1..]) + 2
  }

  /** The bytes end inside a command: in its first byte, in a count line that starts with a null byte, or with fewer
      arguments than the count line says. */
  ghost predicate Unfinished(t: string) {
    || t == "*"
    || (2 <= |t| < LINE_MAX && t[..2] == "*\0" && NoNewline(t))
    || exists header, args, p :: PartOf(t, header, args, p)
  }

  ghost predicate PartOf(t: string, header: string, args: seq<Arg>, p: string) {
    && t == header + (ArgsText(args) + p)
    && IsLine(header, ArgsText(args) + p) && |header| >= 2 && header[0] == '*' && header[1] != '\0'
    && |args| < Number(header[1..]) && ArgsOk(args, p) && PartOfArg(p)
  }

  lemma LineAhead(t: string)
    requires t != ""
    ensures var n := LineLength(t, LINE_MAX); t == t[..n] + t[n..] && IsLine(t[..n], t[n..]) && t[..n][0] == t[0]
  {
    hide LineLength;
    LineIsLine(t, LINE_MAX);
    var n := LineLength(t, LINE_MAX);
    assert t[..n][..n - 1] == t[..n - 1];
  }

  lemma OnlyLine(t: string, h: string, x: string)
    requires t == h + x && IsLine(h, x)
    ensures LineLength(t, LINE_MAX) == |h| && t[..|h|] == h && t[|h|..] == x && t[1..|h|] == h[1..]
  {
    hide LineLength;
    LineTaken(h, x, LINE_MAX);
  }

  lemma CutExactly(p: string, h: string, x: string)
    requires p == h + x && IsLine(h, x)
    ensures var n := LineLength(p, LINE_MAX);
      CutAfter(p, h, x) <==> p[0] == '$' && 0 <= Number(p[1..n]) && |p| < n + Number(p[1..n]) + 2
  {
    hide Number, LineLength;
    OnlyLine(p, h, x);
  }

  lemma CutIsLine(p: string, h: string, x: string)
    requires CutAfter(p, h, x)
    ensures p == h + x && IsLine(h, x)
  {
  }

  /** The reader's view of the same. */
  lemma PartExactly(p: string)
    requires p != ""
    ensures var n := LineLength(p, LINE_MAX);
      PartOfArg(p) <==> p[0] == '$' && 0 <= Number(p[1..n]) && |p| < n + Number(p[1..n]) + 2
  {
    hide Number, LineLength, IsLine, CutAfter;
    LineAhead(p);
    var n := LineLength(p, LINE_MAX);
    CutExactly(p, p[..n], p[n..]);
    if PartOfArg(p) {
      var h, x :| CutAfter(p, h, x);
      CutIsLine(p, h, x);
      CutExactly(p, h, x);
    }
  }

  /** Any bytes are some whole arguments, at most as many as asked for, and a rest that is not one more. */
  lemma {:induction false} ArgsSplit(t: string, n: nat) returns (args: seq<Arg>, p: string)
    ensures t == ArgsText(args) + p && ArgsOk(args, p) && |args| <= n
    ensures |args| == n ==> ParseArgs(t, n) == Args(Values(args), |ArgsText(args)|)
    ensures |args| < n ==> !ParseArgs(t, n).Args? && (ParseArgs(t, n).ArgsShort? <==> PartOfArg(p))
    decreases n
  {
    hide Number, LineLength, PartOfArg, IsLine, ParseArgs, ArgOk, ArgText;
    args, p := [], t;
    if n > 0 && ArgAhead(t) {
      var a, rest := ArgOf(t);
      ArgTaken(a, rest, n);
      var more;
      more, p := ArgsSplit(rest, n - 1);
      args := [a] + more;
      assert args[1..] == more;
      assert ArgText(a) + (ArgsText(more) + p) == ArgText(a) + ArgsText(more) + p;
    } else if n > 0 {
      NoArgAhead(t, n);
    } else {
      NoArgs(t);
    }
  }

  /** The bytes start with a whole argument, as the reader sees it. */
  ghost predicate ArgAhead(t: string) {
    && t != "" && t[0] == '$'
    && var used := LineLength(t, LINE_MAX);
       var len := Number(t[1..used]); 0 <= len && used + len + 2 <= |t|
  }

  lemma ArgOf(t: string) returns (a: Arg, rest: string)
    requires ArgAhead(t)
    ensures t == ArgText(a) + rest && ArgOk(a, rest)
  {
    hide Number, LineLength, IsLine;
    LineAhead(t);
    var used := LineLength(t, LINE_MAX);
    var len := Number(t[1..used]);
    rest := t[used + len + 2..];
    a := Arg(t[..used], t[used..used + len], t[used + len..used + len + 2]);
    assert t == ArgText(a) + rest && t[used..] == a.value + a.end + rest && a.header[1..] == t[1..used];
  }

  lemma NoArgAhead(t: string, n: nat)
    requires n > 0 && !ArgAhead(t)
    ensures !ParseArgs(t, n).Args? && (ParseArgs(t, n).ArgsShort? <==> PartOfArg(t))
  {
    hide Number, LineLength, PartOfArg;
    if t == "" {
      EmptyPart();
    } else {
      PartExactly(t);
    }
  }

  lemma EmptyPart()
    ensures PartOfArg("")
  {
  }

  lemma PartShort(p: string, n: nat)
    requires n > 0 && PartOfArg(p)
    ensures ParseArgs(p, n).ArgsShort?
  {
    hide Number, LineLength, PartOfArg;
    if p != "" { PartExactly(p); }
  }

  /** A command line, as far as the reader accepts it. */
  ghost predicate CountAhead(t: string) {
    t != "" && t[0] == '*' && LineLength(t, LINE_MAX) >= 2 && t[1] != '\0'
  }

  lemma CountLine(t: string) returns (header: string, tail: string)
    requires CountAhead(t)
    ensures t == header + tail && IsLine(header, tail) && LineLength(t, LINE_MAX) == |header|
    ensures |header| >= 2 && header[0] == '*' && header[1] != '\0'
  {
    hide LineLength, IsLine;
    LineAhead(t);
    var n := LineLength(t, LINE_MAX);
    header, tail := t[..n], t[n..];
  }

  lemma NoCommand(header: string, tail: string)
    requires LineLength(header + tail, LINE_MAX) == |header| >= 2 && header[0] == '*' && header[1] != '\0'
    requires Number(header[1..]) < 1
    ensures NextItem(header + tail) == FormatError
  {
    hide Number, LineLength, ParseArgs;
    var t := header + tail;
    assert t[1..|header|] == header[1..];
  }

  /** What the reader takes for an entry is one. */
  lemma EntryOf(t: string) returns (e: Entry, rest: string)
    requires NextItem(t).Parsed? || NextItem(t).Annotation?
    ensures Begins(t, e, rest)
  {
    hide Number, LineLength, ParseArgs, IsLine, ArgsOk, ArgsText, Values;
    if t[0] == '#' {
      LineAhead(t);
      var n := LineLength(t, LINE_MAX);
      e, rest := Note(t[..n]), t[n..];
    } else {
      CountIsAhead(t);
      hide NextItem;
      var header, tail := CountLine(t);
      if Number(header[1..]) < 1 { NoCommand(header, tail); }
      CommandStep(header, tail, Number(header[1..]));
      var args, p := ArgsSplit(tail, Number(header[1..]));
      e, rest := Entry(header, args), p;
      assert header + tail == header + ArgsText(args) + p;
    }
  }

  lemma CountIsAhead(t: string)
    requires NextItem(t).Parsed?
    ensures CountAhead(t)
  {
    hide Number, LineLength, ParseArgs;
    LineIsLine(t, LINE_MAX);
  }

  /** The reader reports the end of the file inside a command exactly if the bytes end inside a command. */
  lemma UnfinishedExactly(t: string)
    requires t != ""
    ensures NextItem(t).ShortRead? <==> Unfinished(t)
  {
    hide NextItem, Unfinished;
    if CountAhead(t) {
      UnfinishedArgs(t);
    } else {
      UnfinishedCount(t);
    }
  }

  lemma UnfinishedCount(t: string)
    requires t != "" && !CountAhead(t)
    ensures NextItem(t).ShortRead? <==> Unfinished(t)
  {
    hide Number, ParseArgs, LineLength, PartOf, PartOfArg;
    LineIsLine(t, LINE_MAX);
    if NoNewline(t) && |t| <= LINE_MAX { LineAtEnd(t, LINE_MAX); }
    forall header, args, p | PartOf(t, header, args, p) ensures false { PartIsAhead(t, header, args, p); }
  }

  lemma PartIsAhead(t: string, header: string, args: seq<Arg>, p: string)
    requires PartOf(t, header, args, p)
    ensures CountAhead(t) && NextItem(t).ShortRead?
  {
    hide Number, LineLength, ParseArgs, ArgsOk, PartOfArg, NextItem;
    OnlyLine(t, header, ArgsText(args) + p);
    CommandStep(header, ArgsText(args) + p, Number(header[1..]));
    ArgsTaken(args, p, Number(header[1..]));
    PartShort(p, Number(header[1..]) - |args|);
  }

  lemma UnfinishedArgs(t: string)
    requires CountAhead(t)
    ensures NextItem(t).ShortRead? <==> Unfinished(t)
  {
    hide Number, LineLength, ParseArgs, IsLine, ArgsOk, ArgsText, NextItem, PartOf, PartOfArg;
    if exists header, args, p :: PartOf(t, header, args, p) {
      var header, args, p :| PartOf(t, header, args, p);
      PartIsAhead(t, header, args, p);
    }
    if NextItem(t).ShortRead? {
      var header, tail := CountLine(t);
      if Number(header[1..]) < 1 { NoCommand(header, tail); }
      CommandStep(header, tail, Number(header[1..]));
      var args, p := ArgsSplit(tail, Number(header[1..]));
      PartMade(t, header, args, p);
    }
    if NoNewline(t) && |t| <= LINE_MAX { LineAtEnd(t, LINE_MAX); }
  }

  lemma PartMade(t: string, header: string, args: seq<Arg>, p: string)
    requires t == header + (ArgsText(args) + p) && IsLine(header, ArgsText(args) + p)
    requires |header| >= 2 && header[0] == '*' && header[1] != '\0'
    requires |args| < Number(header[1..]) && ArgsOk(args, p) && PartOfArg(p)
    ensures PartOf(t, header, args, p)
  {
  }

  // ----- loading entries -----

  ghost predicate Known(kind: Table, es: seq<Entry>) {
    forall i :: 0 <= i < |es| && es[i].Entry? ==> !kind(Values(es[i].args)).Unknown?
  }

  /** Where the last command ends. */
  function CommandsEnd(es: seq<Entry>): nat {
    if es == [] then 0 else if es[|es| - 1].Entry? then |FileText(es)| else CommandsEnd(es[..|es| - 1])
  }

  predicate IsMulti(kind: Table, e: Entry) { e.Entry? && kind(Values(e.args)).Multi? }

  /** Where the last command before the last MULTI ends. */
  function MultiStart(kind: Table, es: seq<Entry>): nat {
    if es == [] then 0
    else
      var n := |es| - 1;
      if IsMulti(kind, es[n]) then CommandsEnd(es[..n]) else MultiStart(kind, es[..n])
  }

  lemma {:induction false} FileTextAppend(es: seq<Entry>, e: Entry)
    ensures FileText(es + [e]) == FileText(es) + EntryText(e)
    ensures Cmds(es + [e]) == Cmds(es) + if e.Entry? then [Values(e.args)] else []
    decreases |es|
  {
    hide EntryText, Values;
    if es == [] {
      assert es + [e] == [e] && [e][1..] == [];
    } else {
      assert (es + [e])[1..] == es[1..] + [e];
      FileTextAppend(es[1..], e);
    }
  }

  lemma {:induction false} FileOkAppend(es: seq<Entry>, e: Entry, rest: string)
    ensures FileOk(es + [e], rest) <==> FileOk(es, EntryText(e) + rest) && EntryOk(e, rest)
    decreases |es|
  {
    hide EntryText, EntryOk;
    if es == [] {
      assert es + [e] == [e] && [e][1..] == [] && FileText([]) + rest == rest;
    } else {
      assert (es + [e])[1..] == es[1..] + [e] && (es + [e])[0] == es[0];
      FileTextAppend(es[1..], e);
      FileOkAppend(es[1..], e, rest);
      assert FileText(es[1..]) + EntryText(e) + rest == FileText(es[1..]) + (EntryText(e) + rest);
    }
  }

  /** Loading goes through the entries: it runs their commands, and keeps where the last of them ended. */
  lemma {:induction false} LoadEntries(kind: Table, s: string, es: seq<Entry>, tail: string)
    requires s == FileText(es) + tail && FileOk(es, tail) && Known(kind, es)
    ensures LoadFrom(kind, s, 0, FRESH, 0, 0)
         == LoadFrom(kind, s, |FileText(es)|, Run(kind, FRESH, Cmds(es)), CommandsEnd(es), MultiStart(kind, es))
    decreases |es|
  {
    hide LoadFrom, Step, EntryText, EntryOk, FileText, FileOk, Cmds, CommandsEnd, MultiStart, Run, Values;
    if es == [] {
      NoEntries(kind);
    } else {
      var n := |es| - 1;
      var e, front := es[n], es[..n];
      assert es == front + [e];
      FileTextAppend(front, e);
      FileOkAppend(front, e, tail);
      assert s == FileText(front) + (EntryText(e) + tail);
      LoadEntries(kind, s, front, EntryText(e) + tail);
      var cs := Cmds(front);
      LoadEntry(kind, s, |FileText(front)|, e, tail, Run(kind, FRESH, cs), CommandsEnd(front), MultiStart(kind, front));
      EndsNext(kind, front, e);
      if e.Entry? {
        RunAppend(kind, FRESH, cs, [Values(e.args)]);
        RunSingle(kind, Run(kind, FRESH, cs), Values(e.args));
      } else {
        assert cs + [] == cs;
      }
    }
  }

  lemma NoEntries(kind: Table)
    ensures FileText([]) == "" && Cmds([]) == [] && CommandsEnd([]) == 0 && MultiStart(kind, []) == 0
    ensures Run(kind, FRESH, []) == FRESH
  {
  }

  lemma RunSingle(kind: Table, r: Client, c: Command)
    ensures Run(kind, r, [c]) == Step(kind, r, c)
  {
    hide Step;
    assert [c][1..] == [];
  }

  lemma EndsNext(kind: Table, front: seq<Entry>, e: Entry)
    ensures CommandsEnd(front + [e]) == if e.Entry? then |FileText(front)| + |EntryText(e)| else CommandsEnd(front)
    ensures MultiStart(kind, front + [e]) == if IsMulti(kind, e) then CommandsEnd(front) else MultiStart(kind, front)
  {
    hide EntryText, FileText, IsMulti;
    FileTextAppend(front, e);
    assert (front + [e])[..|front|] == front;
  }

  lemma LoadEntry(kind: Table, s: string, pos: nat, e: Entry, tail: string, r: Client, upTo: nat, before: nat)
    requires pos <= |s| && s[pos..] == EntryText(e) + tail && EntryOk(e, tail)
    requires e.Entry? ==> !kind(Values(e.args)).Unknown?
    ensures var next := pos + |EntryText(e)|;
      && next <= |s|
      && LoadFrom(kind, s, pos, r, upTo, before)
         == if e.Note? then LoadFrom(kind, s, next, r, upTo, before)
            else LoadFrom(kind, s, next, Step(kind, r, Values(e.args)), next,
                          if IsMulti(kind, e) then upTo else before)
  {
    hide NextItem, Step, EntryOk, EntryText, Values;
    EntryTaken(e, tail);
  }

  /** What the entries before it and the rest of the file make of a load. */
  lemma LoadRest(kind: Table, es: seq<Entry>, tail: string)
    requires FileOk(es, tail) && Known(kind, es) && FileText(es) + tail != ""
    ensures var r := Run(kind, FRESH, Cmds(es));
      Load(kind, FileText(es) + tail)
      == match NextItem(tail)
         case EndOfFile => if r.multi then Truncated(r.trace, MultiStart(kind, es)) else Loaded(r.trace)
         case ShortRead => Truncated(r.trace, CommandsEnd(es))
         case Annotation(_) => Load(kind, FileText(es) + tail)
         case Parsed(c, _) => if kind(c).Unknown? then Failed else Load(kind, FileText(es) + tail)
         case _ => Failed
  {
    hide NextItem, Step, FileText, FileOk, Cmds, CommandsEnd, MultiStart, Run, Known;
    var s := FileText(es) + tail;
    LoadEntries(kind, s, es, tail);
    assert s[|FileText(es)|..] == tail;
  }

  /** No entry begins here. */
  ghost predicate NoEntry(t: string) { forall e, rest :: !Begins(t, e, rest) }

  /** Loading any file that is entries and a rest: it loads if the rest is empty and no transaction is open; it is
      cut back to before that transaction if one is, and behind the last command if the rest ends inside a command;
      any other rest, and an unknown command, fail it. */
  lemma LoadExactly(kind: Table, es: seq<Entry>, tail: string)
    requires FileOk(es, tail) && Known(kind, es) && FileText(es) + tail != ""
    ensures var o, r := Load(kind, FileText(es) + tail), Run(kind, FRESH, Cmds(es));
      && (tail == "" ==> o == if r.multi then Truncated(r.trace, MultiStart(kind, es)) else Loaded(r.trace))
      && (tail != "" && Unfinished(tail) ==> o == Truncated(r.trace, CommandsEnd(es)))
      && (tail != "" && !Unfinished(tail) && NoEntry(tail) ==> o == Failed)
  {
    hide NextItem, Load, Run, FileOk, Known, FileText, Cmds, CommandsEnd, MultiStart, Unfinished, NoEntry;
    LoadRest(kind, es, tail);
    if tail == "" {
      NothingLeft(tail);
    } else {
      UnfinishedExactly(tail);
      if NoEntry(tail) { NoEntryNoItem(tail); }
    }
  }

  lemma NoEntryNoItem(t: string)
    requires NoEntry(t) && t != ""
    ensures !NextItem(t).Parsed? && !NextItem(t).Annotation? && !NextItem(t).EndOfFile?
  {
    hide EntryText, EntryOk, Number, LineLength, ParseArgs;
    if NextItem(t).Parsed? || NextItem(t).Annotation? {
      var e, rest := EntryOf(t);
    }
  }

  /** Any file is entries of known commands and a rest: nothing, the beginning of a command, no entry, or an unknown
      command. */
  lemma {:induction false} FileSplit(kind: Table, s: string) returns (es: seq<Entry>, tail: string)
    ensures s == FileText(es) + tail && FileOk(es, tail) && Known(kind, es)
    ensures var next := NextItem(tail); !next.Annotation? && (next.Parsed? ==> kind(next.cmd).Unknown?)
    decreases |s|
  {
    hide NextItem, EntryText, EntryOk, Values;
    var next := NextItem(s);
    if next.Annotation? || (next.Parsed? && !kind(next.cmd).Unknown?) {
      var e, rest := EntryOf(s);
      EntryTaken(e, rest);
      var more;
      more, tail := FileSplit(kind, rest);
      es := [e] + more;
      assert es[1..] == more;
      assert EntryText(e) + FileText(more) + tail == s;
      KnownFirst(kind, e, more);
    } else {
      es, tail := [], s;
    }
  }

  lemma KnownFirst(kind: Table, e: Entry, more: seq<Entry>)
    requires Known(kind, more) && (e.Entry? ==> !kind(Values(e.args)).Unknown?)
    ensures Known(kind, [e] + more)
  {
    hide Values;
  }

  ghost predicate EndsEarly(kind: Table, s: string, es: seq<Entry>, tail: string) {
    && s == FileText(es) + tail && FileOk(es, tail) && Known(kind, es)
    && if tail == "" then Run(kind, FRESH, Cmds(es)).multi else Unfinished(tail)
  }

  ghost predicate EndsWell(kind: Table, s: string, es: seq<Entry>) {
    s != "" && s == FileText(es) && FileOk(es, "") && Known(kind, es) && !Run(kind, FRESH, Cmds(es)).multi
  }

  /** Which files load, and which are cut back and loaded anyway. All others but the empty file fail. */
  lemma LoadsExactly(kind: Table, s: string)
    ensures Load(kind, s).Loaded? <==> exists es :: EndsWell(kind, s, es)
    ensures Load(kind, s).Truncated? <==> exists es, tail :: EndsEarly(kind, s, es, tail)
    ensures Load(kind, s).EmptyFile? <==> s == ""
  {
    hide NextItem, Load, Run, FileOk, Known, FileText, Cmds, CommandsEnd, MultiStart, Unfinished, EndsWell, EndsEarly;
    LoadNotEmpty(kind, s);
    forall es | EndsWell(kind, s, es) ensures Load(kind, s).Loaded? { WellLoads(kind, s, es); }
    forall es, tail | EndsEarly(kind, s, es, tail) ensures Load(kind, s).Truncated? { EarlyLoads(kind, s, es, tail); }
    if s != "" {
      var es, tail := FileSplit(kind, s);
      SplitLoads(kind, s, es, tail);
    }
  }

  lemma LoadNotEmpty(kind: Table, s: string)
    ensures Load(kind, s).EmptyFile? <==> s == ""
  {
    if s != "" { FromNotEmpty(kind, s, 0, FRESH, 0, 0); }
  }

  lemma {:induction false} FromNotEmpty(kind: Table, s: string, pos: nat, r: Client, upTo: nat, before: nat)
    requires pos <= |s|
    ensures !LoadFrom(kind, s, pos, r, upTo, before).EmptyFile?
    decreases |s| - pos
  {
    hide NextItem, Step;
    var next := NextItem(s[pos..]);
    if next.Annotation? {
      FromNotEmpty(kind, s, pos + next.used, r, upTo, before);
    } else if next.Parsed? && !kind(next.cmd).Unknown? {
      FromNotEmpty(kind, s, pos + next.used, Step(kind, r, next.cmd), pos + next.used,
                   if kind(next.cmd).Multi? then upTo else before);
    }
  }

  lemma WellLoads(kind: Table, s: string, es: seq<Entry>)
    requires EndsWell(kind, s, es)
    ensures Load(kind, s).Loaded?
  {
    hide Load, Run, FileOk, Known, FileText, Cmds;
    assert FileText(es) + "" == FileText(es);
    LoadExactly(kind, es, "");
  }

  lemma EarlyLoads(kind: Table, s: string, es: seq<Entry>, tail: string)
    requires EndsEarly(kind, s, es, tail)
    ensures Load(kind, s).Truncated?
  {
    hide Load, Run, FileOk, Known, Unfinished;
    if s == "" { EmptyNotOpen(kind, es); }
    LoadExactly(kind, es, tail);
  }

  lemma EmptyNotOpen(kind: Table, es: seq<Entry>)
    requires FileText(es) == "" && FileOk(es, "")
    ensures !Run(kind, FRESH, Cmds(es)).multi
  {
    if es != [] { EntryTaken(es[0], FileText(es[1..]) + ""); }
  }

  lemma SplitLoads(kind: Table, s: string, es: seq<Entry>, tail: string)
    requires s != "" && s == FileText(es) + tail && FileOk(es, tail) && Known(kind, es)
    requires var next := NextItem(tail); !next.Annotation? && (next.Parsed? ==> kind(next.cmd).Unknown?)
    ensures Load(kind, s).Loaded? ==> EndsWell(kind, s, es)
    ensures Load(kind, s).Truncated? ==> EndsEarly(kind, s, es, tail)
  {
    hide NextItem, Load, Run, FileOk, Known, FileText, Cmds, CommandsEnd, MultiStart, Unfinished;
    LoadRest(kind, es, tail);
    if tail == "" {
      NothingLeft(tail);
      assert s == FileText(es);
    } else {
      UnfinishedExactly(tail);
      SomethingLeft(tail);
    }
  }

  lemma SomethingLeft(t: string)
    requires t != ""
    ensures !NextItem(t).EndOfFile?
  {
    hide Number, LineLength, ParseArgs;
  }

  // ----- logs the server printed, and what may follow them -----

  function PrintedArg(a: string): Arg { Arg("$" + Decimal(|a|) + "\r\n", a, "\r\n") }

  function PrintedArgs(args: seq<string>): seq<Arg> {
    if args == [] then [] else [PrintedArg(args[0])] + PrintedArgs(args[1..])
  }

  function Printed(c: Command): Entry { Entry("*" + Decimal(|c|) + "\r\n", PrintedArgs(c)) }

  function PrintedAll(cs: seq<Command>): seq<Entry> {
    if cs == [] then [] else [Printed(cs[0])] + PrintedAll(cs[1..])
  }

  lemma HeaderIsLine(mark: char, n: nat, rest: string)
    requires mark != '\n' && n < 0x8000_0000_0000_0000
    ensures var h := [mark] + Decimal(n) + "\r\n"; IsLine(h, rest) && Number(h[1..]) == n && h[1] != '\0' && |h| > 3
  {
    DecimalBound(n);
    var h := [mark] + Decimal(n) + "\r\n";
    assert h[1..] == Decimal(n) + "\r\n";
    NumberOfDecimal(n, "\r\n");
    assert h[..|h| - 1] == [mark] + Decimal(n) + "\r";
    assert h[1] == Decimal(n)[0];
  }

  lemma {:induction false} PrintedArgsOk(args: seq<string>, rest: string)
    requires forall i :: 0 <= i < |args| ==> |args[i]| < 0x8000_0000_0000_0000
    ensures ArgsOk(PrintedArgs(args), rest) && Values(PrintedArgs(args)) == args && |PrintedArgs(args)| == |args|
    ensures ArgsText(PrintedArgs(args)) == PrintArgs(args)
  {
    hide Decimal, Number, IsLine;
    if args != [] {
      PrintedArgsOk(args[1..], rest);
      var a := PrintedArg(args[0]);
      HeaderIsLine('$', |args[0]|, a.value + a.end + (ArgsText(PrintedArgs(args[1..])) + rest));
      assert PrintedArgs(args)[1..] == PrintedArgs(args[1..]);
    }
  }

  lemma PrintedOk(c: Command, rest: string)
    requires Printable(c)
    ensures EntryOk(Printed(c), rest) && EntryText(Printed(c)) == Print(c) && Values(Printed(c).args) == c
  {
    hide Decimal, Number, IsLine, ArgsOk, ArgsText, PrintArgs, PrintedArgs, Values;
    PrintedArgsOk(c, rest);
    HeaderIsLine('*', |c|, PrintArgs(c) + rest);
  }

  /** A printed log is such a file, whatever follows it. */
  lemma {:induction false} PrintedFile(kind: Table, cs: seq<Command>, rest: string)
    requires Loadable(kind, cs)
    ensures var es := PrintedAll(cs);
      FileText(es) == Log(cs) && FileOk(es, rest) && Known(kind, es) && Cmds(es) == cs
    decreases |cs|
  {
    hide Printed, Print, EntryText, EntryOk, Values;
    if cs != [] {
      var c, more := cs[0], cs[1..];
      PrintedFile(kind, more, rest);
      PrintedOk(c, FileText(PrintedAll(more)) + rest);
      assert PrintedAll(cs)[1..] == PrintedAll(more);
      KnownFirst(kind, Printed(c), PrintedAll(more));
      assert Printed(c).Entry? by { PrintedIsEntry(c); }
    }
  }

  lemma PrintedIsEntry(c: Command)
    ensures Printed(c).Entry?
  {
  }

  /** Bytes at which the reader gives up fail the load of a printed log they follow. */
  lemma FailsAfter(kind: Table, cs: seq<Command>, tail: string)
    requires Loadable(kind, cs) && tail != ""
    requires match NextItem(tail)
             case FormatError => true
             case ReadError => true
             case Abort => true
             case Parsed(c, _) => kind(c).Unknown?
             case _ => false
    ensures Load(kind, Log(cs) + tail) == Failed
  {
    hide NextItem, Load, Log, FileText, FileOk, Known, Cmds, PrintedAll, Loadable;
    PrintedFile(kind, cs, tail);
    LoadRest(kind, PrintedAll(cs), tail);
  }

  /** After whole commands only another one or an annotation may begin. */
  lemma OtherByteFails(kind: Table, cs: seq<Command>, tail: string)
    requires Loadable(kind, cs) && tail != "" && tail[0] != '*' && tail[0] != '#'
    ensures Load(kind, Log(cs) + tail) == Failed
  {
    hide Load, Log, Loadable, Number, LineLength, ParseArgs;
    FailsAfter(kind, cs, tail);
  }

  /** A count line below one fails the load. */
  lemma LowCountFails(kind: Table, cs: seq<Command>, header: string, rest: string)
    requires Loadable(kind, cs) && IsLine(header, rest)
    requires |header| >= 2 && header[0] == '*' && header[1] != '\0' && Number(header[1..]) < 1
    ensures Load(kind, Log(cs) + (header + rest)) == Failed
  {
    hide Load, Log, Loadable, Number, LineLength, NextItem;
    OnlyLine(header + rest, header, rest);
    NoCommand(header, rest);
    FailsAfter(kind, cs, header + rest);
  }

  /** A missing argument fails the load if something else stands in its place. */
  lemma NoDollarFails(kind: Table, cs: seq<Command>, header: string, args: seq<Arg>, rest: string)
    requires Loadable(kind, cs) && IsLine(header, ArgsText(args) + rest)
    requires |header| >= 2 && header[0] == '*' && header[1] != '\0' && |args| < Number(header[1..])
    requires ArgsOk(args, rest) && rest != "" && rest[0] != '$'
    ensures Load(kind, Log(cs) + (header + (ArgsText(args) + rest))) == Failed
  {
    hide Load, Log, Loadable, Number, LineLength, NextItem, ArgsText, ArgsOk, IsLine;
    var tail := ArgsText(args) + rest;
    OnlyLine(header + tail, header, tail);
    CommandStep(header, tail, Number(header[1..]));
    ArgsTaken(args, rest, Number(header[1..]));
    FailsAfter(kind, cs, header + tail);
  }

  /** An unknown command fails the load; it is not cut off. */
  lemma UnknownFails(kind: Table, cs: seq<Command>, c: Command, rest: string)
    requires Loadable(kind, cs) && Printable(c) && kind(c).Unknown?
    ensures Load(kind, Log(cs) + (Print(c) + rest)) == Failed
  {
    hide Load, Log, Loadable, NextItem, Print;
    ParsePrinted(c, rest);
    PrintNonempty(c);
    FailsAfter(kind, cs, Print(c) + rest);
  }

  /** Annotations between commands change nothing: the file loads as the log of its commands alone does. */
  lemma AnnotationsChangeNothing(kind: Table, es: seq<Entry>)
    requires FileOk(es, "") && Known(kind, es) && Cmds(es) != [] && Loadable(kind, Cmds(es))
    ensures var with, without := Load(kind, FileText(es)), Load(kind, Log(Cmds(es)));
      && TraceOf(with) == TraceOf(without)
      && (with.Loaded? <==> without.Loaded?) && (with.Truncated? <==> without.Truncated?)
  {
    hide Load, FileOk, FileText, Known, Run, Log, Loadable, Cmds, MultiStart;
    SomeText(es);
    assert FileText(es) + "" == FileText(es);
    LoadExactly(kind, es, "");
    LoadWholeLog(kind, Cmds(es));
  }

  lemma SomeText(es: seq<Entry>)
    requires FileOk(es, "") && Cmds(es) != []
    ensures FileText(es) != ""
  {
    EntryTaken(es[0], FileText(es[1..]) + "");
  }
}
