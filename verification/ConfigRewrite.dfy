/** CONFIG REWRITE: a configuration file rewritten in place, line by line. */
module ConfigRewrite {
  import opened CString
  import SdsArgs

  const SIGNATURE := "# Generated by CONFIG REWRITE"

  // ----- the old file -----

  /** sdssplitlen(text, "\n") */
  function SplitLines(text: string): (lines: seq<string>)
    ensures lines != []
  {
    if text == "" then [""]
    else
      var rest := SplitLines(text[..|text| - 1]);
      var c := text[|text| - 1];
      if c == '\n' then rest + [""] else rest[..|rest| - 1] + [rest[|rest| - 1] + [c]]
  }

  /** The lines with newlines between them. */
  function Joined(parts: seq<string>): string
    requires parts != []
  {
    var n := |parts| - 1;
    if n == 0 then parts[0] else Joined(parts[..n]) + "\n" + parts[n]
  }

  ghost predicate NoNewlines(parts: seq<string>) { forall i :: 0 <= i < |parts| ==> NoNewline(parts[i]) }

  /** The parts with a byte more in the last of them. */
  function WithByte(parts: seq<string>, c: char): (r: seq<string>)
    requires parts != []
    ensures r != []
  {
    parts[|parts| - 1 := parts[|parts| - 1] + [c]]
  }

  lemma SplitNext(text: string, c: char)
    ensures SplitLines(text + [c]) == if c == '\n' then SplitLines(text) + [""] else WithByte(SplitLines(text), c)
  {
    assert (text + [c])[..|text|] == text;
    var rest := SplitLines(text);
    assert WithByte(rest, c) == rest[..|rest| - 1] + [rest[|rest| - 1] + [c]];
  }

  lemma JoinedNext(parts: seq<string>, c: char)
    requires parts != []
    ensures Joined(WithByte(parts, c)) == Joined(parts) + [c]
    ensures Joined(parts + [""]) == Joined(parts) + "\n"
  {
    var n := |parts| - 1;
    assert WithByte(parts, c)[..n] == parts[..n];
    assert (parts + [""])[..|parts|] == parts;
  }

  /** The lines of a text are the parts between its newlines. */
  lemma {:induction false} SplitLinesExactly(text: string)
    ensures Joined(SplitLines(text)) == text && NoNewlines(SplitLines(text))
  {
    if text != "" {
      var n := |text| - 1;
      var c, rest := text[n], SplitLines(text[..n]);
      SplitLinesExactly(text[..n]);
      hide SplitLines, Joined, NoNewlines, WithByte;
      assert text == text[..n] + [c];
      SplitNext(text[..n], c);
      JoinedNext(rest, c);
      NoNewlinesNext(rest, c);
    }
  }

  lemma NoNewlinesNext(parts: seq<string>, c: char)
    requires parts != [] && NoNewlines(parts)
    ensures NoNewlines(parts + [""]) && (c != '\n' ==> NoNewlines(WithByte(parts, c)))
  {
  }

  /** No other parts make that text. */
  lemma {:induction false} SplitLinesOnly(parts: seq<string>)
    requires parts != [] && NoNewlines(parts)
    ensures SplitLines(Joined(parts)) == parts
    decreases |parts|, |parts[|parts| - 1]|
  {
    var n := |parts| - 1;
    var last := parts[n];
    if last != "" {
      hide SplitLines, Joined;
      var k := |last| - 1;
      var short := parts[n := last[..k]];
      assert last == last[..k] + [last[k]];
      assert parts == WithByte(short, last[k]);
      SplitLinesOnly(short);
      JoinedNext(short, last[k]);
      SplitNext(Joined(short), last[k]);
    } else if n > 0 {
      hide SplitLines, Joined;
      assert parts == parts[..n] + [""];
      SplitLinesOnly(parts[..n]);
      JoinedNext(parts[..n], '\n');
      SplitNext(Joined(parts[..n]), '\n');
    }
  }

  /** A line as the state keeps it, and the option it sets, None for comments, blank lines and lines that are not
      understood. known gives the option a directive in lower case stands for, aliases resolved. */
  function Load(line: string, known: string -> Option<string>): (string, Option<string>) {
    var t := Trim(line);
    if t == "" || t[0] == '#' || t[0] == '\0' then (t, None)
    else
      var argv := SdsArgs.SplitArgs(t);
      if argv.None? || argv.value == [] || known(Lower(argv.value[0])).None? then ("# ??? " + t, None)
      else (t, known(Lower(argv.value[0])))
  }

  /** The options of the lines. */
  function OptionsOf(lines: seq<string>, known: string -> Option<string>): seq<Option<string>>
  {
    if lines == [] then [] else OptionsOf(lines[..|lines| - 1], known) + [Load(lines[|lines| - 1], known).1]
  }

  /** The positions of an option's lines. */
  function Positions(opts: seq<Option<string>>, o: string): seq<nat> {
    if opts == [] then []
    else Positions(opts[..|opts| - 1], o) + if opts[|opts| - 1] == Some(o) then [|opts| - 1] else []
  }

  lemma {:induction false} PositionsAre(opts: seq<Option<string>>, o: string)
    ensures forall i :: 0 <= i < |Positions(opts, o)| ==>
              Positions(opts, o)[i] < |opts| && opts[Positions(opts, o)[i]] == Some(o)
    ensures forall i, j :: 0 <= i < j < |Positions(opts, o)| ==> Positions(opts, o)[i] < Positions(opts, o)[j]
    ensures forall p :: 0 <= p < |opts| && opts[p] == Some(o) ==> p in Positions(opts, o)
  {
    if opts != [] {
      var n := |opts| - 1;
      PositionsAre(opts[..n], o);
      var init := Positions(opts[..n], o);
      assert forall p :: 0 <= p < n ==> opts[..n][p] == opts[p];
      assert forall p :: p in init ==> p in Positions(opts, o);
    }
  }

  // ----- what a sequence of rewrites emits -----

  /** One call: a line for an option, forced or only in place of an old one; or an option only marked. */
  datatype Emission = Write(option: string, line: string, force: bool) | Mark(option: string)

  /** The lines written for an option that had n lines in the old file. */
  function EmittedFor(es: seq<Emission>, o: string, n: nat): seq<string> {
    if es == [] then []
    else
      var sofar, e := EmittedFor(es[..|es| - 1], o, n), es[|es| - 1];
      if e.Write? && e.option == o && (e.force || |sofar| < n) then sofar + [e.line] else sofar
  }

  predicate Processed(es: seq<Emission>, o: string) { exists i :: 0 <= i < |es| && es[i].option == o }

  /** The lines that found no old line to replace, in order. */
  function AppendedBy(es: seq<Emission>, opts: seq<Option<string>>): seq<string> {
    if es == [] then []
    else
      var init, e := es[..|es| - 1], es[|es| - 1];
      var n := |Positions(opts, e.option)|;
      AppendedBy(init, opts) + if e.Write? && e.force && |EmittedFor(init, e.option, n)| >= n then [e.line] else []
  }

  // ----- the state -----

  function LinesOf(m: map<string, seq<nat>>, o: string): seq<nat> { if o in m then m[o] else [] }

  /** The lines of one option: the first ones replaced by what was emitted, the others as before. */
  ghost predicate Placed(base: seq<string>, opts: seq<Option<string>>, lines: seq<string>, left: seq<nat>, o: string,
                         emitted: seq<string>)
    requires |opts| == |base| <= |lines|
  {
    var ps := Positions(opts, o);
    var k := if |emitted| < |ps| then |emitted| else |ps|;
    && left == ps[k..]
    && forall i :: 0 <= i < |ps| ==> ps[i] < |base| && lines[ps[i]] == if i < k then emitted[i] else base[ps[i]]
  }

  lemma PlacedOther(base: seq<string>, opts: seq<Option<string>>, lines: seq<string>, left: seq<nat>, o: string,
                    emitted: seq<string>, p: nat, x: string)
    requires |opts| == |base| <= |lines| && p < |base| && opts[p] != Some(o)
             && Placed(base, opts, lines, left, o, emitted)
    ensures Placed(base, opts, lines[p := x], left, o, emitted)
  {
    hide Positions;
    PositionsAre(opts, o);
  }

  lemma PlacedLonger(base: seq<string>, opts: seq<Option<string>>, lines: seq<string>, left: seq<nat>, o: string,
                     emitted: seq<string>, more: seq<string>)
    requires |opts| == |base| <= |lines| && Placed(base, opts, lines, left, o, emitted)
    ensures Placed(base, opts, lines + more, left, o, emitted)
    ensures left == [] ==> forall x :: Placed(base, opts, lines + more, left, o, emitted + [x])
  {
    hide Positions;
  }

  /** Replacing the first line an option has left. */
  lemma PlacedNext(base: seq<string>, opts: seq<Option<string>>, lines: seq<string>, left: seq<nat>, o: string,
                   emitted: seq<string>, x: string)
    requires |opts| == |base| <= |lines| && Placed(base, opts, lines, left, o, emitted) && left != []
    ensures left[0] < |base| && opts[left[0]] == Some(o) && |emitted| < |Positions(opts, o)|
    ensures Placed(base, opts, lines[left[0] := x], left[1..], o, emitted + [x])
  {
    hide Positions;
    PositionsAre(opts, o);
    var ps := Positions(opts, o);
    assert left[0] == ps[|emitted|];
    assert left[1..] == ps[|emitted| + 1..];
  }

  lemma PlacedFull(base: seq<string>, opts: seq<Option<string>>, lines: seq<string>, left: seq<nat>, o: string,
                   emitted: seq<string>)
    requires |opts| == |base| <= |lines| && Placed(base, opts, lines, left, o, emitted)
    ensures left == [] <==> |emitted| >= |Positions(opts, o)|
  {
    hide Positions;
  }

  lemma EmittedNext(es: seq<Emission>, e: Emission, o: string, n: nat)
    ensures var sofar := EmittedFor(es, o, n);
            EmittedFor(es + [e], o, n) ==
            if e.Write? && e.option == o && (e.force || |sofar| < n) then sofar + [e.line] else sofar
  {
    assert (es + [e])[..|es|] == es;
  }

  lemma AppendedNext(es: seq<Emission>, e: Emission, opts: seq<Option<string>>)
    ensures var n := |Positions(opts, e.option)|;
            AppendedBy(es + [e], opts) ==
            AppendedBy(es, opts)
            + if e.Write? && e.force && |EmittedFor(es, e.option, n)| >= n then [e.line] else []
  {
    assert (es + [e])[..|es|] == es;
  }

  lemma ProcessedNext(es: seq<Emission>, e: Emission, o: string)
    ensures Processed(es + [e], o) <==> Processed(es, o) || e.option == o
  {
    assert (es + [e])[|es|] == e;
    assert forall i :: 0 <= i < |es| ==> (es + [e])[i] == es[i];
  }

  /** What the code keeps after the calls es, given the old lines with their options and whether they lacked
      the signature. */
  datatype Snapshot = Snapshot(base: seq<string>, opts: seq<Option<string>>, unsigned: bool, es: seq<Emission>,
                               lines: seq<string>, optionToLine: map<string, seq<nat>>, needsSignature: bool)

  ghost function Emitted(s: Snapshot, o: string): seq<string> { EmittedFor(s.es, o, |Positions(s.opts, o)|) }

  /** The lines after the old ones. */
  function Tail(unsigned: bool, appended: seq<string>): seq<string> {
    if unsigned && appended != [] then [SIGNATURE] + appended else appended
  }

  ghost predicate AllPlaced(s: Snapshot)
    requires |s.opts| == |s.base| <= |s.lines|
  {
    forall o :: Placed(s.base, s.opts, s.lines, LinesOf(s.optionToLine, o), o, Emitted(s, o))
  }

  ghost predicate Others(s: Snapshot)
    requires |s.opts| == |s.base| <= |s.lines|
  {
    forall p :: 0 <= p < |s.base| && s.opts[p].None? ==> s.lines[p] == s.base[p]
  }

  ghost predicate Good(s: Snapshot) {
    && |s.opts| == |s.base| <= |s.lines|
    && s.lines[|s.base|..] == Tail(s.unsigned, AppendedBy(s.es, s.opts))
    && s.needsSignature == (s.unsigned && AppendedBy(s.es, s.opts) == [])
    && AllPlaced(s) && Others(s)
    && (forall o :: o in s.optionToLine ==> s.optionToLine[o] != [])
  }

  /** The option has an old line left: it is replaced. */
  function Reused(s: Snapshot, o: string, line: string, force: bool): Snapshot
    requires o in s.optionToLine && s.optionToLine[o] != [] && s.optionToLine[o][0] < |s.lines|
  {
    var left := s.optionToLine[o];
    s.(lines := s.lines[left[0] := line], es := s.es + [Write(o, line, force)],
       optionToLine := if |left| == 1 then s.optionToLine - {o} else s.optionToLine[o := left[1..]])
  }

  /** It has none: the line is appended, after the signature if that is still missing. */
  function Extended(s: Snapshot, o: string, line: string): Snapshot {
    s.(lines := s.lines + (if s.needsSignature then [SIGNATURE] else []) + [line], needsSignature := false,
       es := s.es + [Write(o, line, true)])
  }

  lemma OthersEmitted(s: Snapshot, e: Emission)
    ensures forall o :: e.option != o || e.Mark? ==> EmittedFor(s.es + [e], o, |Positions(s.opts, o)|) == Emitted(s, o)
  {
    hide EmittedFor, Positions;
    forall o | e.option != o || e.Mark? ensures EmittedFor(s.es + [e], o, |Positions(s.opts, o)|) == Emitted(s, o) {
      EmittedNext(s.es, e, o, |Positions(s.opts, o)|);
    }
  }

  lemma ReusedPlaced(s: Snapshot, o: string, line: string, force: bool)
    requires Good(s) && o in s.optionToLine
    ensures s.optionToLine[o] != [] && s.optionToLine[o][0] < |s.base| && s.opts[s.optionToLine[o][0]] == Some(o)
    ensures |Emitted(s, o)| < |Positions(s.opts, o)|
    ensures AllPlaced(Reused(s, o, line, force))
  {
    hide Placed, EmittedFor, AppendedBy, Positions, Others;
    var left := s.optionToLine[o];
    assert LinesOf(s.optionToLine, o) == left && Placed(s.base, s.opts, s.lines, left, o, Emitted(s, o));
    PlacedNext(s.base, s.opts, s.lines, left, o, Emitted(s, o), line);
    var r := Reused(s, o, line, force);
    OthersEmitted(s, Write(o, line, force));
    EmittedNext(s.es, Write(o, line, force), o, |Positions(s.opts, o)|);
    forall x ensures Placed(r.base, r.opts, r.lines, LinesOf(r.optionToLine, x), x, Emitted(r, x)) {
      if x == o {
        assert LinesOf(r.optionToLine, o) == left[1..];
      } else {
        assert Placed(s.base, s.opts, s.lines, LinesOf(s.optionToLine, x), x, Emitted(s, x));
        PlacedOther(s.base, s.opts, s.lines, LinesOf(s.optionToLine, x), x, Emitted(s, x), left[0], line);
      }
    }
  }

  lemma ReusedGood(s: Snapshot, o: string, line: string, force: bool)
    requires Good(s) && o in s.optionToLine
    ensures s.optionToLine[o] != [] && s.optionToLine[o][0] < |s.base|
    ensures Good(Reused(s, o, line, force))
  {
    hide Placed, EmittedFor, AppendedBy, Positions, AllPlaced;
    ReusedPlaced(s, o, line, force);
    var r := Reused(s, o, line, force);
    AppendedNext(s.es, Write(o, line, force), s.opts);
    assert AppendedBy(s.es, s.opts) + [] == AppendedBy(s.es, s.opts);
    assert r.lines[|s.base|..] == s.lines[|s.base|..];
  }

  lemma NoneLeft(s: Snapshot, o: string)
    requires Good(s) && o !in s.optionToLine
    ensures |Emitted(s, o)| >= |Positions(s.opts, o)|
  {
    hide Placed, EmittedFor, AppendedBy, Positions, Others;
    assert Placed(s.base, s.opts, s.lines, LinesOf(s.optionToLine, o), o, Emitted(s, o));
    PlacedFull(s.base, s.opts, s.lines, [], o, Emitted(s, o));
  }

  lemma ExtendedPlaced(s: Snapshot, o: string, line: string)
    requires Good(s) && o !in s.optionToLine
    ensures AllPlaced(Extended(s, o, line))
  {
    hide Placed, EmittedFor, AppendedBy, Positions, Others;
    var r := Extended(s, o, line);
    var more := (if s.needsSignature then [SIGNATURE] else []) + [line];
    assert r.lines == s.lines + more;
    OthersEmitted(s, Write(o, line, true));
    EmittedNext(s.es, Write(o, line, true), o, |Positions(s.opts, o)|);
    forall x ensures Placed(r.base, r.opts, r.lines, LinesOf(r.optionToLine, x), x, Emitted(r, x)) {
      assert Placed(s.base, s.opts, s.lines, LinesOf(s.optionToLine, x), x, Emitted(s, x));
      PlacedLonger(s.base, s.opts, s.lines, LinesOf(s.optionToLine, x), x, Emitted(s, x), more);
    }
  }

  lemma ExtendedGood(s: Snapshot, o: string, line: string)
    requires Good(s) && o !in s.optionToLine
    ensures Good(Extended(s, o, line))
  {
    hide Placed, EmittedFor, AppendedBy, Positions, AllPlaced;
    ExtendedPlaced(s, o, line);
    NoneLeft(s, o);
    AppendedNext(s.es, Write(o, line, true), s.opts);
    var more := (if s.needsSignature then [SIGNATURE] else []) + [line];
    assert Extended(s, o, line).lines == s.lines + more;
    assert (s.lines + more)[|s.base|..] == s.lines[|s.base|..] + more;
  }

  /** Calls that write nothing. */
  lemma SkippedGood(s: Snapshot, e: Emission)
    requires Good(s) && (e.Write? ==> !e.force && e.option !in s.optionToLine)
    ensures Good(s.(es := s.es + [e]))
    ensures Emitted(s.(es := s.es + [e]), e.option) == Emitted(s, e.option)
  {
    hide Placed, EmittedFor, AppendedBy, Positions;
    var r := s.(es := s.es + [e]);
    if e.Write? { NoneLeft(s, e.option); }
    EmittedNext(s.es, e, e.option, |Positions(s.opts, e.option)|);
    OthersEmitted(s, e);
    AppendedNext(s.es, e, s.opts);
    assert AppendedBy(s.es, s.opts) + [] == AppendedBy(s.es, s.opts);
    forall x ensures Placed(r.base, r.opts, r.lines, LinesOf(r.optionToLine, x), x, Emitted(r, x)) {
      assert Placed(s.base, s.opts, s.lines, LinesOf(s.optionToLine, x), x, Emitted(s, x));
    }
  }

  class RewriteState {
    var lines: seq<string>
    var optionToLine: map<string, seq<nat>>
    var rewritten: set<string>
    var needsSignature: bool
    /** The old lines with their options, whether they lacked the signature, and the calls so far. */
    ghost var base: seq<string>
    ghost var opts: seq<Option<string>>
    ghost var unsigned: bool
    ghost var es: seq<Emission>

    ghost function Now(): Snapshot
      reads this
    {
      Snapshot(base, opts, unsigned, es, lines, optionToLine, needsSignature)
    }

    ghost predicate Marked()
      reads this
    {
      forall o :: o in rewritten <==> Processed(es, o)
    }

    ghost predicate Valid()
      reads this
    {
      Good(Now()) && Marked()
    }

    /** rewriteConfigMarkAsProcessed() */
    method MarkAsProcessed(option: string)
      requires Valid()
      modifies `rewritten, `es
      ensures Valid() && es == old(es) + [Mark(option)]
    {
      hide Good, Processed;
      ghost var e := Mark(option);
      SkippedGood(Now(), e);
      forall o ensures Processed(es + [e], o) <==> Processed(es, o) || option == o { ProcessedNext(es, e, o); }
      rewritten := rewritten + {option};
      es := es + [e];
    }

    /** rewriteConfigRewriteLine() */
    method RewriteLine(option: string, line: string, force: bool) returns (written: bool)
      requires Valid()
      modifies `lines, `optionToLine, `rewritten, `needsSignature, `es
      ensures Valid() && es == old(es) + [Write(option, line, force)]
      ensures written == (force || option in old(optionToLine))
    {
      hide Good, Processed;
      ghost var e := Write(option, line, force);
      ghost var before := Now();
      forall o ensures Processed(es + [e], o) <==> Processed(es, o) || option == o { ProcessedNext(es, e, o); }
      rewritten := rewritten + {option};
      if option !in optionToLine && !force {
        SkippedGood(before, e);
        es := es + [e];
        return false;
      }
      written := true;
      if option in optionToLine {
        ReuseLine(option, line, force);
      } else {
        AppendLine(option, line);
      }
    }

    /** The first line the option has left is replaced. */
    method ReuseLine(option: string, line: string, force: bool)
      requires Good(Now()) && option in optionToLine
      modifies `lines, `optionToLine, `es
      ensures Good(Now()) && es == old(es) + [Write(option, line, force)]
    {
      hide Good;
      ghost var before := Now();
      ReusedGood(before, option, line, force);
      LongEnough(before);
      var left := optionToLine[option];
      lines := lines[left[0] := line];
      optionToLine := if |left| == 1 then optionToLine - {option} else optionToLine[option := left[1..]];
      es := es + [Write(option, line, force)];
      assert Now() == Reused(before, option, line, force);
    }

    /** The line goes to the end, behind the signature. */
    method AppendLine(option: string, line: string)
      requires Good(Now()) && option !in optionToLine
      modifies `lines, `needsSignature, `es
      ensures Good(Now()) && es == old(es) + [Write(option, line, true)]
    {
      hide Good;
      ghost var before := Now();
      ExtendedGood(before, option, line);
      if needsSignature {
        lines := lines + [SIGNATURE];
        needsSignature := false;
      }
      lines := lines + [line];
      es := es + [Write(option, line, true)];
      assert Now() == Extended(before, option, line);
    }

    /** rewriteConfigReadOldFile() on the content of the file; a missing or empty file leaves the state empty. */
    constructor (text: string, known: string -> Option<string>)
      ensures Valid() && es == []
      ensures base == OldLines(text, known) && opts == OldOptions(text, known)
      ensures unsigned == (SIGNATURE !in base)
      ensures lines == base && |lines| == |Parts(text)| && LinesStay(text, known, [], lines)
    {
      lines, optionToLine, rewritten, needsSignature := [], map[], {}, true;
      base, opts, unsigned, es := [], [], true, [];
      new;
      hide Reading, Good, Parts, LoadedLines, OptionsOf, LinesStay;
      var parts := Parts(text);
      var i := 0;
      ReadingStart(Now(), parts, known);
      while i < |parts|
        invariant 0 <= i <= |parts| && Reading(Now(), parts[..i], known) && rewritten == {} && es == []
      {
        assert parts[..i + 1] == parts[..i] + [parts[i]];
        ReadLine(parts[i], parts[..i], known);
        i := i + 1;
      }
      assert parts[..|parts|] == parts;
      ghost var read := Now();
      unsigned := needsSignature;
      ReadingSame(read, Now(), parts, known);
      ReadGood(Now(), parts, known);
      ReadStays(Now(), text, known);
    }

    /** One line of the old file. */
    method ReadLine(part: string, ghost before: seq<string>, known: string -> Option<string>)
      requires Reading(Now(), before, known)
      modifies `lines, `optionToLine, `needsSignature, `base, `opts
      ensures Reading(Now(), before + [part], known)
    {
      hide Reading, Load;
      ghost var was := Now();
      var (line, option) := Load(part, known);
      var linenum := |lines|;
      if option.None? {
        if needsSignature && line == SIGNATURE { needsSignature := false; }
      } else {
        optionToLine := optionToLine[option.value := LinesOf(optionToLine, option.value) + [linenum]];
      }
      lines := lines + [line];
      base := base + [line];
      opts := opts + [option];
      ReadingNext(was, before, part, known);
    }

    /** The calls one after the other. */
    method RewriteAll(calls: seq<Emission>)
      requires Valid()
      modifies `lines, `optionToLine, `rewritten, `needsSignature, `es
      ensures Valid() && es == old(es) + calls
    {
      hide Good, Processed;
      var i := 0;
      while i < |calls|
        invariant 0 <= i <= |calls| && Valid() && es == old(es) + calls[..i]
      {
        assert calls[..i + 1] == calls[..i] + [calls[i]];
        if calls[i].Write? {
          var written := RewriteLine(calls[i].option, calls[i].line, calls[i].force);
        } else {
          MarkAsProcessed(calls[i].option);
        }
        i := i + 1;
      }
      assert calls[..|calls|] == calls;
    }

    /** The inner loop of rewriteConfigRemoveOrphaned(). */
    method Blank(ps: seq<nat>)
      requires forall i :: 0 <= i < |ps| ==> ps[i] < |lines|
      modifies `lines
      ensures |lines| == |old(lines)|
      ensures forall p :: 0 <= p < |lines| ==> lines[p] == if p in ps then "" else old(lines)[p]
    {
      var l := ps;
      while l != []
        invariant |lines| == |old(lines)| && |l| <= |ps| && l == ps[|ps| - |l|..]
        invariant forall p :: 0 <= p < |lines| ==> lines[p] == if p in ps[..|ps| - |l|] then "" else old(lines)[p]
      {
        ghost var k := |ps| - |l|;
        assert l[0] == ps[k] && ps[..k + 1] == ps[..k] + [ps[k]];
        lines := lines[l[0] := ""];
        l := l[1..];
      }
      assert ps[..|ps|] == ps;
    }

    /** rewriteConfigRemoveOrphaned() */
    method RemoveOrphaned()
      requires Valid()
      modifies `lines
      ensures Done(base, opts, unsigned, es, lines)
    {
      hide Good, Processed;
      LongEnough(Now());
      ghost var before := Now();
      var todo := optionToLine.Keys;
      ghost var gone: set<nat> := {};
      while todo != {}
        invariant todo <= optionToLine.Keys && |lines| == |before.lines|
        invariant forall p :: p in gone <==> Orphan(optionToLine, rewritten, optionToLine.Keys - todo, p)
        invariant forall p :: 0 <= p < |lines| ==> lines[p] == if p in gone then "" else before.lines[p]
        decreases |todo|
      {
        var option :| option in todo;
        OrphanNext(optionToLine, rewritten, todo, option);
        if option in rewritten {
          PositionsFit(before, option);
          Blank(optionToLine[option]);
          gone := gone + set p | p in optionToLine[option];
        }
        todo := todo - {option};
      }
      assert optionToLine.Keys - todo == optionToLine.Keys;
      AllDone(before, rewritten, lines);
    }
  }

  // ----- reading -----

  function LoadedLines(parts: seq<string>, known: string -> Option<string>): seq<string>
  {
    if parts == [] then [] else LoadedLines(parts[..|parts| - 1], known) + [Load(parts[|parts| - 1], known).0]
  }

  /** Both lists follow the file, line by line. */
  lemma {:induction false} LoadedAre(parts: seq<string>, known: string -> Option<string>)
    ensures |LoadedLines(parts, known)| == |OptionsOf(parts, known)| == |parts|
    ensures forall p :: 0 <= p < |parts| ==> LoadedLines(parts, known)[p] == Load(parts[p], known).0
    ensures forall p :: 0 <= p < |parts| ==> OptionsOf(parts, known)[p] == Load(parts[p], known).1
  {
    hide Load;
    if parts != [] { LoadedAre(parts[..|parts| - 1], known); }
  }

  function Parts(text: string): seq<string> { if text == "" then [] else SplitLines(text) }

  /** The old file as the state keeps it. */
  function OldLines(text: string, known: string -> Option<string>): seq<string> { LoadedLines(Parts(text), known) }

  function OldOptions(text: string, known: string -> Option<string>): seq<Option<string>> {
    OptionsOf(Parts(text), known)
  }

  lemma PositionsNext(opts: seq<Option<string>>, option: Option<string>, o: string)
    ensures Positions(opts + [option], o) == Positions(opts, o) + if option == Some(o) then [|opts|] else []
  {
    assert (opts + [option])[..|opts|] == opts;
  }

  /** Only comments and blank lines can be the signature. */
  lemma OnlyComments(part: string, known: string -> Option<string>)
    ensures Load(part, known).1.Some? ==> Load(part, known).0 != SIGNATURE
  {}

  /** The state after some lines of the old file. */
  ghost predicate Reading(s: Snapshot, parts: seq<string>, known: string -> Option<string>) {
    && s.lines == s.base == LoadedLines(parts, known) && s.opts == OptionsOf(parts, known)
    && (forall o :: LinesOf(s.optionToLine, o) == Positions(s.opts, o))
    && (forall o :: o in s.optionToLine ==> s.optionToLine[o] != [])
    && s.needsSignature == (SIGNATURE !in s.lines)
  }

  lemma ReadingStart(s: Snapshot, parts: seq<string>, known: string -> Option<string>)
    requires s.lines == [] && s.base == [] && s.opts == [] && s.optionToLine == map[] && s.needsSignature
    ensures Reading(s, parts[..0], known)
  {}

  lemma ReadingNext(s: Snapshot, parts: seq<string>, part: string, known: string -> Option<string>)
    requires Reading(s, parts, known)
    ensures var (line, option) := Load(part, known);
            var r := s.(lines := s.lines + [line], base := s.base + [line], opts := s.opts + [option],
                        needsSignature := s.needsSignature && (option.Some? || line != SIGNATURE),
                        optionToLine := if option.None? then s.optionToLine
                                        else s.optionToLine[option.value :=
                                          LinesOf(s.optionToLine, option.value) + [|s.lines|]]);
            Reading(r, parts + [part], known)
  {
    hide Load, Positions;
    assert (parts + [part])[..|parts|] == parts;
    LoadedAre(parts, known);
    var (line, option) := Load(part, known);
    OnlyComments(part, known);
    forall o
      ensures Positions(s.opts + [option], o) == Positions(s.opts, o) + if option == Some(o) then [|s.lines|] else []
    {
      PositionsNext(s.opts, option, o);
    }
  }

  lemma ReadingSame(s: Snapshot, r: Snapshot, parts: seq<string>, known: string -> Option<string>)
    requires Reading(s, parts, known) && r == s.(unsigned := r.unsigned)
    ensures Reading(r, parts, known)
  {}

  lemma ReadGood(s: Snapshot, parts: seq<string>, known: string -> Option<string>)
    requires Reading(s, parts, known) && s.es == [] && s.needsSignature == s.unsigned
    ensures Good(s) && s.base == LoadedLines(parts, known) && s.opts == OptionsOf(parts, known)
    ensures s.unsigned == (SIGNATURE !in s.base)
  {
    hide Positions;
    LoadedAre(parts, known);
    forall o ensures Placed(s.base, s.opts, s.lines, LinesOf(s.optionToLine, o), o, Emitted(s, o)) {
      PositionsAre(s.opts, o);
      assert Emitted(s, o) == [];
      assert Positions(s.opts, o)[0..] == Positions(s.opts, o);
    }
  }

  lemma ReadStays(s: Snapshot, text: string, known: string -> Option<string>)
    requires Reading(s, Parts(text), known)
    ensures s.lines == s.base && |s.lines| == |Parts(text)| && LinesStay(text, known, [], s.lines)
  {
    hide Load, LineStays, Positions, AreLines;
    var parts := Parts(text);
    PartsAreLines(text);
    LoadedAre(parts, known);
    forall p | 0 <= p < |parts| ensures LineStays(parts[p], known, [], s.lines[p]) {
      LoadStays(parts[p], known, [], s.lines[p]);
    }
  }

  // ----- orphans -----

  ghost predicate Orphan(m: map<string, seq<nat>>, rewritten: set<string>, names: set<string>, p: nat) {
    exists o :: o in names && o in rewritten && o in m && p in m[o]
  }

  lemma OrphanNext(m: map<string, seq<nat>>, rewritten: set<string>, todo: set<string>, option: string)
    requires option in todo && todo <= m.Keys
    ensures forall p: nat :: Orphan(m, rewritten, m.Keys - (todo - {option}), p) <==>
                             Orphan(m, rewritten, m.Keys - todo, p) || (option in rewritten && p in m[option])
  {
    assert option in m.Keys - (todo - {option});
  }

  lemma PositionsFit(s: Snapshot, o: string)
    requires Good(s) && o in s.optionToLine
    ensures forall i :: 0 <= i < |s.optionToLine[o]| ==> s.optionToLine[o][i] < |s.base| <= |s.lines|
  {
    hide Positions, EmittedFor, AppendedBy;
    assert Placed(s.base, s.opts, s.lines, LinesOf(s.optionToLine, o), o, Emitted(s, o));
  }

  /** The rewritten file: what the calls for an option emitted stands in the option's lines, in order; its other
      lines are blank; every other line is as it was; what found no place is at the end. */
  ghost predicate Done(base: seq<string>, opts: seq<Option<string>>, unsigned: bool, es: seq<Emission>,
                       lines: seq<string>) {
    && |opts| == |base| <= |lines|
    && lines[|base|..] == Tail(unsigned, AppendedBy(es, opts))
    && (forall o :: Processed(es, o) ==> OptionDone(opts, es, lines, o))
    && (forall p :: 0 <= p < |base| && (opts[p].None? || !Processed(es, opts[p].value)) ==> lines[p] == base[p])
  }

  ghost predicate OptionDone(opts: seq<Option<string>>, es: seq<Emission>, lines: seq<string>, o: string) {
    var ps := Positions(opts, o);
    var emitted := EmittedFor(es, o, |ps|);
    forall i :: 0 <= i < |ps| ==> ps[i] < |lines| && lines[ps[i]] == if i < |emitted| then emitted[i] else ""
  }

  lemma {:induction false} NothingEmitted(es: seq<Emission>, o: string, n: nat)
    requires !Processed(es, o)
    ensures EmittedFor(es, o, n) == []
  {
    if es != [] {
      assert es[|es| - 1].option != o;
      NothingEmitted(es[..|es| - 1], o, n);
    }
  }

  lemma OptionIsDone(s: Snapshot, rewritten: set<string>, lines: seq<string>, o: string)
    requires Good(s) && |lines| == |s.lines| && o in rewritten
    requires forall p :: 0 <= p < |lines| ==>
               lines[p] == if Orphan(s.optionToLine, rewritten, s.optionToLine.Keys, p) then "" else s.lines[p]
    ensures OptionDone(s.opts, s.es, lines, o)
  {
    hide Positions, EmittedFor, AppendedBy, Others;
    var ps, emitted, left := Positions(s.opts, o), Emitted(s, o), LinesOf(s.optionToLine, o);
    PositionsAre(s.opts, o);
    assert Placed(s.base, s.opts, s.lines, left, o, emitted);
    var k := if |emitted| < |ps| then |emitted| else |ps|;
    forall i | 0 <= i < |ps| ensures lines[ps[i]] == if i < |emitted| then emitted[i] else "" {
      OnlyOwnOrphans(s, rewritten, ps[i], o);
      assert ps[i] in ps[k..] <==> i >= k by {
        if i >= k { assert ps[k..][i - k] == ps[i]; }
      }
    }
  }

  lemma OnlyOwnOrphans(s: Snapshot, rewritten: set<string>, p: nat, o: string)
    requires Good(s) && p < |s.base| && s.opts[p] == Some(o) && o in rewritten
    ensures Orphan(s.optionToLine, rewritten, s.optionToLine.Keys, p) <==> p in LinesOf(s.optionToLine, o)
  {
    hide Positions, EmittedFor, AppendedBy, Others;
    forall x | x in s.optionToLine && p in s.optionToLine[x] ensures x == o { LeftIsOwn(s, x, p); }
  }

  lemma LeftIsOwn(s: Snapshot, x: string, p: nat)
    requires Good(s) && x in s.optionToLine && p in s.optionToLine[x]
    ensures p < |s.base| && s.opts[p] == Some(x)
  {
    hide Positions, EmittedFor, AppendedBy, Others;
    PositionsAre(s.opts, x);
    assert Placed(s.base, s.opts, s.lines, LinesOf(s.optionToLine, x), x, Emitted(s, x));
    var ps, left := Positions(s.opts, x), s.optionToLine[x];
    var i :| 0 <= i < |left| && left[i] == p;
    assert left[i] == ps[|ps| - |left| + i];
  }

  lemma OthersDone(s: Snapshot, rewritten: set<string>, lines: seq<string>, p: nat)
    requires Good(s) && |lines| == |s.lines| && p < |s.base|
    requires forall q :: 0 <= q < |lines| ==>
               lines[q] == if Orphan(s.optionToLine, rewritten, s.optionToLine.Keys, q) then "" else s.lines[q]
    requires forall o :: o in rewritten <==> Processed(s.es, o)
    requires s.opts[p].None? || !Processed(s.es, s.opts[p].value)
    ensures lines[p] == s.base[p]
  {
    hide Positions, EmittedFor, AppendedBy, Processed;
    forall x | x in s.optionToLine && p in s.optionToLine[x] ensures s.opts[p] == Some(x) { LeftIsOwn(s, x, p); }
    if s.opts[p].Some? {
      var o := s.opts[p].value;
      NothingEmitted(s.es, o, |Positions(s.opts, o)|);
      PositionsAre(s.opts, o);
      assert Placed(s.base, s.opts, s.lines, LinesOf(s.optionToLine, o), o, []);
      var i :| 0 <= i < |Positions(s.opts, o)| && Positions(s.opts, o)[i] == p;
    }
  }

  lemma AllDone(s: Snapshot, rewritten: set<string>, lines: seq<string>)
    requires Good(s) && |lines| == |s.lines|
    requires forall p :: 0 <= p < |lines| ==>
               lines[p] == if Orphan(s.optionToLine, rewritten, s.optionToLine.Keys, p) then "" else s.lines[p]
    requires forall o :: o in rewritten <==> Processed(s.es, o)
    ensures Done(s.base, s.opts, s.unsigned, s.es, lines)
  {
    hide Positions, EmittedFor, AppendedBy, Processed, OptionDone, AllPlaced, Others;
    forall o | Processed(s.es, o) ensures OptionDone(s.opts, s.es, lines, o) { OptionIsDone(s, rewritten, lines, o); }
    forall p | 0 <= p < |s.base| && (s.opts[p].None? || !Processed(s.es, s.opts[p].value))
      ensures lines[p] == s.base[p]
    {
      OthersDone(s, rewritten, lines, p);
    }
    forall p | |s.base| <= p < |lines| ensures lines[p] == s.lines[p] { OldOrphans(s, rewritten, p); }
    assert lines[|s.base|..] == s.lines[|s.base|..];
  }

  lemma OldOrphans(s: Snapshot, rewritten: set<string>, p: nat)
    requires Good(s) && p >= |s.base|
    ensures !Orphan(s.optionToLine, rewritten, s.optionToLine.Keys, p)
  {
    hide Good;
    forall x | x in s.optionToLine && p in s.optionToLine[x] ensures false { LeftIsOwn(s, x, p); }
  }

  lemma LongEnough(s: Snapshot)
    requires Good(s)
    ensures |s.base| <= |s.lines|
  {}

  // ----- the new file -----

  /** Every cluster of blank lines is one blank line. */
  function Collapse(lines: seq<string>): seq<string> {
    if lines == [] then []
    else
      var n := |lines| - 1;
      Collapse(lines[..n]) + if lines[n] == "" && n > 0 && lines[n - 1] == "" then [] else [lines[n]]
  }

  function Glue(lines: seq<string>): string {
    if lines == [] then "" else Glue(lines[..|lines| - 1]) + lines[|lines| - 1] + "\n"
  }

  function NonBlank(lines: seq<string>): seq<string> {
    if lines == [] then []
    else
      NonBlank(lines[..|lines| - 1])
      + if lines[|lines| - 1] == "" then [] else [lines[|lines| - 1]]
  }

  lemma NonBlankAppend(lines: seq<string>, x: string)
    ensures NonBlank(lines + [x]) == NonBlank(lines) + if x == "" then [] else [x]
  {
    assert (lines + [x])[..|lines|] == lines;
  }

  /** Collapsing loses no text and leaves no two blank lines together. */
  lemma {:induction false} CollapseKeeps(lines: seq<string>)
    ensures NonBlank(Collapse(lines)) == NonBlank(lines)
    ensures forall i :: 0 < i < |Collapse(lines)| ==> Collapse(lines)[i] != "" || Collapse(lines)[i - 1] != ""
    ensures lines != [] ==> Collapse(lines) != [] && Collapse(lines)[|Collapse(lines)| - 1] == lines[|lines| - 1]
  {
    if lines != [] {
      var n := |lines| - 1;
      CollapseKeeps(lines[..n]);
      NonBlankAppend(Collapse(lines[..n]), lines[n]);
      assert n > 0 ==> lines[..n][n - 1] == lines[n - 1];
      assert Collapse(lines[..n]) + [] == Collapse(lines[..n]) && NonBlank(lines[..n]) + [] == NonBlank(lines[..n]);
    }
  }

  lemma CollapseNext(lines: seq<string>, j: nat)
    requires j < |lines|
    ensures Collapse(lines[..j + 1]) ==
            if lines[j] == "" && j > 0 && lines[j - 1] == "" then Collapse(lines[..j])
            else Collapse(lines[..j]) + [lines[j]]
  {
    assert lines[..j + 1][..j] == lines[..j];
    assert Collapse(lines[..j]) + [] == Collapse(lines[..j]);
  }

  lemma GlueNext(lines: seq<string>, x: string)
    ensures Glue(lines + [x]) == Glue(lines) + x + "\n"
  {
    assert (lines + [x])[..|lines|] == lines;
  }

  /** rewriteConfigGetContentFromState() */
  method GetContent(lines: seq<string>) returns (content: string)
    ensures content == Glue(Collapse(lines))
  {
    hide Collapse, Glue;
    content := "";
    var wasEmpty := false;
    var j := 0;
    GlueNothing(lines);
    while j < |lines|
      invariant 0 <= j <= |lines| && content == Glue(Collapse(lines[..j]))
      invariant wasEmpty == (j > 0 && lines[j - 1] == "")
    {
      CollapseNext(lines, j);
      if lines[j] != "" || !wasEmpty {
        GlueNext(Collapse(lines[..j]), lines[j]);
        content := content + lines[j] + "\n";
      }
      wasEmpty := lines[j] == "";
      j := j + 1;
    }
    assert lines[..|lines|] == lines;
  }

  lemma GlueNothing(lines: seq<string>)
    ensures Glue(Collapse(lines[..0])) == ""
  {}

  /** The lines of the new content are the collapsed lines. */
  lemma GlueSplits(lines: seq<string>)
    requires NoNewlines(lines)
    ensures SplitLines(Glue(lines)) == lines + [""]
  {
    GlueIsJoined(lines);
    SplitLinesOnly(lines + [""]);
  }

  lemma {:induction false} GlueIsJoined(lines: seq<string>)
    ensures Glue(lines) == Joined(lines + [""])
  {
    assert (lines + [""])[..|lines|] == lines;
    if lines != [] {
      var n := |lines| - 1;
      GlueIsJoined(lines[..n]);
      assert lines == lines[..n] + [lines[n]];
      JoinedLast(lines[..n], lines[n]);
    }
  }

  lemma JoinedLast(lines: seq<string>, x: string)
    ensures Joined(lines + [x]) == Joined(lines + [""]) + x
  {
    assert (lines + [x])[..|lines|] == lines && (lines + [""])[..|lines|] == lines;
  }

  function Blanks(k: nat): seq<string> { seq(k, _ => "") }

  /** Between two lines with text a gap stays a gap, of one blank line. */
  lemma {:induction false} CollapseBetween(a: seq<string>, k: nat, b: seq<string>)
    requires a != [] && a[|a| - 1] != "" && b != [] && b[0] != ""
    ensures Collapse(a + Blanks(k) + b) == Collapse(a) + (if k > 0 then [""] else []) + Collapse(b)
    decreases |b|
  {
    hide Blanks, Collapse;
    var n := |b| - 1;
    var front := a + Blanks(k);
    assert front + b == front + b[..n] + [b[n]] && b == b[..n] + [b[n]];
    CollapseAppend(front + b[..n], b[n]);
    CollapseAppend(b[..n], b[n]);
    if n == 0 {
      assert front + b[..0] == front && b[..0] == [];
      CollapseGap(a, k);
      CollapseNothing();
    } else {
      CollapseBetween(a, k, b[..n]);
    }
  }

  lemma CollapseNothing()
    ensures Collapse([]) == []
  {
  }

  /** A line is dropped exactly if it is blank and so is the one before. */
  lemma CollapseAppend(lines: seq<string>, x: string)
    ensures Collapse(lines + [x]) ==
            Collapse(lines) + if x == "" && lines != [] && lines[|lines| - 1] == "" then [] else [x]
  {
    assert (lines + [x])[..|lines|] == lines;
  }

  lemma {:induction false} CollapseGap(a: seq<string>, k: nat)
    requires a != [] && a[|a| - 1] != ""
    ensures Collapse(a + Blanks(k)) == Collapse(a) + if k > 0 then [""] else []
  {
    hide Collapse;
    if k == 0 {
      assert a + Blanks(0) == a;
    } else {
      var front := a + Blanks(k - 1);
      assert a + Blanks(k) == front + [""];
      assert front[|front| - 1] == if k == 1 then a[|a| - 1] else "";
      CollapseGap(a, k - 1);
      CollapseAppend(front, "");
    }
  }

  // ----- the old lines, in the words of the file -----

  /** The first word of a line, None if the line does not split into words. */
  function Directive(t: string): Option<string> {
    var argv := SdsArgs.SplitArgs(t);
    if argv.None? || argv.value == [] then None else Some(argv.value[0])
  }

  /** What becomes of the text of an old line: comments and blank lines stay, a line that is not understood stays
      behind a mark, and so does, unmarked, the line of an option nobody rewrites. */
  ghost predicate StaysAs(t: string, known: string -> Option<string>, es: seq<Emission>, line: string) {
    if t == "" || t[0] == '#' || t[0] == '\0' then line == t
    else
      match Directive(t)
      case None => line == "# ??? " + t
      case Some(name) =>
        match known(Lower(name))
        case None => line == "# ??? " + t
        case Some(o) => Processed(es, o) || line == t
  }

  /** The text of a line is what is left without the blanks around it. */
  ghost predicate LineStays(part: string, known: string -> Option<string>, es: seq<Emission>, line: string) {
    forall i: nat, j: nat :: Trims(part, i, j) ==> StaysAs(part[i..j], known, es, line)
  }

  /** The parts are the lines of the text: all of it, cut at its newlines; an empty file has none. */
  ghost predicate AreLines(text: string, parts: seq<string>) {
    if text == "" then parts == [] else parts != [] && Joined(parts) == text && NoNewlines(parts)
  }

  /** So it is with every line of the text, at its position. */
  ghost predicate LinesStay(text: string, known: string -> Option<string>, es: seq<Emission>, lines: seq<string>) {
    exists parts :: AreLines(text, parts) && AllStay(parts, known, es, lines)
  }

  ghost predicate AllStay(parts: seq<string>, known: string -> Option<string>, es: seq<Emission>, lines: seq<string>) {
    |parts| <= |lines| && forall p :: 0 <= p < |parts| ==> LineStays(parts[p], known, es, lines[p])
  }

  lemma PartsAreLines(text: string)
    ensures AreLines(text, Parts(text))
  {
    hide SplitLines, Joined;
    SplitLinesExactly(text);
  }

  /** There is one way to cut a text into lines. */
  lemma LinesOnly(text: string, parts: seq<string>)
    requires AreLines(text, parts)
    ensures parts == Parts(text)
  {
    hide SplitLines, Joined;
    if text != "" { SplitLinesOnly(parts); }
  }

  /** The option the text of a line sets. */
  function OptionIn(t: string, known: string -> Option<string>): Option<string> {
    if t == "" || t[0] == '#' || t[0] == '\0' || Directive(t).None? then None else known(Lower(Directive(t).value))
  }

  ghost predicate SetBy(part: string, known: string -> Option<string>, option: Option<string>) {
    forall i: nat, j: nat :: Trims(part, i, j) ==> option == OptionIn(part[i..j], known)
  }

  ghost predicate AllSetBy(parts: seq<string>, known: string -> Option<string>, opts: seq<Option<string>>) {
    |opts| == |parts| && forall p :: 0 <= p < |parts| ==> SetBy(parts[p], known, opts[p])
  }

  /** What the calls for an option emitted stands, in order, in the lines of the text that set it; those left over are
      blank. */
  ghost predicate OptionsStand(text: string, known: string -> Option<string>, es: seq<Emission>, lines: seq<string>) {
    exists parts, opts :: AreLines(text, parts) && AllSetBy(parts, known, opts) && AllDoneIn(opts, es, lines)
  }

  ghost predicate AllDoneIn(opts: seq<Option<string>>, es: seq<Emission>, lines: seq<string>) {
    forall o :: Processed(es, o) ==> OptionDone(opts, es, lines, o)
  }

  lemma LoadSets(part: string, known: string -> Option<string>)
    ensures SetBy(part, known, Load(part, known).1)
  {
    hide Trims, Trim;
    TrimExactly(part);
  }

  lemma DoneStands(text: string, known: string -> Option<string>, unsigned: bool, es: seq<Emission>,
                   lines: seq<string>)
    requires Done(OldLines(text, known), OldOptions(text, known), unsigned, es, lines)
    ensures OptionsStand(text, known, es, lines)
  {
    hide Processed, Load, SetBy, Tail, OptionDone, AppendedBy, AreLines;
    var parts, opts := Parts(text), OldOptions(text, known);
    PartsAreLines(text);
    LoadedAre(parts, known);
    forall p | 0 <= p < |parts| ensures SetBy(parts[p], known, opts[p]) { LoadSets(parts[p], known); }
    assert AllDoneIn(opts, es, lines);
  }

  lemma LoadStays(part: string, known: string -> Option<string>, es: seq<Emission>, line: string)
    requires var (loaded, option) := Load(part, known);
      (option.None? || !Processed(es, option.value)) ==> line == loaded
    ensures LineStays(part, known, es, line)
  {
    hide Processed, Trims, Trim;
    TrimExactly(part);
  }

  lemma DoneStays(text: string, known: string -> Option<string>, unsigned: bool, es: seq<Emission>, lines: seq<string>)
    requires Done(OldLines(text, known), OldOptions(text, known), unsigned, es, lines)
    ensures LinesStay(text, known, es, lines)
  {
    hide Processed, Load, LineStays, Tail, OptionDone, AppendedBy, AreLines;
    var parts := Parts(text);
    PartsAreLines(text);
    LoadedAre(parts, known);
    forall p | 0 <= p < |parts| ensures LineStays(parts[p], known, es, lines[p]) {
      LoadStays(parts[p], known, es, lines[p]);
    }
  }

  /** The old file was not rewritten before. */
  predicate Unsigned(text: string, known: string -> Option<string>) { SIGNATURE !in OldLines(text, known) }

  /** The whole rewrite of a file by a sequence of calls. */
  method Rewrite(text: string, known: string -> Option<string>, es: seq<Emission>)
    returns (lines: seq<string>, content: string)
    ensures Done(OldLines(text, known), OldOptions(text, known), Unsigned(text, known), es, lines)
    ensures LinesStay(text, known, es, lines) && OptionsStand(text, known, es, lines)
    ensures content == Glue(Collapse(lines))
  {
    hide Done, Good, OldLines, OldOptions, Processed, LinesStay, OptionsStand;
    var state := new RewriteState(text, known);
    state.RewriteAll(es);
    assert [] + es == es;
    state.RemoveOrphaned();
    lines := state.lines;
    DoneStays(text, known, Unsigned(text, known), es, lines);
    DoneStands(text, known, Unsigned(text, known), es, lines);
    content := GetContent(lines);
  }
}
