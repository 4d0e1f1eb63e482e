/** The manifest file: getAofManifestAsString() and aofLoadManifestFromFile(). */
module AofManifestText {
  import opened CString
  import opened SdsArgs
  import opened AofManifest

  // ----- printing -----

  function TypeChar(t: FileType): char {
    match t
    case Base => 'b'
    case Hist => 'h'
    case Incr => 'i'
  }

  /** aofInfoFormat() */
  function FormatInfo(ai: Info): string {
    "file " + Quoted(ai.name) + " seq " + SignedDecimal(ai.fileSeq) + " type " + [TypeChar(ai.fileType)]
    + OffsetText(ai) + "\n"
  }

  function OffsetText(ai: Info): string {
    if ai.startOffset == -1 then ""
    else
      " startoffset " + SignedDecimal(ai.startOffset)
      + (if ai.endOffset == -1 then "" else " endoffset " + SignedDecimal(ai.endOffset))
  }

  function FormatAll(infos: seq<Info>): string {
    if infos == [] then "" else FormatInfo(infos[0]) + FormatAll(infos[1..])
  }

  function Listed(am: Manifest): seq<Info> {
    (if am.base.Some? then [am.base.value] else []) + am.hist + am.incr
  }

  /** getAofManifestAsString() */
  function Format(am: Manifest): string {
    (if am.base.Some? then FormatInfo(am.base.value) else "") + FormatAll(am.hist) + FormatAll(am.incr)
  }

  // ----- loading -----

  /** An entry while its line is being read; a type of '\0' is still unset. */
  datatype Partial = Partial(name: Option<string>, fileSeq: int, typeChar: char, startOffset: int, endOffset: int)

  const UNSET := Partial(None, 0, '\0', -1, -1)

  predicate IsBaseName(path: string) { '/' !in path && '\\' !in path }

  /** The loop over the key and value arguments of a line; unknown keys are skipped. */
  function ReadPairs(args: seq<string>, p: Partial): Option<Partial>
    requires |args| % 2 == 0
  {
    if args == [] then Some(p)
    else
      var key, value, rest := args[0], args[1], args[2..];
      if SameIgnoringCase(key, "file") then
        (if IsBaseName(value) then ReadPairs(rest, p.(name := Some(value))) else None)
      else if SameIgnoringCase(key, "seq") then ReadPairs(rest, p.(fileSeq := Number(value)))
      else if SameIgnoringCase(key, "type") then
        ReadPairs(rest, p.(typeChar := if value == "" then '\0' else value[0]))
      else if SameIgnoringCase(key, "startoffset") then ReadPairs(rest, p.(startOffset := Number(value)))
      else if SameIgnoringCase(key, "endoffset") then ReadPairs(rest, p.(endOffset := Number(value)))
      else ReadPairs(rest, p)
  }

  datatype Loading = Loading(am: Manifest, maxSeq: int)

  /** Filing a complete entry in the list its type names. */
  function File(st: Loading, p: Partial): Option<Loading> {
    if p.name.None? || p.fileSeq == 0 || p.typeChar == '\0' then None
    else if p.typeChar == 'b' then
      (if st.am.base.Some? then None
       else Some(st.(am := st.am.(base := Some(Info(p.name.value, p.fileSeq, Base, p.startOffset, p.endOffset)),
                                  baseSeq := p.fileSeq))))
    else if p.typeChar == 'h' then
      Some(st.(am := st.am.(hist := st.am.hist + [Info(p.name.value, p.fileSeq, Hist, p.startOffset, p.endOffset)])))
    else if p.typeChar == 'i' then
      (if p.fileSeq <= st.maxSeq then None
       else Some(Loading(st.am.(incr := st.am.incr + [Info(p.name.value, p.fileSeq, Incr, p.startOffset, p.endOffset)],
                                incrSeq := p.fileSeq), p.fileSeq)))
    else None
  }

  const MANIFEST_MAX_LINE := 1024

  /** One line of the file; None is the fatal error. */
  function LoadLine(line: string, st: Loading): Option<Loading> {
    if line != "" && line[0] == '#' then Some(st)
    else if '\n' !in line then None
    else
      var text := Trim(line);
      if text == "" then None
      else
        match SplitArgs(text)
        case None => None
        case Some(args) =>
          if |args| < 6 || |args| % 2 != 0 then None
          else
            match ReadPairs(args, UNSET)
            case None => None
            case Some(p) => File(st, p)
  }

  function LoadLines(t: string, st: Loading): Option<Manifest>
    decreases |t|
  {
    if t == "" then Some(st.am)
    else
      var used := LineLength(t, MANIFEST_MAX_LINE);
      match LoadLine(t[..used], st)
      case None => None
      case Some(st') => LoadLines(t[used..], st')
  }

  function LoadManifest(t: string): Option<Manifest> {
    if t == "" then None else LoadLines(t, Loading(EMPTY, 0))
  }

  /** aofLoadManifestFromFile(): the loop over the lines of the file. */
  method LoadManifestFromFile(t: string) returns (r: Option<Manifest>)
    ensures r == LoadManifest(t)
  {
    hide LoadLine;
    var rest, st, lines := t, Loading(EMPTY, 0), 0;
    while true
      invariant t != "" ==> LoadManifest(t) == LoadLines(rest, st)
      invariant lines == 0 <==> |rest| == |t|
      invariant |rest| <= |t| && (lines == 0 ==> rest == t)
      decreases |rest|
    {
      if rest == "" {
        return if lines == 0 then None else Some(st.am);
      }
      var used := LineLength(rest, MANIFEST_MAX_LINE);
      lines := lines + 1;
      var next := LoadLine(rest[..used], st);
      if next.None? {
        return None;
      }
      st := next.value;
      rest := rest[used..];
    }
  }

  // ----- the text of one entry is read back -----

  /** The arguments of an entry's line. */
  function Words(ai: Info): seq<string> {
    ["file", ai.name, "seq", SignedDecimal(ai.fileSeq), "type", [TypeChar(ai.fileType)]] + OffsetWordsOf(ai)
  }

  function OffsetWordsOf(ai: Info): seq<string> {
    if ai.startOffset == -1 then []
    else
      ["startoffset", SignedDecimal(ai.startOffset)]
      + (if ai.endOffset == -1 then [] else ["endoffset", SignedDecimal(ai.endOffset)])
  }

  predicate PlainWord(s: string) {
    s != "" && forall i :: 0 <= i < |s| ==> !NeedsEscape(s[i]) && s[i] != '\'' && IsByte(s[i])
  }

  lemma PlainWordIsPlain(s: string)
    requires PlainWord(s)
    ensures Quoted(s) == s && Survives(s)
  {
  }

  lemma KeywordsPlain()
    ensures PlainWord("file") && PlainWord("seq") && PlainWord("type")
    ensures PlainWord("startoffset") && PlainWord("endoffset")
    ensures PlainWord("b") && PlainWord("h") && PlainWord("i")
  {
  }

  lemma NumberPlain(n: int)
    ensures PlainWord(SignedDecimal(n))
  {
    var m := if n < 0 then -n else n;
    forall i | 0 <= i < |Decimal(m)|
      ensures !NeedsEscape(Decimal(m)[i]) && Decimal(m)[i] != '\'' && IsByte(Decimal(m)[i])
    {
      assert IsDigit(Decimal(m)[i]);
    }
  }

  /** The line without its newline. */
  function Body(ai: Info): string { Quoted(Words(ai)[0]) + Spaced(Words(ai)[1..]) }

  lemma OthersPlain(ai: Info)
    ensures forall i :: 0 <= i < |Words(ai)| && i != 1 ==> PlainWord(Words(ai)[i])
  {
    hide SignedDecimal, PlainWord;
    KeywordsPlain();
    NumberPlain(ai.fileSeq);
    NumberPlain(ai.startOffset);
    NumberPlain(ai.endOffset);
    assert [TypeChar(ai.fileType)] in ["b", "h", "i"];
  }

  /** The words after the name. */
  lemma FormatTail(ai: Info)
    ensures Spaced(Words(ai)[2..])
         == " seq " + SignedDecimal(ai.fileSeq) + " type " + [TypeChar(ai.fileType)] + OffsetText(ai)
  {
    var w := Words(ai);
    OthersPlain(ai);
    hide Quoted, SignedDecimal, Spaced, PlainWord, OffsetText;
    var n, t := SignedDecimal(ai.fileSeq), [TypeChar(ai.fileType)];
    assert w[2] == "seq" && w[3] == n && w[4] == "type" && w[5] == t;
    PlainWordIsPlain(w[2]);
    PlainWordIsPlain(w[3]);
    PlainWordIsPlain(w[4]);
    PlainWordIsPlain(w[5]);
    SpacedTwo("seq", n);
    SpacedTwo("type", t);
    SpacedAppend(["seq", n], ["type", t]);
    assert w[2..] == ["seq", n] + ["type", t] + OffsetWordsOf(ai);
    SpacedAppend(["seq", n] + ["type", t], OffsetWordsOf(ai));
    OptionalWords(ai);
    TailShape(n, t, OffsetText(ai));
  }

  lemma TailShape(n: string, t: string, opt: string)
    ensures (" " + "seq" + " " + n) + (" " + "type" + " " + t) + opt == " seq " + n + " type " + t + opt
  {
    assert " " + "seq" + " " == " seq " && " " + "type" + " " == " type ";
    assert (" seq " + n) + (" type " + t) == " seq " + n + " type " + t;
  }

  /** The line of an entry is its quoted words, one space apart. */
  lemma FormatIsWords(ai: Info)
    ensures FormatInfo(ai) == Body(ai) + "\n"
  {
    hide Quoted, SignedDecimal, OffsetText;
    FormatTail(ai);
    BodyParts(ai);
    var tail := Spaced(Words(ai)[2..]);
    assert FormatInfo(ai) == "file " + Quoted(ai.name) + " seq " + SignedDecimal(ai.fileSeq) + " type "
                             + [TypeChar(ai.fileType)] + OffsetText(ai) + "\n";
    BodyShapeOf("file " + Quoted(ai.name), SignedDecimal(ai.fileSeq), [TypeChar(ai.fileType)], OffsetText(ai));
  }

  lemma BodyShapeOf(a: string, n: string, t: string, opt: string)
    ensures a + " seq " + n + " type " + t + opt + "\n" == a + (" seq " + n + " type " + t + opt) + "\n"
  {
  }

  lemma BodyParts(ai: Info)
    ensures Body(ai) == "file " + Quoted(ai.name) + Spaced(Words(ai)[2..])
  {
    hide Quoted, SignedDecimal;
    var w := Words(ai);
    KeywordsPlain();
    PlainWordIsPlain("file");
    assert w[1..][0] == ai.name && w[1..][1..] == w[2..];
    assert Spaced(w[1..]) == " " + Quoted(ai.name) + Spaced(w[2..]);
    assert "file" + (" " + Quoted(ai.name) + Spaced(w[2..])) == ("file" + " ") + Quoted(ai.name) + Spaced(w[2..]);
  }

  lemma SpacedOne(a: string)
    ensures Spaced([a]) == " " + Quoted(a)
  {
    hide Quoted;
    assert [a][1..] == [];
    assert " " + Quoted(a) + "" == " " + Quoted(a);
  }

  lemma OptionalWords(ai: Info)
    ensures Spaced(OffsetWordsOf(ai)) == OffsetText(ai)
  {
    hide Quoted, SignedDecimal, Spaced;
    if ai.startOffset == -1 {
      SpacedNone();
    } else {
      var s, e := SignedDecimal(ai.startOffset), SignedDecimal(ai.endOffset);
      OffsetWords(ai.startOffset);
      if ai.endOffset != -1 {
        OffsetWords(ai.endOffset);
        SpacedAppend(["startoffset", s], ["endoffset", e]);
      } else {
        assert ["startoffset", s] + [] == ["startoffset", s];
      }
    }
  }

  lemma SpacedNone()
    ensures Spaced([]) == ""
  {
  }

  lemma OffsetWords(n: int)
    ensures Spaced(["startoffset", SignedDecimal(n)]) == " startoffset " + SignedDecimal(n)
    ensures Spaced(["endoffset", SignedDecimal(n)]) == " endoffset " + SignedDecimal(n)
  {
    hide Quoted, SignedDecimal, Spaced;
    var d := SignedDecimal(n);
    NumberPlain(n);
    KeywordsPlain();
    PlainWordIsPlain(d);
    PlainWordIsPlain("startoffset");
    PlainWordIsPlain("endoffset");
    SpacedTwo("startoffset", d);
    SpacedTwo("endoffset", d);
    assert " " + "startoffset" + " " == " startoffset " && " " + "endoffset" + " " == " endoffset ";
  }

  // ----- the line survives fgets() and sdstrim() -----

  lemma {:induction false} EscapeNoNewline(s: string)
    requires IsBytes(s)
    ensures NoNewline(EscapeAll(s))
  {
    if s != "" {
      EscapeNoNewline(s[1..]);
      assert NoNewline(Escape(s[0]));
    }
  }

  lemma QuotedNoNewline(s: string)
    requires IsBytes(s)
    ensures NoNewline(Quoted(s))
  {
    EscapeNoNewline(s);
    if !NeedsRepr(s) {
      forall i | 0 <= i < |s|
        ensures s[i] != '\n'
      {
        assert !NeedsEscape(s[i]);
      }
    }
  }

  lemma {:induction false} SpacedLast(words: seq<string>)
    requires words != [] && PlainWord(words[|words| - 1])
    ensures Spaced(words) != "" && !TrimChar(Spaced(words)[|Spaced(words)| - 1])
  {
    hide Quoted;
    if |words| == 1 {
      SpacedOne(words[0]);
      PlainWordIsPlain(words[0]);
      assert !NeedsEscape(words[0][|words[0]| - 1]);
    } else {
      SpacedLast(words[1..]);
    }
  }

  lemma TrimOnlyNewline(body: string)
    requires body != "" && !TrimChar(body[0]) && !TrimChar(body[|body| - 1])
    ensures Trim(body + "\n") == body
  {
    var t := body + "\n";
    assert TrimLeft(t) == t;
    assert t[..|t| - 1] == body;
    assert TrimRight(t) == TrimRight(body) == body;
  }

  lemma BodyShape(ai: Info)
    requires ai.name != "" && IsBytes(ai.name)
    ensures NoNewline(Body(ai)) && Body(ai) != ""
    ensures Body(ai)[0] == 'f' && !TrimChar(Body(ai)[|Body(ai)| - 1])
  {
    var w := Words(ai);
    OthersPlain(ai);
    BodyParts(ai);
    hide Quoted, SignedDecimal, Spaced, PlainWord;
    QuotedNoNewline(ai.name);
    SpacedPlain(w[2..]);
    SpacedLast(w[2..]);
  }

  /** Plain words bring in neither newlines nor quotes, and are split again. */
  lemma {:induction false} SpacedPlain(words: seq<string>)
    requires forall i :: 0 <= i < |words| ==> PlainWord(words[i])
    ensures NoNewline(Spaced(words)) && '\'' !in Spaced(words) && EndsToken(Spaced(words))
  {
    hide PlainWord, Quoted;
    if words != [] {
      PlainWordIsPlain(words[0]);
      PlainCharacters(words[0]);
      SpacedPlain(words[1..]);
    }
  }

  lemma PlainCharacters(s: string)
    requires PlainWord(s)
    ensures NoNewline(s) && '\'' !in s
  {
  }

  lemma PlainSurvive(words: seq<string>)
    requires forall i :: 0 <= i < |words| ==> PlainWord(words[i])
    ensures forall i :: 0 <= i < |words| ==> Survives(words[i])
  {
    hide PlainWord, Quoted, Survives;
    forall i | 0 <= i < |words|
      ensures Survives(words[i])
    {
      PlainWordIsPlain(words[i]);
    }
  }

  /** The line comes back as its words, but for what has become of the name. */
  lemma BodySplits(ai: Info)
    requires ai.name != "" && IsBytes(ai.name)
    ensures SplitArgs(Body(ai))
         == match Reread(ai.name)
            case None => None
            case Some(x) => Some(Words(ai.(name := x)))
  {
    var w := Words(ai);
    OthersPlain(ai);
    BodyParts(ai);
    hide Quoted, SignedDecimal, Spaced, PlainWord, Reread, SplitArgs, IsBytes;
    var tail := Spaced(w[2..]);
    SpacedPlain(w[2..]);
    PlainSurvive(w[2..]);
    SplitSpaced(w[2..]);
    SplitReread(ai.name, tail);
    SplitAfterFile(Quoted(ai.name) + tail);
    assert "file " + Quoted(ai.name) + tail == "file " + (Quoted(ai.name) + tail);
    if Reread(ai.name).Some? {
      var x := Reread(ai.name).value;
      assert ["file"] + ([x] + w[2..]) == Words(ai.(name := x));
    }
  }

  lemma SplitAfterFile(rest: string)
    ensures SplitArgs("file " + rest)
         == match SplitArgs(rest)
            case None => None
            case Some(more) => Some(["file"] + more)
  {
    hide SplitArgs, Quoted;
    KeywordsPlain();
    PlainWordIsPlain("file");
    SplitWord("file", " " + rest);
    assert "file" + (" " + rest) == "file " + rest;
    SplitAfterToken(" " + rest);
    assert (" " + rest)[1..] == rest;
  }

  // ----- one line, then the file -----

  function Entry(ai: Info): Partial {
    Partial(Some(ai.name), ai.fileSeq, TypeChar(ai.fileType), ai.startOffset,
            if ai.startOffset == -1 then -1 else ai.endOffset)
  }

  lemma Keys()
    ensures Lower("file") == "file" && Lower("seq") == "seq" && Lower("type") == "type"
    ensures Lower("startoffset") == "startoffset" && Lower("endoffset") == "endoffset"
  {
  }

  lemma ReadWords(ai: Info)
    requires IsBaseName(ai.name)
    ensures ReadPairs(Words(ai), UNSET) == Some(Entry(ai))
  {
    hide SignedDecimal, Number;
    Keys();
    NumberOfSigned(ai.fileSeq);
    NumberOfSigned(ai.startOffset);
    NumberOfSigned(ai.endOffset);
    var w := Words(ai);
    var p1 := UNSET.(name := Some(ai.name));
    var p2 := p1.(fileSeq := ai.fileSeq);
    var p3 := p2.(typeChar := TypeChar(ai.fileType));
    assert ReadPairs(w, UNSET) == ReadPairs(w[2..], p1);
    assert w[2..][2..] == w[4..] && w[4..][2..] == w[6..];
    assert ReadPairs(w[2..], p1) == ReadPairs(w[4..], p2);
    assert ReadPairs(w[4..], p2) == ReadPairs(w[6..], p3);
    if ai.startOffset == -1 {
      assert w[6..] == [];
    } else {
      var p4 := p3.(startOffset := ai.startOffset);
      assert w[6..][2..] == w[8..];
      assert ReadPairs(w[6..], p3) == ReadPairs(w[8..], p4);
      if ai.endOffset == -1 {
        assert w[8..] == [];
      } else {
        var p5 := p4.(endOffset := ai.endOffset);
        assert w[8..][0] == "endoffset" && w[8..][1] == SignedDecimal(ai.endOffset) && w[8..][2..] == [];
        assert ReadPairs(w[8..], p4) == ReadPairs([], p5);
      }
    }
  }

  /** What the text can carry: a base name that survives splitting, a line that fits the buffer, and an end
      offset only next to a start offset. */
  predicate Storable(ai: Info) {
    Survives(ai.name) && IsBaseName(ai.name) && |FormatInfo(ai)| <= MANIFEST_MAX_LINE && OffsetsWritten(ai)
  }

  predicate OffsetsWritten(ai: Info) { ai.startOffset == -1 ==> ai.endOffset == -1 }

  lemma LoadPrintedLine(ai: Info, rest: string, st: Loading)
    requires Storable(ai)
    ensures var t := FormatInfo(ai) + rest;
      && LineLength(t, MANIFEST_MAX_LINE) == |FormatInfo(ai)|
      && LoadLine(FormatInfo(ai), st) == File(st, Entry(ai))
  {
    hide FormatInfo, LoadLine, LineLength, File, SplitArgs, Reread, Body;
    LoadsAs(ai, rest, st);
    RereadSame(ai.name);
    ReadWords(ai);
    assert ai.(name := ai.name) == ai;
  }

  /** A line that fits is read as an entry with the name that comes back. */
  lemma LoadsAs(ai: Info, rest: string, st: Loading)
    requires ai.name != "" && IsBytes(ai.name) && |FormatInfo(ai)| <= MANIFEST_MAX_LINE
    ensures LineLength(FormatInfo(ai) + rest, MANIFEST_MAX_LINE) == |FormatInfo(ai)|
    ensures LoadLine(FormatInfo(ai), st)
         == match Reread(ai.name)
            case None => None
            case Some(x) =>
              match ReadPairs(Words(ai.(name := x)), UNSET)
              case None => None
              case Some(p) => File(st, p)
  {
    hide FormatInfo, Words, SplitArgs, ReadPairs, LineLength, LoadLine, Body, File, Reread, IsBytes;
    LineIs(ai, rest);
    FormatIsWords(ai);
    BodyShape(ai);
    BodySplits(ai);
    LineWith(Body(ai), st);
    if Reread(ai.name).Some? { WordCount(ai.(name := Reread(ai.name).value)); }
  }

  lemma LineIs(ai: Info, rest: string)
    requires ai.name != "" && IsBytes(ai.name) && |FormatInfo(ai)| <= MANIFEST_MAX_LINE
    ensures LineLength(FormatInfo(ai) + rest, MANIFEST_MAX_LINE) == |FormatInfo(ai)|
  {
    hide FormatInfo, Body, LineLength, IsBytes;
    FormatIsWords(ai);
    BodyShape(ai);
    LineOf(Body(ai), rest, MANIFEST_MAX_LINE);
  }

  /** Loading a line whose text stands between no blanks. */
  lemma LineWith(body: string, st: Loading)
    requires body != "" && body[0] == 'f' && !TrimChar(body[|body| - 1])
    ensures LoadLine(body + "\n", st)
         == match SplitArgs(body)
            case None => None
            case Some(args) =>
              if |args| < 6 || |args| % 2 != 0 then None
              else
                match ReadPairs(args, UNSET)
                case None => None
                case Some(p) => File(st, p)
  {
    hide SplitArgs, ReadPairs, Trim, File;
    TrimOnlyNewline(body);
    assert (body + "\n")[|body|] == '\n' && (body + "\n")[0] == 'f';
  }

  lemma WordCount(ai: Info)
    ensures |Words(ai)| >= 6 && |Words(ai)| % 2 == 0
  {
  }

  /** Filing entries one after the other. */
  function FileAll(st: Loading, infos: seq<Info>): Option<Loading>
    decreases |infos|
  {
    if infos == [] then Some(st)
    else
      match File(st, Entry(infos[0]))
      case None => None
      case Some(st') => FileAll(st', infos[1..])
  }

  lemma {:induction false} LoadPrinted(infos: seq<Info>, st: Loading)
    requires forall i :: 0 <= i < |infos| ==> Storable(infos[i])
    ensures LoadLines(FormatAll(infos), st)
         == match FileAll(st, infos)
            case None => None
            case Some(st') => Some(st'.am)
    decreases |infos|
  {
    hide FormatInfo, File, LoadLine, Storable;
    if infos != [] {
      var rest := FormatAll(infos[1..]);
      LoadPrintedLine(infos[0], rest, st);
      FormatNonempty(infos[0]);
      var t := FormatInfo(infos[0]) + rest;
      var used := |FormatInfo(infos[0])|;
      assert t[..used] == FormatInfo(infos[0]) && t[used..] == rest;
      var next := File(st, Entry(infos[0]));
      if next.Some? {
        LoadPrinted(infos[1..], next.value);
      }
    }
  }

  lemma FormatNonempty(ai: Info)
    ensures FormatInfo(ai) != ""
  {
  }

  /** Filing the entries of a list after a manifest that holds what was filed before. */
  lemma {:induction false} FileHistory(st: Loading, infos: seq<Info>)
    requires forall i :: 0 <= i < |infos| ==> infos[i].fileType.Hist? && infos[i].fileSeq >= 1
    requires forall i :: 0 <= i < |infos| ==> OffsetsWritten(infos[i])
    ensures FileAll(st, infos) == Some(st.(am := st.am.(hist := st.am.hist + infos)))
    decreases |infos|
  {
    if infos == [] {
      assert st.am.hist + infos == st.am.hist;
    } else {
      var st' := st.(am := st.am.(hist := st.am.hist + [infos[0]]));
      assert OffsetsWritten(infos[0]);
      assert File(st, Entry(infos[0])) == Some(st');
      FileHistory(st', infos[1..]);
      assert st.am.hist + [infos[0]] + infos[1..] == st.am.hist + infos;
    }
  }

  lemma {:induction false} FileIncrs(st: Loading, infos: seq<Info>)
    requires forall i :: 0 <= i < |infos| ==> infos[i].fileType.Incr? && infos[i].fileSeq > st.maxSeq
    requires Increasing(infos) && st.maxSeq >= 0
    requires forall i :: 0 <= i < |infos| ==> OffsetsWritten(infos[i])
    ensures var last := if infos == [] then st.maxSeq else infos[|infos| - 1].fileSeq;
      var seqNo := if infos == [] then st.am.incrSeq else last;
      FileAll(st, infos) == Some(Loading(st.am.(incr := st.am.incr + infos, incrSeq := seqNo), last))
    decreases |infos|
  {
    if infos == [] {
      assert st.am.incr + infos == st.am.incr;
    } else {
      var n := infos[0].fileSeq;
      var st' := Loading(st.am.(incr := st.am.incr + [infos[0]], incrSeq := n), n);
      assert OffsetsWritten(infos[0]);
      assert File(st, Entry(infos[0])) == Some(st');
      FileIncrs(st', infos[1..]);
      assert st.am.incr + [infos[0]] + infos[1..] == st.am.incr + infos;
    }
  }

  lemma {:induction false} FileAllAppend(st: Loading, a: seq<Info>, b: seq<Info>)
    ensures FileAll(st, a + b)
         == match FileAll(st, a)
            case None => None
            case Some(st') => FileAll(st', b)
    decreases |a|
  {
    hide File;
    if a == [] {
      assert a + b == b;
    } else {
      assert (a + b)[1..] == a[1..] + b;
      var next := File(st, Entry(a[0]));
      if next.Some? {
        FileAllAppend(next.value, a[1..], b);
      }
    }
  }

  lemma {:induction false} FormatAllAppend(a: seq<Info>, b: seq<Info>)
    ensures FormatAll(a + b) == FormatAll(a) + FormatAll(b)
  {
    hide FormatInfo;
    if a == [] {
      assert a + b == b;
    } else {
      assert (a + b)[1..] == a[1..] + b;
      FormatAllAppend(a[1..], b);
    }
  }

  /** The loader accepts the text of every ordered, non-empty manifest and returns the same lists. */
  lemma ManifestRoundTrip(am: Manifest)
    requires WellOrdered(am) && Listed(am) != []
    requires forall i :: 0 <= i < |Listed(am)| ==> Storable(Listed(am)[i])
    ensures LoadManifest(Format(am)) == Some(Reloaded(am))
  {
    hide FormatInfo, Storable, FileAll, Listed, Reloaded, WellOrdered, AllOffsetsWritten;
    var all := Listed(am);
    FormatListed(am);
    FormatNonempty(all[0]);
    LoadPrinted(all, Loading(EMPTY, 0));
    PartsStorable(am);
    FileListed(am);
  }

  lemma PartsStorable(am: Manifest)
    requires forall i :: 0 <= i < |Listed(am)| ==> Storable(Listed(am)[i])
    ensures AllOffsetsWritten(am)
  {
    hide Storable, OffsetsWritten;
    var all := Listed(am);
    var n := if am.base.Some? then 1 else 0;
    forall i | 0 <= i < |am.hist|
      ensures OffsetsWritten(am.hist[i])
    {
      assert all[n + i] == am.hist[i];
      StorableOffsets(all[n + i]);
    }
    forall i | 0 <= i < |am.incr|
      ensures OffsetsWritten(am.incr[i])
    {
      assert all[n + |am.hist| + i] == am.incr[i];
      StorableOffsets(all[n + |am.hist| + i]);
    }
    if am.base.Some? {
      assert all[0] == am.base.value;
      StorableOffsets(all[0]);
    }
  }

  lemma StorableOffsets(ai: Info)
    requires Storable(ai)
    ensures OffsetsWritten(ai)
  {
    hide Survives, FormatInfo;
  }

  ghost predicate AllOffsetsWritten(am: Manifest) {
    && (am.base.Some? ==> OffsetsWritten(am.base.value))
    && (forall i :: 0 <= i < |am.hist| ==> OffsetsWritten(am.hist[i]))
    && (forall i :: 0 <= i < |am.incr| ==> OffsetsWritten(am.incr[i]))
  }

  lemma FileListed(am: Manifest)
    requires WellOrdered(am) && AllOffsetsWritten(am)
    ensures var r := FileAll(Loading(EMPTY, 0), Listed(am)); r.Some? && r.value.am == Reloaded(am)
  {
    hide FileAll, OffsetsWritten;
    var first := if am.base.Some? then [am.base.value] else [];
    var st0 := Loading(EMPTY, 0);
    var st1 := st0.(am := EMPTY.(base := am.base, baseSeq := if am.base.Some? then am.base.value.fileSeq else 0));
    FileFirst(am);
    assert Listed(am) == first + (am.hist + am.incr);
    FileAllAppend(st0, first, am.hist + am.incr);
    FileRest(am, st1);
  }

  lemma FileRest(am: Manifest, st: Loading)
    requires WellOrdered(am) && AllOffsetsWritten(am) && st.am.hist == [] && st.am.incr == []
    requires st.am.incrSeq == 0 && st.maxSeq == 0
    ensures var r := FileAll(st, am.hist + am.incr);
      && r.Some?
      && r.value.am == st.am.(hist := am.hist, incr := am.incr,
                              incrSeq := if am.incr == [] then 0 else am.incr[|am.incr| - 1].fileSeq)
  {
    hide FileAll, OffsetsWritten, WellOrdered, AllOffsetsWritten, Increasing;
    ListsOf(am);
    FileAllAppend(st, am.hist, am.incr);
    FileHistory(st, am.hist);
    assert [] + am.hist == am.hist && [] + am.incr == am.incr;
    FileIncrs(st.(am := st.am.(hist := am.hist)), am.incr);
  }

  lemma ListsOf(am: Manifest)
    requires WellOrdered(am) && AllOffsetsWritten(am)
    ensures forall i :: 0 <= i < |am.hist| ==> am.hist[i].fileType.Hist? && am.hist[i].fileSeq >= 1
    ensures forall i :: 0 <= i < |am.hist| ==> OffsetsWritten(am.hist[i])
    ensures forall i :: 0 <= i < |am.incr| ==> am.incr[i].fileType.Incr? && am.incr[i].fileSeq > 0
    ensures forall i :: 0 <= i < |am.incr| ==> OffsetsWritten(am.incr[i])
    ensures Increasing(am.incr)
  {
    hide OffsetsWritten;
  }

  lemma FileFirst(am: Manifest)
    requires WellOrdered(am) && AllOffsetsWritten(am)
    ensures FileAll(Loading(EMPTY, 0), if am.base.Some? then [am.base.value] else [])
         == Some(Loading(EMPTY.(base := am.base, baseSeq := if am.base.Some? then am.base.value.fileSeq else 0), 0))
  {
    if am.base.Some? {
      assert [am.base.value][1..] == [];
    }
  }

  lemma FormatListed(am: Manifest)
    ensures Format(am) == FormatAll(Listed(am))
  {
    hide FormatInfo;
    var first := if am.base.Some? then [am.base.value] else [];
    FormatAllAppend(first, am.hist);
    FormatAllAppend(first + am.hist, am.incr);
    if am.base.Some? {
      assert first[1..] == [];
      assert FormatAll(first) == FormatInfo(first[0]) + "";
    }
  }
}
