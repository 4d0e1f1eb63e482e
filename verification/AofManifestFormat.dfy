/** The manifest files aofLoadManifestFromFile() accepts, told without a reader: lines that are comments or
    describe an entry, and which entries go together. */
module AofManifestFormat {
  import opened CString
  import opened SdsArgs
  import opened AofManifest
  import opened AofManifestText

  // ----- a line -----

  /** The value of the last pair with this key, in any case. */
  function LastValue(args: seq<string>, key: string): Option<string>
    requires |args| % 2 == 0
  {
    if args == [] then None
    else
      var n := |args| - 2;
      if SameIgnoringCase(args[n], key) then Some(args[n + 1]) else LastValue(args[..n], key)
  }

  /** No pair names a file by a path. */
  predicate NoPaths(args: seq<string>)
    requires |args| % 2 == 0
  {
    if args == [] then true
    else
      var n := |args| - 2;
      NoPaths(args[..n]) && (SameIgnoringCase(args[n], "file") ==> IsBaseName(args[n + 1]))
  }

  function Or(value: Option<string>, unset: int): int { if value.Some? then Number(value.value) else unset }

  ghost predicate Describes(args: seq<string>, ai: Info) {
    && |args| >= 6 && |args| % 2 == 0 && NoPaths(args)
    && LastValue(args, "file") == Some(ai.name)
    && ai.fileSeq == Or(LastValue(args, "seq"), 0) != 0
    && LastValue(args, "type").Some? && [TypeChar(ai.fileType)] <= LastValue(args, "type").value
    && ai.startOffset == Or(LastValue(args, "startoffset"), -1) && ai.endOffset == Or(LastValue(args, "endoffset"), -1)
  }

  ghost predicate LineDescribes(line: string, ai: Info) {
    && line != "" && line[0] != '#' && '\n' in line
    && SplitArgs(Trim(line)).Some? && Describes(SplitArgs(Trim(line)).value, ai)
  }

  /** The part an entry's line is read into. */
  function PartOf(args: seq<string>, p: Partial): Partial
    requires |args| % 2 == 0
  {
    var name, fileType := LastValue(args, "file"), LastValue(args, "type");
    Partial(if name.Some? then name else p.name, Or(LastValue(args, "seq"), p.fileSeq),
            if fileType.None? then p.typeChar else if fileType.value == "" then '\0' else fileType.value[0],
            Or(LastValue(args, "startoffset"), p.startOffset), Or(LastValue(args, "endoffset"), p.endOffset))
  }

  lemma {:induction false} PairsAppend(args: seq<string>, key: string, value: string, p: Partial)
    requires |args| % 2 == 0
    ensures ReadPairs(args + [key, value], p) == match ReadPairs(args, p)
                                                 case None => None
                                                 case Some(q) => ReadPairs([key, value], q)
    decreases |args|
  {
    hide SameIgnoringCase, Number, IsBaseName;
    if args == [] {
      assert args + [key, value] == [key, value];
    } else {
      assert (args + [key, value])[2..] == args[2..] + [key, value];
      assert (args + [key, value])[0] == args[0] && (args + [key, value])[1] == args[1];
      if SameIgnoringCase(args[0], "file") {
        PairsAppend(args[2..], key, value, p.(name := Some(args[1])));
      } else if SameIgnoringCase(args[0], "seq") {
        PairsAppend(args[2..], key, value, p.(fileSeq := Number(args[1])));
      } else if SameIgnoringCase(args[0], "type") {
        PairsAppend(args[2..], key, value, p.(typeChar := if args[1] == "" then '\0' else args[1][0]));
      } else if SameIgnoringCase(args[0], "startoffset") {
        PairsAppend(args[2..], key, value, p.(startOffset := Number(args[1])));
      } else if SameIgnoringCase(args[0], "endoffset") {
        PairsAppend(args[2..], key, value, p.(endOffset := Number(args[1])));
      } else {
        PairsAppend(args[2..], key, value, p);
      }
    }
  }

  lemma OneKey(key: string)
    ensures SameIgnoringCase(key, "file") ==>
      !SameIgnoringCase(key, "seq") && !SameIgnoringCase(key, "type") && !SameIgnoringCase(key, "startoffset")
      && !SameIgnoringCase(key, "endoffset")
    ensures SameIgnoringCase(key, "seq") ==>
      !SameIgnoringCase(key, "type") && !SameIgnoringCase(key, "startoffset") && !SameIgnoringCase(key, "endoffset")
    ensures SameIgnoringCase(key, "type") ==>
      !SameIgnoringCase(key, "startoffset") && !SameIgnoringCase(key, "endoffset")
    ensures SameIgnoringCase(key, "startoffset") ==> !SameIgnoringCase(key, "endoffset")
  {
    assert Lower("file")[0] == 'f' && Lower("type")[0] == 't' && |Lower("seq")| == 3;
    assert |Lower("startoffset")| == 11 && |Lower("endoffset")| == 9;
  }

  lemma {:induction false} PairsExactly(args: seq<string>, p: Partial)
    requires |args| % 2 == 0
    ensures ReadPairs(args, p) == if NoPaths(args) then Some(PartOf(args, p)) else None
    decreases |args|
  {
    hide SameIgnoringCase, Number, IsBaseName;
    if args != [] {
      var n := |args| - 2;
      assert args == args[..n] + [args[n], args[n + 1]];
      PairsAppend(args[..n], args[n], args[n + 1], p);
      PairsExactly(args[..n], p);
      OneKey(args[n]);
      OnePair(args[n], args[n + 1], PartOf(args[..n], p));
    }
  }

  lemma OnePair(key: string, value: string, p: Partial)
    ensures ReadPairs([key, value], p) ==
            if SameIgnoringCase(key, "file") && !IsBaseName(value) then None
            else if SameIgnoringCase(key, "file") then Some(p.(name := Some(value)))
            else if SameIgnoringCase(key, "seq") then Some(p.(fileSeq := Number(value)))
            else if SameIgnoringCase(key, "type") then Some(p.(typeChar := if value == "" then '\0' else value[0]))
            else if SameIgnoringCase(key, "startoffset") then Some(p.(startOffset := Number(value)))
            else if SameIgnoringCase(key, "endoffset") then Some(p.(endOffset := Number(value)))
            else Some(p)
  {
    hide SameIgnoringCase, Number, IsBaseName;
    assert [key, value][2..] == [];
  }

  // ----- which entries go together -----

  /** The entries of one type, in order. */
  function OfType(infos: seq<Info>, t: FileType): seq<Info> {
    if infos == [] then []
    else OfType(infos[..|infos| - 1], t) + if infos[|infos| - 1].fileType == t then [infos[|infos| - 1]] else []
  }

  /** One BASE file at most, and INCR files with rising numbers. */
  ghost predicate Acceptable(infos: seq<Info>) {
    && (forall i :: 0 <= i < |infos| ==> (infos[i].fileType.Incr? ==> infos[i].fileSeq > 0))
    && (forall i, j :: 0 <= i < j < |infos| ==> Compatible(infos[i], infos[j]))
  }

  predicate Compatible(earlier: Info, later: Info) {
    && !(earlier.fileType.Base? && later.fileType.Base?)
    && (earlier.fileType.Incr? && later.fileType.Incr? ==> earlier.fileSeq < later.fileSeq)
  }

  function LastSeq(infos: seq<Info>): int { if infos == [] then 0 else infos[|infos| - 1].fileSeq }

  /** The manifest of the entries: each list in the order of the file, each counter that of the last entry. */
  function ManifestOf(infos: seq<Info>): Manifest {
    var base, incr := OfType(infos, Base), OfType(infos, Incr);
    Manifest(if base == [] then None else Some(base[|base| - 1]), OfType(infos, Hist), incr, LastSeq(base),
             LastSeq(incr), false)
  }

  function StateOf(infos: seq<Info>): Loading { Loading(ManifestOf(infos), LastSeq(OfType(infos, Incr))) }

  lemma OfTypeNext(infos: seq<Info>, ai: Info, t: FileType)
    ensures OfType(infos + [ai], t) == if ai.fileType == t then OfType(infos, t) + [ai] else OfType(infos, t)
  {
    assert (infos + [ai])[..|infos|] == infos;
  }

  lemma {:induction false} OfTypeFrom(infos: seq<Info>, t: FileType)
    ensures forall x :: x in OfType(infos, t) <==> x in infos && x.fileType == t
  {
    if infos != [] {
      var n := |infos| - 1;
      OfTypeFrom(infos[..n], t);
      assert infos == infos[..n] + [infos[n]];
    }
  }

  lemma AcceptableMore(infos: seq<Info>, ai: Info)
    ensures Acceptable(infos + [ai]) <==>
              && Acceptable(infos) && (ai.fileType.Incr? ==> ai.fileSeq > 0)
              && forall i :: 0 <= i < |infos| ==> Compatible(infos[i], ai)
  {
    hide Compatible;
    var all := infos + [ai];
    assert all[|infos|] == ai && forall i :: 0 <= i < |infos| ==> all[i] == infos[i];
    if Acceptable(all) {
      forall i | 0 <= i < |infos| ensures Compatible(infos[i], ai) { assert Compatible(all[i], all[|infos|]); }
      forall i, j | 0 <= i < j < |infos| ensures Compatible(infos[i], infos[j]) { assert Compatible(all[i], all[j]); }
    }
  }

  /** A new entry goes with those before it exactly if it goes with their lists. */
  lemma {:induction false} CompatibleExactly(infos: seq<Info>, ai: Info)
    requires Acceptable(infos)
    ensures LastSeq(OfType(infos, Incr)) >= 0
    ensures (ai.fileType.Incr? ==> ai.fileSeq > 0) && (forall i :: 0 <= i < |infos| ==> Compatible(infos[i], ai)) <==>
              && (ai.fileType.Base? ==> OfType(infos, Base) == [])
              && (ai.fileType.Incr? ==> ai.fileSeq > LastSeq(OfType(infos, Incr)))
  {
    if infos != [] {
      var n := |infos| - 1;
      var front, last := infos[..n], infos[n];
      assert infos == front + [last];
      hide Acceptable;
      AcceptableMore(front, last);
      CompatibleExactly(front, ai);
      CompatibleExactly(front, last);
      assert (forall i :: 0 <= i < |infos| ==> Compatible(infos[i], ai)) <==>
             (forall i :: 0 <= i < |front| ==> Compatible(front[i], ai)) && Compatible(last, ai)
      by {
        AllCompatible(front, last, ai);
      }
    }
  }

  lemma AllCompatible(front: seq<Info>, last: Info, ai: Info)
    ensures (forall i :: 0 <= i < |front + [last]| ==> Compatible((front + [last])[i], ai)) <==>
            (forall i :: 0 <= i < |front| ==> Compatible(front[i], ai)) && Compatible(last, ai)
  {
    hide Compatible;
    var all := front + [last];
    if forall i :: 0 <= i < |all| ==> Compatible(all[i], ai) {
      forall i | 0 <= i < |front| ensures Compatible(front[i], ai) { assert Compatible(all[i], ai); }
      assert Compatible(all[|front|], ai);
    }
  }

  lemma AcceptableNext(infos: seq<Info>, ai: Info)
    requires Acceptable(infos)
    ensures Acceptable(infos + [ai]) <==>
              && (ai.fileType.Base? ==> OfType(infos, Base) == [])
              && (ai.fileType.Incr? ==> ai.fileSeq > LastSeq(OfType(infos, Incr)))
  {
    hide Compatible, OfType, Acceptable;
    AcceptableMore(infos, ai);
    CompatibleExactly(infos, ai);
  }

  /** Filing the part read for an entry. */
  lemma FileExactly(infos: seq<Info>, ai: Info, p: Partial)
    requires Acceptable(infos) && ai.fileSeq != 0
    requires p == Partial(Some(ai.name), ai.fileSeq, TypeChar(ai.fileType), ai.startOffset, ai.endOffset)
    ensures File(StateOf(infos), p) == if Acceptable(infos + [ai]) then Some(StateOf(infos + [ai])) else None
  {
    hide Acceptable, OfType;
    AcceptableNext(infos, ai);
    OfTypeNext(infos, ai, Base);
    OfTypeNext(infos, ai, Hist);
    OfTypeNext(infos, ai, Incr);
  }

  // ----- the whole file -----

  /** The lines as fgets() takes them. */
  function Lines(t: string): seq<string> {
    if t == "" then []
    else
      var n := LineLength(t, MANIFEST_MAX_LINE);
      [t[..n]] + Lines(t[n..])
  }

  /** The lines are comments and, in order, descriptions of the entries. */
  ghost predicate ReadsAs(lines: seq<string>, infos: seq<Info>) {
    if lines == [] then infos == []
    else if lines[0] != "" && lines[0][0] == '#' then ReadsAs(lines[1..], infos)
    else infos != [] && LineDescribes(lines[0], infos[0]) && ReadsAs(lines[1..], infos[1..])
  }

  lemma LineExactly(line: string, infos: seq<Info>, ai: Info)
    requires Acceptable(infos) && LineDescribes(line, ai)
    ensures LoadLine(line, StateOf(infos)) == if Acceptable(infos + [ai]) then Some(StateOf(infos + [ai])) else None
  {
    hide Acceptable, ManifestOf, SplitArgs, Trim, ReadPairs, File, Or, LastValue, NoPaths, TypeChar;
    var args := SplitArgs(Trim(line)).value;
    PairsExactly(args, UNSET);
    PartIs(args, ai);
    FileExactly(infos, ai, PartOf(args, UNSET));
    NothingToSplit(Trim(line));
  }

  lemma NothingToSplit(t: string)
    ensures t == "" ==> SplitArgs(t) == Some([])
  {
  }

  lemma PartIs(args: seq<string>, ai: Info)
    requires Describes(args, ai)
    ensures PartOf(args, UNSET)
         == Partial(Some(ai.name), ai.fileSeq, TypeChar(ai.fileType), ai.startOffset, ai.endOffset)
  {
    hide LastValue, NoPaths, Number, TypeChar;
    var v := LastValue(args, "type").value;
    assert v[0] == [TypeChar(ai.fileType)][0];
  }

  /** A line that is accepted describes an entry. */
  lemma LineRead(line: string, st: Loading) returns (ai: Info)
    requires line != "" && line[0] != '#' && LoadLine(line, st).Some?
    ensures LineDescribes(line, ai)
  {
    hide SplitArgs, Trim, ReadPairs, LastValue, NoPaths, Number;
    var args := SplitArgs(Trim(line)).value;
    PairsExactly(args, UNSET);
    var p := PartOf(args, UNSET);
    ai := Info(p.name.value, p.fileSeq, TypeOf(p.typeChar), p.startOffset, p.endOffset);
    NamedType(p.typeChar);
  }

  function TypeOf(c: char): FileType { if c == 'b' then Base else if c == 'h' then Hist else Incr }

  lemma NamedType(c: char)
    requires c == 'b' || c == 'h' || c == 'i'
    ensures TypeChar(TypeOf(c)) == c
  {
  }

  lemma {:induction false} AcceptablePrefix(infos: seq<Info>, more: seq<Info>)
    requires Acceptable(infos + more)
    ensures Acceptable(infos)
  {
    var all := infos + more;
    assert forall i :: 0 <= i < |infos| ==> infos[i] == all[i];
    forall i, j | 0 <= i < j < |infos| ensures Compatible(infos[i], infos[j]) { assert Compatible(all[i], all[j]); }
  }

  lemma CommentSkipped(line: string, st: Loading)
    requires line != "" && line[0] == '#'
    ensures LoadLine(line, st) == Some(st)
  {
  }

  lemma LinesNext(t: string)
    requires t != ""
    ensures var n := LineLength(t, MANIFEST_MAX_LINE);
      0 < n <= |t| && Lines(t) == [t[..n]] + Lines(t[n..]) && Lines(t)[0] == t[..n] && Lines(t)[1..] == Lines(t[n..])
  {
  }

  lemma {:induction false} LoadFrom(t: string, before: seq<Info>, infos: seq<Info>)
    requires Acceptable(before) && ReadsAs(Lines(t), infos)
    ensures LoadLines(t, StateOf(before))
         == if Acceptable(before + infos) then Some(ManifestOf(before + infos)) else None
    decreases |t|
  {
    hide LineDescribes, LoadLine, Acceptable, ManifestOf, StateOf, LineLength, Lines;
    if t == "" {
      NoLines();
      assert before + infos == before;
      StateIs(before);
    } else {
      LinesNext(t);
      var n := LineLength(t, MANIFEST_MAX_LINE);
      var line, rest := t[..n], t[n..];
      if line[0] == '#' {
        CommentSkipped(line, StateOf(before));
        LoadFrom(rest, before, infos);
      } else {
        var ai, more := infos[0], infos[1..];
        LineExactly(line, before, ai);
        assert before + infos == before + [ai] + more;
        if Acceptable(before + [ai]) {
          LoadFrom(rest, before + [ai], more);
        } else if Acceptable(before + [ai] + more) {
          AcceptablePrefix(before + [ai], more);
        }
      }
    }
  }

  lemma NoLines()
    ensures Lines("") == []
  {
  }

  lemma StateIs(infos: seq<Info>)
    ensures StateOf(infos).am == ManifestOf(infos)
  {
  }

  lemma {:induction false} LoadedReads(t: string, st: Loading) returns (infos: seq<Info>)
    requires LoadLines(t, st).Some?
    ensures ReadsAs(Lines(t), infos)
    decreases |t|
  {
    hide LineDescribes, LoadLine, LineLength, Lines;
    if t == "" {
      NoLines();
      infos := [];
    } else {
      LinesNext(t);
      var n := LineLength(t, MANIFEST_MAX_LINE);
      var line, rest := t[..n], t[n..];
      var st' := LoadLine(line, st).value;
      infos := LoadedReads(rest, st');
      if line[0] != '#' {
        var ai := LineRead(line, st);
        assert ([ai] + infos)[1..] == infos;
        infos := [ai] + infos;
      }
    }
  }

  /** A manifest file loads exactly if it is not empty, its lines are comments or describe entries, and the entries go
      together; then to the manifest of those entries. */
  lemma LoadsExactly(t: string)
    ensures LoadManifest(t).Some? <==> t != "" && exists infos :: ReadsAs(Lines(t), infos) && Acceptable(infos)
    ensures forall infos :: t != "" && ReadsAs(Lines(t), infos) && Acceptable(infos) ==>
              LoadManifest(t) == Some(ManifestOf(infos))
  {
    hide ReadsAs, Lines, Acceptable, ManifestOf, LoadLines, StateOf;
    if t != "" {
      NothingYet();
      forall infos | ReadsAs(Lines(t), infos)
        ensures LoadManifest(t) == if Acceptable(infos) then Some(ManifestOf(infos)) else None
      {
        LoadFrom(t, [], infos);
        assert [] + infos == infos;
      }
      if LoadManifest(t).Some? {
        var infos := LoadedReads(t, Loading(EMPTY, 0));
        assert ReadsAs(Lines(t), infos);
      }
    }
  }

  lemma NothingYet()
    ensures Acceptable([]) && StateOf([]) == Loading(EMPTY, 0)
  {
  }
}
