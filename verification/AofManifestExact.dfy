/** Exactly which manifests survive being written and loaded, and that those named by the server's own rules do
    unless the configured name carries a bare single quote. */
module AofManifestExact {
  import opened CString
  import opened SdsArgs
  import opened AofManifest
  import opened AofManifestText

  // ----- any manifest -----

  /** The entry a load files for the line of `ai`, if the line is accepted. */
  function ReadBack(ai: Info): Option<Info> {
    if |FormatInfo(ai)| > MANIFEST_MAX_LINE then None
    else
      match Reread(ai.name)
      case None => None
      case Some(x) =>
        if IsBaseName(x) then
          Some(ai.(name := x, endOffset := if ai.startOffset == -1 then -1 else ai.endOffset))
        else None
  }

  predicate HasName(ai: Info) { ai.name != "" && IsBytes(ai.name) }

  lemma ReadBackSame(ai: Info)
    requires HasName(ai)
    ensures ReadBack(ai) == Some(ai) <==> Storable(ai)
    ensures ReadBack(ai).Some? ==> OffsetsWritten(ReadBack(ai).value)
  {
    hide FormatInfo, IsBytes, Reread, NeedsRepr;
    RereadSame(ai.name);
  }

  lemma {:induction false} NoLineEnd(t: string, limit: nat)
    requires limit <= |t| && NoNewline(t[..limit])
    ensures LineLength(t, limit) == limit
  {
    if limit > 0 {
      assert t[0] == t[..limit][0] != '\n';
      assert t[1..][..limit - 1] == t[..limit][1..];
      NoLineEnd(t[1..], limit - 1);
    }
  }

  /** A line longer than the buffer is a fatal error. */
  lemma LongLine(ai: Info, rest: string, st: Loading)
    requires HasName(ai) && |FormatInfo(ai)| > MANIFEST_MAX_LINE
    ensures var t := FormatInfo(ai) + rest;
      LineLength(t, MANIFEST_MAX_LINE) == MANIFEST_MAX_LINE && LoadLine(t[..MANIFEST_MAX_LINE], st) == None
  {
    hide FormatInfo, Body, LineLength, SplitArgs, Trim, IsBytes;
    FormatIsWords(ai);
    BodyShape(ai);
    var t, body := FormatInfo(ai) + rest, Body(ai);
    assert t[..MANIFEST_MAX_LINE] == body[..MANIFEST_MAX_LINE];
    assert body[..MANIFEST_MAX_LINE][0] == 'f';
    NoLineEnd(t, MANIFEST_MAX_LINE);
  }

  lemma PairsOf(ai: Info, x: string)
    ensures ReadPairs(Words(ai.(name := x)), UNSET)
         == if IsBaseName(x) then Some(Entry(ai.(name := x))) else None
  {
    if IsBaseName(x) {
      ReadWords(ai.(name := x));
    } else {
      var w := Words(ai.(name := x));
      Keys();
      assert w[0] == "file" && w[1] == x;
      WordCount(ai.(name := x));
    }
  }

  lemma LineReads(ai: Info, rest: string, st: Loading)
    requires HasName(ai)
    ensures var t := FormatInfo(ai) + rest;
      var used := LineLength(t, MANIFEST_MAX_LINE);
      && used <= |t|
      && (ReadBack(ai).Some? ==> used == |FormatInfo(ai)|)
      && LoadLine(t[..used], st)
         == match ReadBack(ai)
            case None => None
            case Some(ai') => File(st, Entry(ai'))
  {
    hide FormatInfo, LoadLine, LineLength, File, ReadPairs, Words, Reread, IsBytes, IsBaseName;
    var t := FormatInfo(ai) + rest;
    if |FormatInfo(ai)| > MANIFEST_MAX_LINE {
      LongLine(ai, rest, st);
    } else {
      LoadsAs(ai, rest, st);
      assert t[..|FormatInfo(ai)|] == FormatInfo(ai);
      if Reread(ai.name).Some? { PairsOf(ai, Reread(ai.name).value); }
    }
  }

  function BackAll(infos: seq<Info>): Option<seq<Info>> {
    if infos == [] then Some([])
    else
      match (ReadBack(infos[0]), BackAll(infos[1..]))
      case (Some(ai), Some(more)) => Some([ai] + more)
      case _ => None
  }

  ghost predicate AllNamed(infos: seq<Info>) { forall i :: 0 <= i < |infos| ==> HasName(infos[i]) }

  /** A load that succeeds has filed the entries that come back. */
  lemma {:induction false} LoadsBack(infos: seq<Info>, st: Loading)
    requires AllNamed(infos)
    ensures var r := LoadLines(FormatAll(infos), st);
      r.Some? ==>
        && BackAll(infos).Some?
        && FileAll(st, BackAll(infos).value).Some? && FileAll(st, BackAll(infos).value).value.am == r.value
    decreases |infos|
  {
    hide FormatInfo, File, LoadLine, HasName, ReadBack;
    if infos != [] {
      var rest := FormatAll(infos[1..]);
      var t := FormatInfo(infos[0]) + rest;
      LineReads(infos[0], rest, st);
      FormatNonempty(infos[0]);
      if ReadBack(infos[0]).Some? {
        var ai := ReadBack(infos[0]).value;
        assert t[|FormatInfo(infos[0])|..] == rest;
        var next := File(st, Entry(ai));
        if next.Some? {
          LoadsBack(infos[1..], next.value);
          if BackAll(infos[1..]).Some? {
            var more := BackAll(infos[1..]).value;
            assert ([ai] + more)[1..] == more && ([ai] + more)[0] == ai;
          }
        }
      }
    }
  }

  lemma {:induction false} BackAt(infos: seq<Info>, i: nat)
    requires AllNamed(infos) && BackAll(infos).Some?
    ensures |BackAll(infos).value| == |infos|
    ensures i < |infos| ==> ReadBack(infos[i]) == Some(BackAll(infos).value[i])
  {
    hide ReadBack, HasName;
    if infos != [] { BackAt(infos[1..], if i > 0 then i - 1 else 0); }
  }

  lemma {:induction false} BackAppend(a: seq<Info>, b: seq<Info>)
    ensures BackAll(a + b)
         == match (BackAll(a), BackAll(b))
            case (Some(x), Some(y)) => Some(x + y)
            case _ => None
  {
    hide ReadBack;
    if a == [] {
      assert a + b == b;
      assert BackAll(b).Some? ==> [] + BackAll(b).value == BackAll(b).value;
    } else {
      assert (a + b)[1..] == a[1..] + b;
      BackAppend(a[1..], b);
      if ReadBack(a[0]).Some? && BackAll(a[1..]).Some? && BackAll(b).Some? {
        var ai, x, y := ReadBack(a[0]).value, BackAll(a[1..]).value, BackAll(b).value;
        assert [ai] + (x + y) == [ai] + x + y;
      }
    }
  }

  /** The entries of one list that come back have the same types and numbers. */
  ghost predicate Renamed(infos: seq<Info>, infos': seq<Info>) {
    && |infos'| == |infos|
    && forall i :: 0 <= i < |infos| ==>
         infos'[i].fileType == infos[i].fileType && infos'[i].fileSeq == infos[i].fileSeq && OffsetsWritten(infos'[i])
  }

  lemma BackRenames(infos: seq<Info>)
    requires AllNamed(infos) && BackAll(infos).Some?
    ensures Renamed(infos, BackAll(infos).value)
    ensures BackAll(infos).value == infos ==> forall i :: 0 <= i < |infos| ==> Storable(infos[i])
  {
    hide Storable, HasName;
    var back := BackAll(infos).value;
    BackAt(infos, 0);
    forall i | 0 <= i < |infos|
      ensures back[i].fileType == infos[i].fileType && back[i].fileSeq == infos[i].fileSeq && OffsetsWritten(back[i])
      ensures back == infos ==> Storable(infos[i])
    {
      BackAt(infos, i);
      ReadBackKeeps(infos[i]);
      ReadBackSame(infos[i]);
    }
  }

  lemma ReadBackKeeps(ai: Info)
    ensures var r := ReadBack(ai); r.Some? ==> r.value.fileType == ai.fileType && r.value.fileSeq == ai.fileSeq
  {
    hide FormatInfo, Reread;
  }

  lemma RenamedOrder(am: Manifest, am': Manifest)
    requires WellOrdered(am) && am'.baseSeq == am.baseSeq && am'.incrSeq == am.incrSeq
    requires am'.base.Some? == am.base.Some? && (am.base.Some? ==> Renamed([am.base.value], [am'.base.value]))
    requires Renamed(am.hist, am'.hist) && Renamed(am.incr, am'.incr)
    ensures WellOrdered(am') && AllOffsetsWritten(am')
  {
    hide OffsetsWritten;
    if am.base.Some? { assert [am.base.value][0] == am.base.value && [am'.base.value][0] == am'.base.value; }
  }

  /** The manifest made of the entries that come back. */
  lemma BackManifest(am: Manifest) returns (am': Manifest)
    requires WellOrdered(am) && AllNamed(Listed(am)) && BackAll(Listed(am)).Some?
    ensures WellOrdered(am') && AllOffsetsWritten(am') && Listed(am') == BackAll(Listed(am)).value
    ensures am'.base == am.base && am'.hist == am.hist && am'.incr == am.incr ==>
              forall i :: 0 <= i < |Listed(am)| ==> Storable(Listed(am)[i])
  {
    hide Storable, HasName, ReadBack, BackAll, WellOrdered, AllOffsetsWritten, OffsetsWritten;
    var first := if am.base.Some? then [am.base.value] else [];
    assert Listed(am) == first + am.hist + am.incr;
    ListsNamed(am);
    BackAppend(first + am.hist, am.incr);
    BackAppend(first, am.hist);
    var b, h, i := BackAll(first).value, BackAll(am.hist).value, BackAll(am.incr).value;
    BackRenames(first);
    BackRenames(am.hist);
    BackRenames(am.incr);
    BackRenames(Listed(am));
    am' := am.(base := if am.base.Some? then Some(b[0]) else None, hist := h, incr := i);
    assert am.base.Some? ==> b == [b[0]];
    assert Listed(am') == b + h + i;
    RenamedOrder(am, am');
  }

  lemma ListsNamed(am: Manifest)
    requires AllNamed(Listed(am))
    ensures AllNamed(if am.base.Some? then [am.base.value] else []) && AllNamed(am.hist) && AllNamed(am.incr)
  {
    hide HasName;
    var all, n := Listed(am), if am.base.Some? then 1 else 0;
    forall i | 0 <= i < |am.hist|
      ensures HasName(am.hist[i])
    {
      assert all[n + i] == am.hist[i];
    }
    forall i | 0 <= i < |am.incr|
      ensures HasName(am.incr[i])
    {
      assert all[n + |am.hist| + i] == am.incr[i];
    }
    if am.base.Some? { assert all[0] == am.base.value; }
  }

  /** A manifest comes back from its text with the same lists exactly if each of its entries can be stored:
      the name has no bare single quote and no path separator, the line fits, and no end offset stands without
      a start offset. Otherwise the load is a fatal error, or returns another manifest. */
  lemma RoundTripExactly(am: Manifest)
    requires WellOrdered(am) && Listed(am) != [] && AllNamed(Listed(am))
    ensures LoadManifest(Format(am)) == Some(Reloaded(am))
       <==> forall i :: 0 <= i < |Listed(am)| ==> Storable(Listed(am)[i])
  {
    hide Storable, HasName, FormatInfo, FileAll, BackAll, Listed, WellOrdered, AllOffsetsWritten;
    if forall i :: 0 <= i < |Listed(am)| ==> Storable(Listed(am)[i]) {
      ManifestRoundTrip(am);
    } else {
      FormatListed(am);
      FormatNonempty(Listed(am)[0]);
      LoadsBack(Listed(am), Loading(EMPTY, 0));
      if BackAll(Listed(am)).Some? {
        var am' := BackManifest(am);
        FileListed(am');
      }
    }
  }

  // ----- manifests under the server's naming rules -----

  /** A number the manifest can hold. */
  predicate Fits64(n: int) { -0x8000_0000_0000_0000 < n < 0x8000_0000_0000_0000 }

  ghost predicate Fields64(ai: Info) { Fits64(ai.fileSeq) && Fits64(ai.startOffset) && Fits64(ai.endOffset) }

  /** What the configuration demands of appendfilename, and a length that leaves room in the line. */
  predicate ShortName(aofName: string) { IsBytes(aofName) && IsBaseName(aofName) && |aofName| <= 200 }

  lemma SignedLength(n: int)
    requires Fits64(n)
    ensures |SignedDecimal(n)| <= 20
  {
    hide Decimal;
    DecimalBound(if n < 0 then -n else n);
  }

  lemma {:induction false} EscapeLength(s: string)
    ensures |EscapeAll(s)| <= 4 * |s|
  {
    if s != "" {
      EscapeLength(s[1..]);
      assert |Escape(s[0])| <= 4;
    }
  }

  /** The suffix the server puts behind the configured name. */
  predicate NameSuffix(x: string) {
    && 0 < |x| <= 29
    && forall i :: 0 <= i < |x| ==> !NeedsEscape(x[i]) && x[i] != '\'' && x[i] != '/' && IsByte(x[i])
  }

  lemma NumberSuffix(n: nat, end: string)
    requires Fits64(n)
    requires end in [".base.rdb", ".base.aof", ".incr.aof"]
    ensures NameSuffix("." + Decimal(n) + end)
  {
    DecimalBound(n);
    var d, x := Decimal(n), "." + Decimal(n) + end;
    forall i | 0 <= i < |x|
      ensures !NeedsEscape(x[i]) && x[i] != '\'' && x[i] != '/' && IsByte(x[i])
    {
      if 1 <= i <= |d| {
        assert x[i] == d[i - 1] && IsDigit(d[i - 1]);
      } else if i > |d| {
        assert x[i] == end[i - |d| - 1];
      }
    }
  }

  lemma SuffixedName(aofName: string, x: string)
    requires ShortName(aofName) && NameSuffix(x)
    ensures var name := aofName + x;
      && name != "" && IsBytes(name) && IsBaseName(name) && |name| <= 229
      && (NeedsRepr(name) <==> NeedsRepr(aofName)) && ('\'' in name <==> '\'' in aofName)
  {
    var name := aofName + x;
    forall i | 0 <= i < |name|
      ensures IsByte(name[i]) && name[i] != '/' && name[i] != '\\'
      ensures NeedsEscape(name[i]) ==> NeedsRepr(aofName)
      ensures name[i] == '\'' ==> '\'' in aofName
    {
      if i < |aofName| {
        assert name[i] == aofName[i];
      } else {
        assert name[i] == x[i - |aofName|];
      }
    }
    if NeedsRepr(aofName) {
      var k :| 0 <= k < |aofName| && NeedsEscape(aofName[k]);
      assert NeedsEscape(name[k]);
    }
  }

  lemma Regroup(a: string, d: string, x: string, y: string)
    ensures a + "." + d + x + y == a + ("." + d + (x + y))
  {
  }

  lemma BaseSuffix(aofName: string, n: nat, r: bool) returns (x: string)
    requires Fits64(n)
    ensures NameSuffix(x) && BaseName(aofName, n, r) == aofName + x
  {
    hide NameSuffix, Decimal;
    var kind := if r then ".rdb" else ".aof";
    x := "." + Decimal(n) + (".base" + kind);
    Regroup(aofName, Decimal(n), ".base", kind);
    SuffixKinds();
    NumberSuffix(n, ".base" + kind);
  }

  lemma SuffixKinds()
    ensures ".base" + ".rdb" == ".base.rdb" && ".base" + ".aof" == ".base.aof" && ".incr" + ".aof" == ".incr.aof"
  {
  }

  lemma IncrSuffix(aofName: string, n: nat) returns (x: string)
    requires Fits64(n)
    ensures NameSuffix(x) && IncrName(aofName, n) == aofName + x
  {
    hide NameSuffix, Decimal;
    x := "." + Decimal(n) + (".incr" + ".aof");
    Regroup(aofName, Decimal(n), ".incr", ".aof");
    SuffixKinds();
    NumberSuffix(n, ".incr" + ".aof");
  }

  lemma IssuedName(aofName: string, baseSeq: nat, incrSeq: nat, name: string) returns (x: string)
    requires Issued(aofName, baseSeq, incrSeq, name) && Fits64(baseSeq) && Fits64(incrSeq)
    ensures NameSuffix(x) && name == aofName + x
  {
    hide NameSuffix, BaseName, IncrName;
    if n, r :| 1 <= n <= baseSeq && name == BaseName(aofName, n, r) {
      x := BaseSuffix(aofName, n, r);
    } else {
      var n :| 1 <= n <= incrSeq && name == IncrName(aofName, n);
      x := IncrSuffix(aofName, n);
    }
  }

  lemma LineFits(ai: Info)
    requires |ai.name| <= 229 && Fields64(ai)
    ensures |FormatInfo(ai)| <= MANIFEST_MAX_LINE
  {
    hide SignedDecimal, EscapeAll, NeedsRepr;
    EscapeLength(ai.name);
    SignedLength(ai.fileSeq);
    SignedLength(ai.startOffset);
    SignedLength(ai.endOffset);
    assert |Quoted(ai.name)| <= 918;
    OffsetTextLength(ai);
  }

  lemma OffsetTextLength(ai: Info)
    requires Fields64(ai)
    ensures |OffsetText(ai)| <= 64
  {
    hide SignedDecimal;
    SignedLength(ai.startOffset);
    SignedLength(ai.endOffset);
  }

  lemma IssuedStorable(aofName: string, baseSeq: nat, incrSeq: nat, ai: Info)
    requires ShortName(aofName) && Issued(aofName, baseSeq, incrSeq, ai.name) && Fits64(baseSeq) && Fits64(incrSeq)
    requires Fields64(ai) && OffsetsWritten(ai)
    ensures HasName(ai) && (Storable(ai) <==> NeedsRepr(aofName) || '\'' !in aofName)
  {
    hide Issued, ShortName, NameSuffix, FormatInfo, NeedsRepr, IsBytes, IsBaseName;
    var x := IssuedName(aofName, baseSeq, incrSeq, ai.name);
    SuffixedName(aofName, x);
    LineFits(ai);
  }

  lemma ListedIssued(am: Manifest, aofName: string, i: nat)
    requires WellFormed(am, aofName) && i < |Listed(am)|
    ensures am.baseSeq >= 0 && am.incrSeq >= 0 && Issued(aofName, am.baseSeq, am.incrSeq, Listed(am)[i].name)
  {
    hide Issued, Names, Listed;
    ListedNamed(am, i);
  }

  lemma ListedNamed(am: Manifest, i: nat)
    requires i < |Listed(am)|
    ensures Listed(am)[i].name in Names(am)
  {
    hide NameBag;
    var all, n := Listed(am), if am.base.Some? then 1 else 0;
    if n <= i < n + |am.hist| {
      assert all[i] == am.hist[i - n];
      InBag(am.hist, i - n);
    } else if i >= n {
      assert all[i] == am.incr[i - n - |am.hist|];
      InBag(am.incr, i - n - |am.hist|);
    }
  }

  lemma {:induction false} InBag(infos: seq<Info>, i: nat)
    requires i < |infos|
    ensures infos[i].name in NameBag(infos)
  {
    if i > 0 { InBag(infos[1..], i - 1); }
  }

  /** The manifest the server keeps comes back from its own text exactly if the configured name has no single
      quote, or something else in it that has it quoted. */
  lemma OwnManifestLoads(am: Manifest, aofName: string)
    requires WellFormed(am, aofName) && ShortName(aofName) && Fits64(am.baseSeq) && Fits64(am.incrSeq)
    requires Listed(am) != []
    requires forall i :: 0 <= i < |Listed(am)| ==> Fields64(Listed(am)[i]) && OffsetsWritten(Listed(am)[i])
    ensures LoadManifest(Format(am)) == Some(Reloaded(am)) <==> NeedsRepr(aofName) || '\'' !in aofName
  {
    hide Issued, ShortName, Fields64, OffsetsWritten, Storable, HasName, NeedsRepr, Listed, LoadManifest, Names;
    forall i | 0 <= i < |Listed(am)|
      ensures HasName(Listed(am)[i]) && (Storable(Listed(am)[i]) <==> NeedsRepr(aofName) || '\'' !in aofName)
    {
      ListedIssued(am, aofName, i);
      IssuedStorable(aofName, am.baseSeq, am.incrSeq, Listed(am)[i]);
    }
    RoundTripExactly(am);
    assert 0 < |Listed(am)| && HasName(Listed(am)[0]);
  }
}
