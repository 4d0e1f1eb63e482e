/** The manifest that lists the append-only files: its edits, its text, and reading the text back. */
module AofManifest {
  import opened CString
  import opened SdsArgs

  /** AOF_FILE_TYPE_BASE, _HIST and _INCR. */
  datatype FileType = Base | Hist | Incr

  datatype Info = Info(name: string, fileSeq: int, fileType: FileType, startOffset: int, endOffset: int)

  datatype Manifest = Manifest(
    base: Option<Info>, hist: seq<Info>, incr: seq<Info>, baseSeq: int, incrSeq: int, dirty: bool)

  const EMPTY := Manifest(None, [], [], 0, 0, false)

  // ----- names -----

  function BaseName(aofName: string, n: int, rdb: bool): string {
    aofName + "." + SignedDecimal(n) + ".base" + (if rdb then ".rdb" else ".aof")
  }

  function IncrName(aofName: string, n: int): string { aofName + "." + SignedDecimal(n) + ".incr" + ".aof" }

  function TempIncrName(aofName: string): string { "temp-" + aofName + ".incr" }

  lemma NumberInName(aofName: string, n: nat, suffix: string)
    requires suffix != "" && suffix[0] == '.'
    ensures var t := (aofName + "." + Decimal(n) + suffix)[|aofName| + 1..];
      ReadDigits(t, 0) == n && t == Decimal(n) + suffix
  {
    assert (aofName + "." + Decimal(n) + suffix)[|aofName| + 1..] == Decimal(n) + suffix;
    ReadDecimal(n, suffix);
  }

  /** The number and the kind of file can be told from the name. */
  lemma NamesDiffer(aofName: string, m: nat, n: nat, r: bool, r': bool)
    ensures m != n ==> BaseName(aofName, m, r) != BaseName(aofName, n, r')
    ensures m != n ==> IncrName(aofName, m) != IncrName(aofName, n)
    ensures BaseName(aofName, m, r) != IncrName(aofName, n)
  {
    hide Decimal, ReadDigits;
    var bm := ".base" + (if r then ".rdb" else ".aof");
    var bn := ".base" + (if r' then ".rdb" else ".aof");
    assert BaseName(aofName, m, r) == aofName + "." + Decimal(m) + bm;
    assert BaseName(aofName, n, r') == aofName + "." + Decimal(n) + bn;
    assert IncrName(aofName, m) == aofName + "." + Decimal(m) + ".incr.aof"
      by { assert ".incr" + ".aof" == ".incr.aof"; }
    assert IncrName(aofName, n) == aofName + "." + Decimal(n) + ".incr.aof"
      by { assert ".incr" + ".aof" == ".incr.aof"; }
    NumberInName(aofName, m, bm);
    NumberInName(aofName, n, bn);
    NumberInName(aofName, m, ".incr.aof");
    NumberInName(aofName, n, ".incr.aof");
    assert bm[1] == 'b' && ".incr.aof"[1] == 'i';
    assert (Decimal(m) + bm)[|Decimal(m)|..] == bm;
    assert (Decimal(n) + ".incr.aof")[|Decimal(n)|..] == ".incr.aof";
  }

  // ----- edits -----

  /** getNewBaseFileNameAndMarkPreAsHistory() */
  function NewBase(am: Manifest, aofName: string, rdb: bool): Manifest {
    var hist := if am.base.Some? then [am.base.value.(fileType := Hist)] + am.hist else am.hist;
    var n := am.baseSeq + 1;
    am.(hist := hist, baseSeq := n, dirty := true, base := Some(Info(BaseName(aofName, n, rdb), n, Base, -1, -1)))
  }

  /** getNewIncrAofName() */
  function NewIncr(am: Manifest, aofName: string, start: int): Manifest {
    var n := am.incrSeq + 1;
    am.(incrSeq := n, dirty := true, incr := am.incr + [Info(IncrName(aofName, n), n, Incr, start, -1)])
  }

  function AsHistory(infos: seq<Info>): seq<Info> {
    seq(|infos|, i requires 0 <= i < |infos| => infos[i].(fileType := Hist))
  }

  /** The result of markRewrittenIncrAofAsHistory(): every INCR entry but the one being written becomes
      history, in front of the older history and in its old order. */
  function MarkRewritten(am: Manifest, writing: bool): Manifest {
    if am.incr == [] then am
    else
      var n := if writing then |am.incr| - 1 else |am.incr|;
      am.(hist := AsHistory(am.incr[..n]) + am.hist, incr := am.incr[n..], dirty := true)
  }

  /** markRewrittenIncrAofAsHistory(): the list is walked from its tail, and each entry goes to the head of
      the history. */
  method MarkRewrittenIncrAofAsHistory(am: Manifest, writing: bool) returns (r: Manifest)
    ensures r == MarkRewritten(am, writing)
  {
    if am.incr == [] {
      return am;
    }
    var n := if writing then |am.incr| - 1 else |am.incr|;
    var hist, i := am.hist, n;
    while i > 0
      invariant 0 <= i <= n
      invariant hist == AsHistory(am.incr[i..n]) + am.hist
    {
      i := i - 1;
      var entry := am.incr[i].(fileType := Hist);
      assert [entry] + AsHistory(am.incr[i + 1..n]) == AsHistory(am.incr[i..n]);
      hist := [entry] + hist;
    }
    assert am.incr[0..n] == am.incr[..n];
    r := am.(hist := hist, incr := am.incr[n..], dirty := true);
  }

  /** aofDelHistoryFiles() on the manifest; the unlinked files are the names of `am.hist`. */
  function DropHistory(am: Manifest): Manifest { am.(hist := [], dirty := true) }

  // ----- what every edit keeps -----

  ghost function NameBag(infos: seq<Info>): multiset<string> {
    if infos == [] then multiset{} else multiset{infos[0].name} + NameBag(infos[1..])
  }

  /** The names of all listed files, with multiplicity. */
  ghost function Names(am: Manifest): multiset<string> {
    (if am.base.Some? then multiset{am.base.value.name} else multiset{}) + NameBag(am.hist) + NameBag(am.incr)
  }

  ghost predicate Increasing(infos: seq<Info>) {
    forall i, j :: 0 <= i < j < |infos| ==> infos[i].fileSeq < infos[j].fileSeq
  }

  /** A name issued under the naming rules for sequence numbers up to these. */
  ghost predicate Issued(aofName: string, baseSeq: nat, incrSeq: nat, name: string) {
    || (exists n, r :: 1 <= n <= baseSeq && name == BaseName(aofName, n, r))
    || (exists n :: 1 <= n <= incrSeq && name == IncrName(aofName, n))
  }

  ghost predicate DistinctIssued(names: multiset<string>, aofName: string, baseSeq: nat, incrSeq: nat) {
    forall x :: x in names ==> names[x] == 1 && Issued(aofName, baseSeq, incrSeq, x)
  }

  /** At most one BASE, and INCR numbers that strictly increase and end at the current one. */
  ghost predicate WellOrdered(am: Manifest) {
    && 0 <= am.baseSeq && 0 <= am.incrSeq
    && (am.base.Some? ==> am.base.value.fileType.Base? && am.base.value.fileSeq == am.baseSeq >= 1)
    && (forall i :: 0 <= i < |am.incr| ==> am.incr[i].fileType.Incr? && 1 <= am.incr[i].fileSeq <= am.incrSeq)
    && (forall i :: 0 <= i < |am.hist| ==> am.hist[i].fileType.Hist? && am.hist[i].fileSeq >= 1)
    && Increasing(am.incr)
    && (am.incr != [] ==> am.incr[|am.incr| - 1].fileSeq == am.incrSeq)
  }

  /** Every edit keeps this: ordered lists, and distinct names that the rules have issued. */
  ghost predicate WellFormed(am: Manifest, aofName: string) {
    WellOrdered(am) && DistinctIssued(Names(am), aofName, am.baseSeq, am.incrSeq)
  }

  lemma {:induction false} NameBagAppend(a: seq<Info>, b: seq<Info>)
    ensures NameBag(a + b) == NameBag(a) + NameBag(b)
  {
    if a == [] {
      assert a + b == b;
    } else {
      assert (a + b)[1..] == a[1..] + b;
      NameBagAppend(a[1..], b);
    }
  }

  lemma {:induction false} NameBagOfHistory(a: seq<Info>)
    ensures NameBag(AsHistory(a)) == NameBag(a)
  {
    if a != [] {
      assert AsHistory(a)[1..] == AsHistory(a[1..]);
      NameBagOfHistory(a[1..]);
    }
  }

  lemma NameBagOfOne(info: Info)
    ensures NameBag([info]) == multiset{info.name}
  {
    assert [info][1..] == [];
  }

  lemma AddIssued(names: multiset<string>, name: string, aofName: string,
                  baseSeq: nat, incrSeq: nat, baseSeq': nat, incrSeq': nat)
    requires DistinctIssued(names, aofName, baseSeq, incrSeq) && name !in names
    requires baseSeq <= baseSeq' && incrSeq <= incrSeq' && Issued(aofName, baseSeq', incrSeq', name)
    ensures DistinctIssued(names + multiset{name}, aofName, baseSeq', incrSeq')
  {
    hide BaseName, IncrName;
    forall x | x in names
      ensures Issued(aofName, baseSeq', incrSeq', x)
    {
      assert Issued(aofName, baseSeq, incrSeq, x);
    }
  }

  lemma FreshBase(aofName: string, baseSeq: nat, incrSeq: nat, rdb: bool)
    ensures !Issued(aofName, baseSeq, incrSeq, BaseName(aofName, baseSeq + 1, rdb))
    ensures Issued(aofName, baseSeq + 1, incrSeq, BaseName(aofName, baseSeq + 1, rdb))
  {
    hide BaseName, IncrName;
    forall n, r | 1 <= n <= baseSeq
      ensures BaseName(aofName, baseSeq + 1, rdb) != BaseName(aofName, n, r)
    {
      NamesDiffer(aofName, baseSeq + 1, n, rdb, r);
    }
    forall n | 1 <= n <= incrSeq
      ensures BaseName(aofName, baseSeq + 1, rdb) != IncrName(aofName, n)
    {
      NamesDiffer(aofName, baseSeq + 1, n, rdb, rdb);
    }
  }

  lemma FreshIncr(aofName: string, baseSeq: nat, incrSeq: nat)
    ensures !Issued(aofName, baseSeq, incrSeq, IncrName(aofName, incrSeq + 1))
    ensures Issued(aofName, baseSeq, incrSeq + 1, IncrName(aofName, incrSeq + 1))
  {
    hide BaseName, IncrName;
    forall n, r | 1 <= n <= baseSeq
      ensures IncrName(aofName, incrSeq + 1) != BaseName(aofName, n, r)
    {
      NamesDiffer(aofName, n, incrSeq + 1, r, r);
    }
    forall n | 1 <= n <= incrSeq
      ensures IncrName(aofName, incrSeq + 1) != IncrName(aofName, n)
    {
      NamesDiffer(aofName, incrSeq + 1, n, true, true);
    }
  }

  /** A new BASE name has never been issued, and the old BASE only changes its list. */
  lemma NewBaseKeeps(am: Manifest, aofName: string, rdb: bool)
    requires WellFormed(am, aofName)
    ensures var r := NewBase(am, aofName, rdb);
      && WellFormed(r, aofName)
      && r.base.value.name !in Names(am)
      && Names(r) == Names(am) + multiset{r.base.value.name}
  {
    hide BaseName, IncrName, Issued, WellOrdered, Names;
    var r := NewBase(am, aofName, rdb);
    var name := r.base.value.name;
    NewBaseOrder(am, aofName, rdb);
    NewBaseNames(am, aofName, rdb);
    FreshBase(aofName, am.baseSeq, am.incrSeq, rdb);
    AddIssued(Names(am), name, aofName, am.baseSeq, am.incrSeq, r.baseSeq, r.incrSeq);
  }

  lemma NewBaseOrder(am: Manifest, aofName: string, rdb: bool)
    requires WellOrdered(am)
    ensures WellOrdered(NewBase(am, aofName, rdb)) && am.baseSeq >= 0 && am.incrSeq >= 0
  {
    hide BaseName;
  }

  lemma NewBaseNames(am: Manifest, aofName: string, rdb: bool)
    ensures var r := NewBase(am, aofName, rdb); Names(r) == Names(am) + multiset{r.base.value.name}
  {
    hide BaseName;
    if am.base.Some? {
      var former := am.base.value.(fileType := Hist);
      NameBagAppend([former], am.hist);
      NameBagOfOne(former);
    }
  }

  /** A new INCR name has never been issued, and the new file is the last of the list. */
  lemma NewIncrKeeps(am: Manifest, aofName: string, start: int)
    requires WellFormed(am, aofName)
    ensures var r := NewIncr(am, aofName, start);
      && WellFormed(r, aofName)
      && IncrName(aofName, r.incrSeq) !in Names(am)
      && Names(r) == Names(am) + multiset{IncrName(aofName, r.incrSeq)}
  {
    hide BaseName, IncrName, Issued, WellOrdered, Names;
    var r := NewIncr(am, aofName, start);
    NewIncrOrder(am, aofName, start);
    NewIncrNames(am, aofName, start);
    FreshIncr(aofName, am.baseSeq, am.incrSeq);
    AddIssued(Names(am), IncrName(aofName, r.incrSeq), aofName, am.baseSeq, am.incrSeq, r.baseSeq, r.incrSeq);
  }

  lemma NewIncrOrder(am: Manifest, aofName: string, start: int)
    requires WellOrdered(am)
    ensures WellOrdered(NewIncr(am, aofName, start)) && am.baseSeq >= 0 && am.incrSeq >= 0
  {
    hide IncrName;
  }

  lemma NewIncrNames(am: Manifest, aofName: string, start: int)
    ensures var r := NewIncr(am, aofName, start); Names(r) == Names(am) + multiset{IncrName(aofName, r.incrSeq)}
  {
    hide IncrName;
    var info := NewIncr(am, aofName, start).incr[|am.incr|];
    NameBagAppend(am.incr, [info]);
    NameBagOfOne(info);
  }

  /** Promotion to history neither loses nor duplicates a file, and leaves the file being written. */
  lemma MarkRewrittenKeeps(am: Manifest, aofName: string, writing: bool)
    requires WellFormed(am, aofName)
    ensures var r := MarkRewritten(am, writing);
      && WellFormed(r, aofName)
      && Names(r) == Names(am)
      && (am.incr != [] ==> r.incr == if writing then [am.incr[|am.incr| - 1]] else [])
  {
    hide DistinctIssued;
    var r := MarkRewritten(am, writing);
    MarkRewrittenNames(am, writing);
    MarkRewrittenOrder(am, writing);
  }

  lemma MarkRewrittenNames(am: Manifest, writing: bool)
    ensures Names(MarkRewritten(am, writing)) == Names(am)
  {
    hide NameBag, AsHistory;
    if am.incr != [] {
      var n := if writing then |am.incr| - 1 else |am.incr|;
      NameBagAppend(AsHistory(am.incr[..n]), am.hist);
      NameBagOfHistory(am.incr[..n]);
      NameBagAppend(am.incr[..n], am.incr[n..]);
      assert am.incr[..n] + am.incr[n..] == am.incr;
      BagShuffle(if am.base.Some? then multiset{am.base.value.name} else multiset{},
                 NameBag(am.hist), NameBag(am.incr[..n]), NameBag(am.incr[n..]));
    }
  }

  lemma BagShuffle(b: multiset<string>, h: multiset<string>, i: multiset<string>, j: multiset<string>)
    ensures b + (i + h) + j == b + h + (i + j)
  {
  }

  lemma MarkRewrittenOrder(am: Manifest, writing: bool)
    requires WellOrdered(am)
    ensures WellOrdered(MarkRewritten(am, writing))
  {
    if am.incr != [] {
      var n := if writing then |am.incr| - 1 else |am.incr|;
      var r := MarkRewritten(am, writing);
      forall i | 0 <= i < |r.hist|
        ensures r.hist[i].fileType.Hist? && r.hist[i].fileSeq >= 1
      {
        assert i >= n ==> r.hist[i] == am.hist[i - n];
      }
    }
  }

  /** Whatever edits the lists leaves the manifest marked, so that it is persisted. */
  lemma EditsAreMarked(am: Manifest, aofName: string, rdb: bool, start: int, writing: bool)
    ensures NewBase(am, aofName, rdb).dirty && NewIncr(am, aofName, start).dirty && DropHistory(am).dirty
    ensures MarkRewritten(am, writing).dirty || MarkRewritten(am, writing) == am
  {
  }

  /** The files to unlink are all of the history and nothing that stays listed. */
  lemma DropHistoryKeeps(am: Manifest, aofName: string)
    requires WellFormed(am, aofName)
    ensures var r := DropHistory(am);
      && WellFormed(r, aofName)
      && Names(am) == Names(r) + NameBag(am.hist)
      && Names(r) !! NameBag(am.hist)
  {
    hide BaseName, IncrName, Issued, NameBag, WellOrdered;
    var r := DropHistory(am);
    DropHistoryOrder(am);
    DropHistoryNames(am);
    hide Names;
    OnceEach(Names(am), Names(r), NameBag(am.hist), aofName, am.baseSeq, am.incrSeq);
  }

  lemma DropHistoryOrder(am: Manifest)
    requires WellOrdered(am)
    ensures WellOrdered(DropHistory(am)) && am.baseSeq >= 0 && am.incrSeq >= 0
  {
  }

  lemma DropHistoryNames(am: Manifest)
    ensures Names(am) == Names(DropHistory(am)) + NameBag(am.hist)
  {
    assert NameBag([]) == multiset{};
    BagShuffle(if am.base.Some? then multiset{am.base.value.name} else multiset{}, NameBag(am.hist), multiset{},
               NameBag(am.incr));
  }

  lemma OnceEach(all: multiset<string>, a: multiset<string>, b: multiset<string>, aofName: string, baseSeq: nat,
                 incrSeq: nat)
    requires DistinctIssued(all, aofName, baseSeq, incrSeq) && all == a + b
    ensures DistinctIssued(a, aofName, baseSeq, incrSeq) && a !! b
  {
    hide Issued;
    forall x | x in a
      ensures a[x] == 1 && x !in b && Issued(aofName, baseSeq, incrSeq, x)
    {
      assert x in all && all[x] == a[x] + b[x];
    }
  }

  // ----- the files a load reads -----

  /** The manifest a load of the file returns: the same lists, and the counters of the last entries. */
  function Reloaded(am: Manifest): Manifest {
    am.(dirty := false,
        baseSeq := if am.base.Some? then am.base.value.fileSeq else 0,
        incrSeq := if am.incr == [] then 0 else am.incr[|am.incr| - 1].fileSeq)
  }

  predicate NamedBase(info: Info, aofName: string) {
    info.name == BaseName(aofName, info.fileSeq, true) || info.name == BaseName(aofName, info.fileSeq, false)
  }

  ghost predicate NamedIncrs(infos: seq<Info>, aofName: string, incrSeq: int) {
    forall i :: 0 <= i < |infos| ==>
      infos[i].fileType.Incr? && 1 <= infos[i].fileSeq <= incrSeq
        && infos[i].name == IncrName(aofName, infos[i].fileSeq)
  }

  /** The BASE and INCR entries carry their numbers in their names, and the INCR numbers increase up to the
      counter. Unlike WellFormed() this asks nothing of the history. */
  ghost predicate Live(am: Manifest, aofName: string) {
    && 0 <= am.baseSeq && 0 <= am.incrSeq
    && (am.base.Some? ==>
          am.base.value.fileType.Base? && am.base.value.fileSeq == am.baseSeq >= 1 && NamedBase(am.base.value, aofName))
    && NamedIncrs(am.incr, aofName, am.incrSeq)
    && Increasing(am.incr)
    && (am.incr != [] ==> am.incr[|am.incr| - 1].fileSeq == am.incrSeq)
  }

  predicate BaseIs(am: Manifest, name: string) { am.base.Some? && am.base.value.name == name }

  predicate IncrHas(am: Manifest, name: string) { exists i :: 0 <= i < |am.incr| && am.incr[i].name == name }

  predicate HistHas(am: Manifest, name: string) { exists i :: 0 <= i < |am.hist| && am.hist[i].name == name }

  /** The files a load reads. */
  predicate Reads(am: Manifest, name: string) { BaseIs(am, name) || IncrHas(am, name) }

  /** No file a load reads is also history. */
  ghost predicate Apart(am: Manifest) {
    forall k :: 0 <= k < |am.hist| ==> !Reads(am, am.hist[k].name)
  }

  lemma IncrNamesDiffer(aofName: string, m: int, n: int)
    requires 0 <= m && 0 <= n && m != n
    ensures IncrName(aofName, m) != IncrName(aofName, n)
  {
    hide IncrName, BaseName;
    NamesDiffer(aofName, m, n, true, true);
  }

  lemma BaseNamesDiffer(info: Info, aofName: string, n: int, rdb: bool)
    requires NamedBase(info, aofName) && 0 <= info.fileSeq && 0 <= n
    ensures n != info.fileSeq ==> info.name != BaseName(aofName, n, rdb)
    ensures info.name != IncrName(aofName, n)
  {
    hide IncrName, BaseName;
    NamesDiffer(aofName, info.fileSeq, n, true, rdb);
    NamesDiffer(aofName, info.fileSeq, n, false, rdb);
  }

  /** The names of the INCR files tell them apart, and later numbers give names not in use. */
  lemma IncrsApart(am: Manifest, aofName: string, n: int)
    requires Live(am, aofName) && n > am.incrSeq
    ensures forall i, j :: 0 <= i < j < |am.incr| ==> am.incr[i].name != am.incr[j].name
    ensures !Reads(am, IncrName(aofName, n))
    ensures am.base.Some? ==> !IncrHas(am, am.base.value.name)
  {
    hide IncrName, BaseName, NamedBase;
    forall i, j | 0 <= i < j < |am.incr|
      ensures am.incr[i].name != am.incr[j].name
    {
      IncrNamesDiffer(aofName, am.incr[i].fileSeq, am.incr[j].fileSeq);
    }
    forall i | 0 <= i < |am.incr|
      ensures am.incr[i].name != IncrName(aofName, n) && !BaseIs(am, am.incr[i].name)
    {
      IncrNamesDiffer(aofName, am.incr[i].fileSeq, n);
      if am.base.Some? { BaseNamesDiffer(am.base.value, aofName, am.incr[i].fileSeq, true); }
    }
    if am.base.Some? { BaseNamesDiffer(am.base.value, aofName, n, true); }
  }

  lemma BaseApart(am: Manifest, aofName: string, n: int, rdb: bool)
    requires Live(am, aofName) && n > am.baseSeq
    ensures !Reads(am, BaseName(aofName, n, rdb))
  {
    hide IncrName, BaseName, NamedBase;
    forall i | 0 <= i < |am.incr|
      ensures am.incr[i].name != BaseName(aofName, n, rdb)
    {
      NamesDiffer(aofName, n, am.incr[i].fileSeq, rdb, rdb);
    }
    if am.base.Some? { BaseNamesDiffer(am.base.value, aofName, n, rdb); }
  }

  lemma NewBaseLive(am: Manifest, aofName: string, rdb: bool)
    requires Live(am, aofName)
    ensures var r := NewBase(am, aofName, rdb); Live(r, aofName) && !Reads(am, r.base.value.name)
  {
    hide IncrName, BaseName;
    BaseApart(am, aofName, am.baseSeq + 1, rdb);
  }

  lemma NewIncrLive(am: Manifest, aofName: string, start: int)
    requires Live(am, aofName)
    ensures var r := NewIncr(am, aofName, start);
      && Live(r, aofName) && !Reads(am, IncrName(aofName, r.incrSeq))
      && r.incr[..|am.incr|] == am.incr && r.incr[|am.incr|].name == IncrName(aofName, r.incrSeq)
  {
    hide IncrName, BaseName, NamedBase, NamedIncrs, Increasing, Reads;
    IncrsApart(am, aofName, am.incrSeq + 1);
    var n := am.incrSeq + 1;
    NamedNext(am.incr, aofName, am.incrSeq, Info(IncrName(aofName, n), n, Incr, start, -1));
  }

  lemma NamedNext(infos: seq<Info>, aofName: string, n: int, info: Info)
    requires 0 <= n && NamedIncrs(infos, aofName, n) && Increasing(infos)
    requires info.fileType.Incr? && info.fileSeq == n + 1 && info.name == IncrName(aofName, n + 1)
    ensures NamedIncrs(infos + [info], aofName, n + 1) && Increasing(infos + [info])
  {
    hide IncrName;
  }

  lemma MarkRewrittenLive(am: Manifest, aofName: string, writing: bool)
    requires Live(am, aofName)
    ensures Live(MarkRewritten(am, writing), aofName)
  {
    hide IncrName, BaseName, NamedBase;
  }

  /** A rewrite that starts without history ends with a history apart from the files it reads. */
  lemma RewrittenApart(am: Manifest, aofName: string, rdb: bool, writing: bool)
    requires Live(am, aofName) && am.hist == []
    ensures Apart(MarkRewritten(NewBase(am, aofName, rdb), writing))
  {
    hide IncrName, BaseName, NamedBase;
    var nb := NewBase(am, aofName, rdb);
    var r := MarkRewritten(nb, writing);
    NewBaseLive(am, aofName, rdb);
    IncrsApart(am, aofName, am.incrSeq + 1);
    IncrsApart(nb, aofName, nb.incrSeq + 1);
    forall k | 0 <= k < |r.hist|
      ensures !Reads(r, r.hist[k].name)
    {
      HistoryOf(am, aofName, rdb, writing, k);
    }
  }

  /** What is history after a rewrite was read before it, and is not the last INCR file still written. */
  lemma HistoryOf(am: Manifest, aofName: string, rdb: bool, writing: bool, k: nat)
    requires am.hist == []
    requires k < |MarkRewritten(NewBase(am, aofName, rdb), writing).hist|
    ensures var name := MarkRewritten(NewBase(am, aofName, rdb), writing).hist[k].name;
      || BaseIs(am, name)
      || exists i :: 0 <= i < (if writing then |am.incr| - 1 else |am.incr|) && am.incr[i].name == name
  {
    hide BaseName;
    var r := MarkRewritten(NewBase(am, aofName, rdb), writing);
    var n := if am.incr == [] then 0 else if writing then |am.incr| - 1 else |am.incr|;
    if k < n {
      assert r.hist[k].name == am.incr[k].name;
    }
  }
}
