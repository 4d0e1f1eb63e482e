/** Glob-style matching, stringmatchlen() of util.c with nocase off. */
module Glob {

  /** A char as a signed byte, the way ranges compare them. */
  function SignedChar(c: char): int { if c as int >= 128 then c as int - 256 else c as int }

  /** A character class from after its opening bracket and caret: whether c is in it, and the pattern after it.
      A class that is never closed ends with the pattern. */
  function Class(p: string, c: char, found: bool): (r: (bool, string))
    ensures |r.1| <= |p|
    decreases |p|
  {
    if |p| >= 2 && p[0] == '\\' then Class(p[2..], c, found || p[1] == c)
    else if p == "" then (found, "")
    else if p[0] == ']' then (found, p[1..])
    else if |p| >= 3 && p[1] == '-' then
      var x, y := SignedChar(p[0]), SignedChar(p[2]);
      var lo, hi := if x > y then y else x, if x > y then x else y;
      Class(p[3..], c, found || lo <= SignedChar(c) <= hi)
    else Class(p[1..], c, found || p[0] == c)
  }

  function DropStars(p: string): (r: string)
    ensures |r| <= |p|
  {
    if p != "" && p[0] == '*' then DropStars(p[1..]) else p
  }

  /** The result, and skipLongerMatches. */
  type Outcome = (bool, bool)

  const MAX_NESTING := 1000

  function Match(p: string, s: string, skip: bool, nesting: nat): Outcome
    decreases |p| + |s|, 1
  {
    if nesting > MAX_NESTING then (false, skip)
    else if p == "" || s == "" then (p == "" && s == "", skip)
    else
      match p[0]
      case '*' =>
        var rest := DropStars(p[1..]);
        if rest == "" then (true, skip) else MatchStar(rest, s, skip, nesting)
      case '?' => Onward(p[1..], s[1..], skip, nesting)
      case '[' =>
        var negated := |p| >= 2 && p[1] == '^';
        var (found, rest) := Class(if negated then p[2..] else p[1..], s[0], false);
        if found != negated then Onward(rest, s[1..], skip, nesting) else (false, skip)
      case '\\' =>
        var q := if |p| >= 2 then p[1..] else p;
        if q[0] == s[0] then Onward(q[1..], s[1..], skip, nesting) else (false, skip)
      case _ => if p[0] == s[0] then Onward(p[1..], s[1..], skip, nesting) else (false, skip)
  }

  /** After one step: at the end of the string only stars may be left. */
  function Onward(p: string, s: string, skip: bool, nesting: nat): Outcome
    decreases |p| + |s|, 2
  {
    if s == "" then (DropStars(p) == "", skip) else Match(p, s, skip, nesting)
  }

  /** A star: the rest of the pattern from each position of the string on. */
  function MatchStar(rest: string, s: string, skip: bool, nesting: nat): Outcome
    decreases |rest| + |s|, 2
  {
    if s == "" then (false, true)
    else
      var (found, skip') := Match(rest, s, skip, nesting + 1);
      if found || skip' then (found, skip') else MatchStar(rest, s[1..], skip', nesting)
  }

  predicate Matches(pattern: string, s: string) { Match(pattern, s, false, 0).0 }

  predicate IsSpecial(c: char) { c == '*' || c == '?' || c == '[' || c == '\\' }

  predicate Literal(p: string) { forall i :: 0 <= i < |p| ==> !IsSpecial(p[i]) }

  /** What a pattern starts with literally, every string it matches starts with. */
  lemma {:induction false} LiteralPrefix(p: string, rest: string, s: string, skip: bool, nesting: nat)
    requires Literal(p) && Match(p + rest, s, skip, nesting).0
    ensures p <= s && (rest == "" ==> p == s)
  {
    if p != "" {
      assert (p + rest)[0] == p[0] && !IsSpecial(p[0]);
      assert (p + rest)[1..] == p[1..] + rest;
      if s[1..] == "" {
        AfterLiteral(p, rest);
      } else {
        LiteralPrefix(p[1..], rest, s[1..], skip, nesting);
      }
      assert s == [s[0]] + s[1..];
    } else {
      assert p + rest == rest;
    }
  }

  lemma AfterLiteral(p: string, rest: string)
    requires p != "" && Literal(p)
    ensures |p| > 1 ==> DropStars(p[1..] + rest) != ""
  {
    if |p| > 1 { assert (p[1..] + rest)[0] == p[1] && !IsSpecial(p[1]); }
  }

  // ----- what a pattern means -----

  /** The pattern after its first element, which is not a star. */
  function AfterOne(p: string): (r: string)
    requires p != "" && p[0] != '*'
    ensures |r| < |p|
  {
    if p[0] == '[' then Class(ClassBody(p), 'x', false).1
    else if p[0] == '\\' && |p| >= 2 then p[2..]
    else p[1..]
  }

  /** A class without its bracket and caret. */
  function ClassBody(p: string): (r: string)
    requires p != "" && p[0] == '['
    ensures |r| < |p|
  {
    if |p| >= 2 && p[1] == '^' then p[2..] else p[1..]
  }

  /** Whether the first element stands for the character. */
  predicate Admits(p: string, c: char)
    requires p != "" && p[0] != '*'
  {
    if p[0] == '?' then true
    else if p[0] == '[' then Class(ClassBody(p), c, false).0 != (|p| >= 2 && p[1] == '^')
    else if p[0] == '\\' && |p| >= 2 then p[1] == c
    else p[0] == c
  }

  /** The meaning of a pattern: a star stands for any characters, any other element for one. */
  ghost predicate Fits(p: string, s: string)
    decreases |p|
  {
    if p == "" then s == ""
    else if p[0] == '*' then exists k :: 0 <= k <= |s| && Fits(p[1..], s[k..])
    else s != "" && Admits(p, s[0]) && Fits(AfterOne(p), s[1..])
  }

  /** What may stand in a class. */
  datatype Member = One(c: char) | Escaped(c: char) | Span(first: char, last: char)

  function MemberText(m: Member): (r: string)
    ensures r != ""
  {
    match m
    case One(c) => [c]
    case Escaped(c) => "\\" + [c]
    case Span(first, last) => [first, '-', last]
  }

  function MembersText(ms: seq<Member>): string { if ms == [] then "" else MemberText(ms[0]) + MembersText(ms[1..]) }

  /** Bytes compare as signed, and the ends of a span may come in either order. */
  predicate Has(m: Member, x: char) {
    match m
    case One(c) => c == x
    case Escaped(c) => c == x
    case Span(first, last) =>
      SignedChar(first) <= SignedChar(x) <= SignedChar(last) || SignedChar(last) <= SignedChar(x) <= SignedChar(first)
  }

  /** What a span holds: in the lower and in the upper half of the bytes all between its ends, and across the halves
      all from the upper end on and up to the lower one. */
  lemma SpanExactly(first: char, last: char, x: char)
    requires first as int < 256 && last as int < 256 && x as int < 256
    ensures var lo, hi := if first < last then first else last, if first < last then last else first;
      Has(Span(first, last), x) <==>
        if lo as int < 128 <= hi as int then x >= hi || x <= lo else lo <= x <= hi
  {
  }

  /** Nothing in the text of the members can be read otherwise: no bare bracket or backslash, and no dash after a
      single character. */
  predicate Plain(ms: seq<Member>) {
    ms == []
    || (&& (ms[0].One? ==> ms[0].c != ']' && ms[0].c != '\\' && (|ms| == 1 || MemberText(ms[1])[0] != '-'))
        && (ms[0].Span? ==> ms[0].first != ']' && ms[0].first != '\\')
        && Plain(ms[1..]))
  }

  lemma ClassStep(m: Member, tail: string, x: char, found: bool)
    requires tail != ""
    requires m.One? ==> m.c != ']' && m.c != '\\' && tail[0] != '-'
    requires m.Span? ==> m.first != ']' && m.first != '\\'
    ensures Class(MemberText(m) + tail, x, found) == Class(tail, x, found || Has(m, x))
  {
    var p := MemberText(m) + tail;
    assert p[|MemberText(m)|..] == tail;
    if m.One? { assert p[1] == tail[0]; }
  }

  /** A class holds a character exactly if one of its members does, and ends at its bracket. */
  lemma {:induction false} ClassExactly(ms: seq<Member>, rest: string, x: char, found: bool)
    requires Plain(ms)
    ensures Class(MembersText(ms) + "]" + rest, x, found) == (found || exists i :: 0 <= i < |ms| && Has(ms[i], x), rest)
    decreases |ms|
  {
    hide Has;
    if ms == [] {
      assert ("]" + rest)[1..] == rest && MembersText(ms) + "]" + rest == "]" + rest;
    } else {
      hide Class;
      var m, more := ms[0], ms[1..];
      var tail := MembersText(more) + "]" + rest;
      assert MembersText(ms) + "]" + rest == MemberText(m) + tail;
      assert more != [] ==> tail[0] == MemberText(more[0])[0];
      ClassStep(m, tail, x, found);
      ClassExactly(more, rest, x, found || Has(m, x));
      SomeHas(ms, x);
    }
  }

  lemma SomeHas(ms: seq<Member>, x: char)
    requires ms != []
    ensures (exists i :: 0 <= i < |ms| && Has(ms[i], x))
       <==> Has(ms[0], x) || exists i :: 0 <= i < |ms[1..]| && Has(ms[1..][i], x)
  {
    hide Has;
    if exists i :: 0 <= i < |ms| && Has(ms[i], x) {
      var i :| 0 <= i < |ms| && Has(ms[i], x);
      if i > 0 { assert ms[1..][i - 1] == ms[i]; }
    }
    if exists i :: 0 <= i < |ms[1..]| && Has(ms[1..][i], x) {
      var i :| 0 <= i < |ms[1..]| && Has(ms[1..][i], x);
      assert ms[i + 1] == ms[1..][i];
    }
  }

  lemma {:induction false} ClassRest(p: string, c: char, d: char, f: bool, g: bool)
    ensures Class(p, c, f).1 == Class(p, d, g).1
    decreases |p|
  {
    if |p| >= 2 && p[0] == '\\' {
      ClassRest(p[2..], c, d, f || p[1] == c, g || p[1] == d);
    } else if p != "" && p[0] != ']' {
      if |p| >= 3 && p[1] == '-' {
        var x, y := SignedChar(p[0]), SignedChar(p[2]);
        var lo, hi := if x > y then y else x, if x > y then x else y;
        ClassRest(p[3..], c, d, f || lo <= SignedChar(c) <= hi, g || lo <= SignedChar(d) <= hi);
      } else {
        ClassRest(p[1..], c, d, f || p[0] == c, g || p[0] == d);
      }
    }
  }

  /** One element is one step. */
  lemma MatchOne(p: string, s: string, skip: bool, nesting: nat)
    requires p != "" && p[0] != '*' && s != "" && nesting <= MAX_NESTING
    ensures Match(p, s, skip, nesting)
         == if Admits(p, s[0]) then Onward(AfterOne(p), s[1..], skip, nesting) else (false, skip)
  {
    hide Class;
    if p[0] == '[' { ClassRest(ClassBody(p), s[0], 'x', false, false); }
  }

  lemma {:induction false} OnlyStars(p: string)
    ensures Fits(p, "") <==> DropStars(p) == ""
  {
    if p != "" && p[0] == '*' {
      OnlyStars(p[1..]);
      assert ""[0..] == "";
    }
  }

  /** A run of stars stands for what one star does. */
  lemma {:induction false} StarsFit(p: string, s: string)
    requires p != "" && p[0] == '*'
    ensures Fits(p, s) <==> exists k :: 0 <= k <= |s| && Fits(DropStars(p), s[k..])
    decreases |p|
  {
    var q := p[1..];
    assert DropStars(p) == DropStars(q);
    if q != "" && q[0] == '*' {
      forall k | 0 <= k <= |s|
        ensures Fits(q, s[k..]) <==> exists i :: 0 <= i <= |s| - k && Fits(DropStars(q), s[k..][i..])
      {
        StarsFit(q, s[k..]);
      }
      if Fits(p, s) {
        var k :| 0 <= k <= |s| && Fits(q, s[k..]);
        var i :| 0 <= i <= |s| - k && Fits(DropStars(q), s[k..][i..]);
        assert s[k..][i..] == s[k + i..];
      }
      if exists k :: 0 <= k <= |s| && Fits(DropStars(p), s[k..]) {
        var k :| 0 <= k <= |s| && Fits(DropStars(p), s[k..]);
        assert s[k..][0..] == s[k..];
      }
    }
  }

  ghost predicate FitsLater(p: string, s: string) { exists k :: 0 <= k <= |s| && Fits(p, s[k..]) }

  lemma FitsLaterNext(p: string, s: string)
    requires s != ""
    ensures FitsLater(p, s) <==> Fits(p, s) || FitsLater(p, s[1..])
  {
    hide Fits;
    assert s[0..] == s;
    if FitsLater(p, s[1..]) {
      var k :| 0 <= k <= |s[1..]| && Fits(p, s[1..][k..]);
      assert s[1..][k..] == s[k + 1..];
    }
    if FitsLater(p, s) {
      var k :| 0 <= k <= |s| && Fits(p, s[k..]);
      if k > 0 { assert s[1..][k - 1..] == s[k..]; }
    }
  }

  lemma StarsLater(p: string, s: string)
    requires p != "" && p[0] == '*'
    ensures Fits(p, s) <==> FitsLater(DropStars(p), s)
  {
    hide Fits, DropStars;
    StarsFit(p, s);
  }

  /** Whatever the limits on the search, only strings that fit are found. */
  lemma {:induction false} MatchSound(p: string, s: string, skip: bool, nesting: nat)
    requires Match(p, s, skip, nesting).0
    ensures Fits(p, s)
    decreases |p| + |s|, 1
  {
    if p != "" && s != "" {
      hide Match, Fits, DropStars, Admits, AfterOne;
      if p[0] == '*' {
        MatchStars(p, s, skip, nesting);
        StarsLater(p, s);
        if DropStars(p) == "" {
          AllFits(s);
        } else {
          StarSound(DropStars(p), s, skip, nesting);
        }
      } else {
        NotTooDeep(p, s, skip, nesting);
        MatchOne(p, s, skip, nesting);
        FitsOne(p, s);
        if s[1..] == "" {
          OnlyStars(AfterOne(p));
        } else {
          MatchSound(AfterOne(p), s[1..], skip, nesting);
        }
      }
    }
  }

  lemma NotTooDeep(p: string, s: string, skip: bool, nesting: nat)
    requires Match(p, s, skip, nesting).0
    ensures nesting <= MAX_NESTING
  {
  }

  lemma MatchStars(p: string, s: string, skip: bool, nesting: nat)
    requires p != "" && p[0] == '*' && s != ""
    ensures |DropStars(p)| < |p| && (DropStars(p) == "" || DropStars(p)[0] != '*')
    ensures Match(p, s, skip, nesting)
         == if nesting > MAX_NESTING then (false, skip)
            else if DropStars(p) == "" then (true, skip) else MatchStar(DropStars(p), s, skip, nesting)
  {
    Dropped(p[1..]);
  }

  lemma {:induction false} Dropped(p: string)
    ensures DropStars(p) == "" || DropStars(p)[0] != '*'
  {
    if p != "" && p[0] == '*' { Dropped(p[1..]); }
  }

  lemma AllFits(s: string)
    ensures FitsLater("", s)
  {
    assert Fits("", s[|s|..]);
  }

  lemma FitsOne(p: string, s: string)
    requires p != "" && p[0] != '*'
    ensures Fits(p, s) <==> s != "" && Admits(p, s[0]) && Fits(AfterOne(p), s[1..])
  {
    hide Admits, AfterOne;
  }

  lemma {:induction false} StarSound(rest: string, s: string, skip: bool, nesting: nat)
    requires MatchStar(rest, s, skip, nesting).0
    ensures FitsLater(rest, s)
    decreases |rest| + |s|, 2
  {
    hide Match, Fits, FitsLater;
    if s != "" {
      var (found, skip') := Match(rest, s, skip, nesting + 1);
      FitsLaterNext(rest, s);
      if found { MatchSound(rest, s, skip, nesting + 1); } else { StarSound(rest, s[1..], skip', nesting); }
    }
  }

  function CountStars(p: string): nat { if p == "" then 0 else (if p[0] == '*' then 1 else 0) + CountStars(p[1..]) }

  lemma {:induction false} CountSuffix(p: string, k: nat)
    requires k <= |p|
    ensures CountStars(p[k..]) <= CountStars(p)
  {
    if k > 0 {
      CountSuffix(p[1..], k - 1);
      assert p[1..][k - 1..] == p[k..];
    } else {
      assert p[0..] == p;
    }
  }

  /** One step of a class. */
  lemma ClassNext(p: string, c: char, f: bool) returns (k: nat, g: bool)
    requires p != "" && !(p[0] == ']' || (p[0] == '\\' && |p| == 1))
    ensures 0 < k <= |p| && Class(p, c, f) == Class(p[k..], c, g)
  {
    hide SignedChar;
    if |p| >= 2 && p[0] == '\\' {
      k, g := 2, f || p[1] == c;
    } else if |p| >= 3 && p[1] == '-' {
      var x, y := SignedChar(p[0]), SignedChar(p[2]);
      var lo, hi := if x > y then y else x, if x > y then x else y;
      k, g := 3, f || lo <= SignedChar(c) <= hi;
    } else {
      k, g := 1, f || p[0] == c;
    }
  }

  lemma ClassLast(p: string, c: char, f: bool)
    requires p == "" || p[0] == ']' || (p[0] == '\\' && |p| == 1)
    ensures Class(p, c, f).1 == if p == "" then "" else p[1..]
  {
    if p != "" && p[0] == '\\' { assert p[1..] == ""; }
  }

  lemma {:induction false} ClassSuffix(p: string, c: char, f: bool) returns (k: nat)
    ensures k <= |p| && Class(p, c, f).1 == p[k..]
    decreases |p|
  {
    hide Class;
    if p == "" || p[0] == ']' || (p[0] == '\\' && |p| == 1) {
      ClassLast(p, c, f);
      k := if p == "" then 0 else 1;
    } else {
      var n, g := ClassNext(p, c, f);
      k := ClassSuffix(p[n..], c, g);
      assert p[n..][k..] == p[n + k..];
      k := n + k;
    }
  }

  lemma CountAfterOne(p: string)
    requires p != "" && p[0] != '*'
    ensures CountStars(AfterOne(p)) <= CountStars(p)
  {
    hide CountStars, Class;
    if p[0] == '[' {
      var body := ClassBody(p);
      var k := ClassSuffix(body, 'x', false);
      CountSuffix(body, k);
      CountSuffix(p, |p| - |body|);
      assert p[|p| - |body|..] == body;
    } else {
      CountSuffix(p, if p[0] == '\\' && |p| >= 2 then 2 else 1);
    }
  }

  lemma {:induction false} CountDropped(p: string)
    requires p != "" && p[0] == '*'
    ensures CountStars(DropStars(p)) < CountStars(p)
  {
    if |p| > 1 && p[1] == '*' { CountDropped(p[1..]); }
  }

  /** The search is exact, and when it tells the stars before not to try further, nothing further would fit. */
  lemma {:induction false} MatchExact(p: string, s: string, nesting: nat)
    requires s != "" && nesting + CountStars(p) <= MAX_NESTING
    ensures Match(p, s, false, nesting).0 <==> Fits(p, s)
    ensures Match(p, s, false, nesting).1 ==> !FitsLater(p, s)
    decreases |p| + |s|, 1
  {
    if p == "" {
      assert Match(p, s, false, nesting) == (false, false);
    } else {
      hide Match, MatchStar, Fits, FitsLater, DropStars, Admits, AfterOne, CountStars;
      if p[0] == '*' {
        MatchStars(p, s, false, nesting);
        StarsLater(p, s);
        CountDropped(p);
        if DropStars(p) == "" {
          AllFits(s);
        } else {
          StarExact(DropStars(p), s, nesting);
          StarNowhere(p, s);
        }
      } else {
        OneExact(p, s, nesting);
      }
    }
  }

  lemma OneExact(p: string, s: string, nesting: nat)
    requires s != "" && p != "" && p[0] != '*' && nesting + CountStars(p) <= MAX_NESTING
    ensures Match(p, s, false, nesting).0 <==> Fits(p, s)
    ensures Match(p, s, false, nesting).1 ==> !FitsLater(p, s)
    decreases |p| + |s|, 0
  {
    hide Match, MatchStar, Fits, FitsLater, DropStars, Admits, AfterOne, CountStars;
    MatchOne(p, s, false, nesting);
    FitsOne(p, s);
    CountAfterOne(p);
    if Admits(p, s[0]) {
      if s[1..] == "" {
        OnlyStars(AfterOne(p));
      } else {
        MatchExact(AfterOne(p), s[1..], nesting);
        LaterOne(p, s);
      }
    }
  }

  lemma LaterOne(p: string, s: string)
    requires p != "" && p[0] != '*' && s != ""
    ensures FitsLater(p, s) ==> FitsLater(AfterOne(p), s[1..])
  {
    hide Fits, Admits, AfterOne;
    if FitsLater(p, s) {
      var k :| 0 <= k <= |s| && Fits(p, s[k..]);
      FitsOne(p, s[k..]);
      assert s[k..][1..] == s[1..][k..];
    }
  }

  lemma StarNowhere(p: string, s: string)
    requires p != "" && p[0] == '*'
    ensures FitsLater(p, s) ==> Fits(p, s)
  {
    hide Fits, DropStars;
    if FitsLater(p, s) {
      var k :| 0 <= k <= |s| && Fits(p, s[k..]);
      StarsLater(p, s[k..]);
      StarsLater(p, s);
      var i :| 0 <= i <= |s[k..]| && Fits(DropStars(p), s[k..][i..]);
      assert s[k..][i..] == s[k + i..];
    }
  }

  lemma {:induction false} StarExact(rest: string, s: string, nesting: nat)
    requires rest != "" && rest[0] != '*' && nesting + 1 + CountStars(rest) <= MAX_NESTING
    ensures MatchStar(rest, s, false, nesting).0 <==> FitsLater(rest, s)
    ensures MatchStar(rest, s, false, nesting).1 ==> !FitsLater(rest, s)
    decreases |rest| + |s|, 2
  {
    hide Match, Fits, FitsLater, CountStars;
    if s == "" {
      NothingFits(rest);
    } else {
      var (found, skip) := Match(rest, s, false, nesting + 1);
      MatchExact(rest, s, nesting + 1);
      FitsLaterNext(rest, s);
      if !found && !skip { StarExact(rest, s[1..], nesting); }
    }
  }

  lemma NothingFits(p: string)
    requires p != "" && p[0] != '*'
    ensures !FitsLater(p, "")
  {
  }

  /** A pattern with no more stars than the search may nest matches exactly the strings that fit it, the empty
      string apart: that one only the empty pattern matches. */
  lemma MatchesExactly(p: string, s: string)
    requires CountStars(p) <= MAX_NESTING
    ensures s != "" ==> (Matches(p, s) <==> Fits(p, s))
    ensures Matches(p, "") <==> p == ""
  {
    hide Fits, CountStars;
    if s != "" { MatchExact(p, s, 0); }
  }

  /** No pattern matches a string that does not fit it. */
  lemma MatchesSound(p: string, s: string)
    requires Matches(p, s)
    ensures Fits(p, s)
  {
    MatchSound(p, s, false, 0);
  }

  function Alternating(k: nat): string { if k == 0 then "" else "*a" + Alternating(k - 1) }

  function As(m: nat): string { if m == 0 then "" else "a" + As(m - 1) }

  lemma {:induction false} TooDeep(k: nat, m: nat, nesting: nat)
    requires k >= 1 && nesting + k > MAX_NESTING
    ensures !Match(Alternating(k), As(m), false, nesting).0
    decreases k, m
  {
    if m > 0 && nesting <= MAX_NESTING {
      hide Match, MatchStar, Onward;
      var p := Alternating(k);
      assert p[1..] == "a" + Alternating(k - 1) && DropStars(p) == p[1..];
      MatchStars(p, As(m), false, nesting);
      StarTooDeep(k, m, nesting);
    }
  }

  lemma {:induction false} StarTooDeep(k: nat, m: nat, nesting: nat)
    requires k >= 1 && nesting + k > MAX_NESTING && nesting <= MAX_NESTING
    ensures !MatchStar("a" + Alternating(k - 1), As(m), false, nesting).0
    decreases k, m, 0
  {
    hide Match, Onward;
    var rest := "a" + Alternating(k - 1);
    if m > 0 {
      var s := As(m);
      assert s[1..] == As(m - 1);
      if nesting < MAX_NESTING {
        MatchOne(rest, s, false, nesting + 1);
        assert rest[1..] == Alternating(k - 1);
        OnwardTooDeep(k, m, nesting);
      } else {
        DeepFails(rest, s, nesting + 1);
      }
      StarTooDeep(k, m - 1, nesting);
    }
  }

  lemma DeepFails(p: string, s: string, nesting: nat)
    requires nesting > MAX_NESTING
    ensures Match(p, s, false, nesting) == (false, false)
  {
  }

  lemma OnwardTooDeep(k: nat, m: nat, nesting: nat)
    requires k >= 1 && m > 0 && nesting + k > MAX_NESTING && nesting < MAX_NESTING
    ensures !Onward(Alternating(k - 1), As(m - 1), false, nesting + 1).0
    decreases k - 1, m
  {
    hide Match;
    if m == 1 {
      assert DropStars(Alternating(k - 1)) != "";
    } else {
      TooDeep(k - 1, m - 1, nesting + 1);
    }
  }

  lemma {:induction false} AlternatingFits(k: nat)
    ensures Fits(Alternating(k), As(k)) && CountStars(Alternating(k)) == k
  {
    if k > 0 {
      AlternatingFits(k - 1);
      var p, s := Alternating(k), As(k);
      assert p[1..][1..] == Alternating(k - 1) && s[1..] == As(k - 1) && s[0..] == s;
      assert Fits(p[1..], s);
    }
  }

  /** One star more, and a string that fits is not found. */
  lemma LimitIsReached()
    ensures var (p, s) := (Alternating(MAX_NESTING + 1), As(MAX_NESTING + 1));
      CountStars(p) == MAX_NESTING + 1 && Fits(p, s) && !Matches(p, s)
  {
    AlternatingFits(MAX_NESTING + 1);
    TooDeep(MAX_NESTING + 1, MAX_NESTING + 1, 0);
  }

  /** In front of some pattern and some string the character does not stand for just itself. */
  ghost predicate NotItself(c: char, rest: string, s: string) {
    Fits([c] + rest, s) != (s != "" && s[0] == c && Fits(rest, s[1..]))
  }

  /** The special characters are exactly those that do not always stand for themselves. */
  lemma SpecialExactly(c: char)
    ensures IsSpecial(c) <==> exists rest, s :: NotItself(c, rest, s)
  {
    if IsSpecial(c) {
      var rest, s := SpecialUse(c);
      assert NotItself(c, rest, s);
    } else {
      forall rest, s ensures !NotItself(c, rest, s) { StandsForItself(c, rest, s); }
    }
  }

  lemma StandsForItself(c: char, rest: string, s: string)
    requires !IsSpecial(c)
    ensures !NotItself(c, rest, s)
  {
    var p := [c] + rest;
    assert p[0] == c && p[1..] == rest;
  }

  lemma SpecialUse(c: char) returns (rest: string, s: string)
    requires IsSpecial(c)
    ensures NotItself(c, rest, s)
  {
    rest, s := if c == '\\' then "a" else "", if c == '*' then "" else if c == '[' then "[" else "a";
    var p := [c] + rest;
    assert p[0] == c && p[1..] == rest;
    if c == '*' {
      assert ""[0..] == "";
      assert Fits("", ""[0..]);
    } else if c == '?' {
      assert p == "?" && AfterOne(p) == "" && "a"[1..] == "";
    } else if c == '[' {
      assert p == "[" && ClassBody(p) == "" && !Admits(p, '[');
      assert "["[1..] == "";
    } else {
      assert p == "\\a" && AfterOne(p) == p[2..] == "" && "a"[1..] == "";
    }
  }
}
