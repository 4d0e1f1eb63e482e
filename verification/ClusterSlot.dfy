/** Hash slots of keys and of glob patterns. */
module ClusterSlot {
  import opened CString
  import Glob

  const SLOTS := 16384

  /** crc16() is a parameter: nothing here depends on which function it is. */
  function SlotOf(crc: string -> nat, part: string): nat { crc(part) % SLOTS }

  /** A bit of a number, the lowest first. */
  predicate BitOf(x: nat, k: nat) { if k == 0 then x % 2 == 1 else BitOf(x / 2, k - 1) }

  function Power2(n: nat): nat { if n == 0 then 1 else 2 * Power2(n - 1) }

  lemma {:induction false} RemainderBits(x: nat, n: nat, k: nat)
    requires Power2(n) > 0
    ensures BitOf(x % Power2(n), k) <==> k < n && BitOf(x, k)
    decreases k, n
  {
    if n == 0 {
      ZeroBits(k);
    } else {
      var m := Power2(n - 1);
      Halves(x, m);
      if k > 0 { RemainderBits(x / 2, n - 1, k - 1); }
    }
  }

  lemma {:induction false} ZeroBits(k: nat)
    ensures !BitOf(0, k)
  {
    if k > 0 { ZeroBits(k - 1); }
  }

  lemma Halves(x: nat, m: nat)
    requires m > 0
    ensures (x % (2 * m)) / 2 == (x / 2) % m && (x % (2 * m)) % 2 == x % 2
  {
    var q, r := x / 2 / m, x / 2 % m;
    var d, low := 2 * m, 2 * r + x % 2;
    assert x == d * q + low by {
      assert x / 2 == m * q + r;
      assert 2 * (m * q) == d * q;
    }
    var q', low' := x / d, x % d;
    assert x == d * q' + low';
    assert d * (q - q') == low' - low by { assert d * (q - q') == d * q - d * q'; }
    OnlyZero(d, q - q');
  }

  lemma OnlyZero(d: int, z: int)
    requires d > 0 && -d < d * z < d
    ensures z == 0
  {
    assert z >= 1 ==> d * z >= d;
    assert z <= -1 ==> d * z <= -d;
  }

  /** A slot is the low 14 bits of the hash. */
  lemma SlotIsLowBits(crc: string -> nat, part: string, k: nat)
    ensures BitOf(SlotOf(crc, part), k) <==> k < 14 && BitOf(crc(part), k)
  {
    assert Power2(7) == 128;
    assert Power2(14) == SLOTS;
    RemainderBits(crc(part), 14, k);
  }

  /** The first position from i on that holds c, or the length. */
  function Find(s: string, c: char, i: nat): (k: nat)
    requires i <= |s|
    ensures i <= k <= |s| && (k < |s| ==> s[k] == c) && forall j :: i <= j < k ==> s[j] != c
    decreases |s| - i
  {
    if i == |s| || s[i] == c then i else Find(s, c, i + 1)
  }

  /** The part of a key that is hashed: what is between the first brace and the first closing brace after it,
      unless that is empty or there is none. */
  function HashedPart(key: string): string {
    var s := Find(key, '{', 0);
    if s == |key| then key
    else
      var e := Find(key, '}', s + 1);
      if e == |key| || e == s + 1 then key else key[s + 1..e]
  }

  /** keyHashSlot() */
  method KeyHashSlot(crc: string -> nat, key: string) returns (slot: nat)
    ensures slot == SlotOf(crc, HashedPart(key))
  {
    var s := 0;
    while s < |key| && key[s] != '{'
      invariant 0 <= s <= |key| && forall j :: 0 <= j < s ==> key[j] != '{'
    {
      s := s + 1;
    }
    if s == |key| { return crc(key) % SLOTS; }
    var e := s + 1;
    while e < |key| && key[e] != '}'
      invariant s < e <= |key| && forall j :: s < j < e ==> key[j] != '}'
    {
      e := e + 1;
    }
    if e == |key| || e == s + 1 { return crc(key) % SLOTS; }
    return crc(key[s + 1..e]) % SLOTS;
  }

  /** The first brace of p is at s, or there is none, or it opens the empty tag. */
  ghost predicate BraceAt(p: string, i: nat, s: int)
    requires i <= |p|
  {
    var f := Find(p[..i], '{', 0);
    if s == -1 then f == i
    else if s == -2 then f + 1 < i && p[f + 1] == '}'
    else s == f < i && Find(p[..i], '}', f + 1) == i
  }

  lemma {:induction false} FindPrefix(s: string, t: string, c: char, i: nat)
    requires i <= |s| && s <= t
    ensures Find(s, c, i) < |s| ==> Find(t, c, i) == Find(s, c, i)
    ensures Find(s, c, i) == |s| ==> Find(t, c, i) >= |s|
    decreases |s| - i
  {
    if i < |s| && s[i] != c { FindPrefix(s, t, c, i + 1); }
  }

  lemma BraceNext(p: string, i: nat, s: int)
    requires i < |p| && BraceAt(p, i, s)
    ensures BraceAt(p, i + 1, if s == -1 && p[i] == '{' then i
                              else if s >= 0 && p[i] == '}' && i == s + 1 then -2 else s)
            || (s >= 0 && p[i] == '}' && i != s + 1)
  {
    hide Find;
    FindMore(p, i, '{', 0);
    if s >= 0 { FindMore(p, i, '}', s + 1); }
    if s == -1 && p[i] == '{' { FindAtEnd(p[..i + 1], '}'); }
  }

  lemma FindMore(p: string, i: nat, c: char, from: nat)
    requires from <= i < |p|
    ensures var f := Find(p[..i], c, from);
      Find(p[..i + 1], c, from) == if f < i then f else if p[i] == c then i else i + 1
  {
    hide Find;
    assert p[..i] <= p[..i + 1] && p[..i + 1][i] == p[i];
    FindPrefix(p[..i], p[..i + 1], c, from);
  }

  lemma FindAtEnd(s: string, c: char)
    ensures Find(s, c, |s|) == |s|
  {
  }

  /** A key that starts with a literal text closing a non-empty tag hashes that tag. */
  lemma TagDecides(p: string, i: nat, s: nat, key: string)
    requires i < |p| && BraceAt(p, i, s) && s >= 0 && p[i] == '}' && i != s + 1 && p[..i + 1] <= key
    ensures HashedPart(key) == p[s + 1..i]
  {
    hide Find;
    var a := p[..i];
    assert a <= key && key[i] == '}';
    FindPrefix(a, key, '{', 0);
    FindPrefix(a, key, '}', s + 1);
    assert key[s + 1..i] == p[s + 1..i];
  }

  /** A text that never closed a non-empty tag is hashed whole. */
  lemma WholeKey(p: string, s: int)
    requires BraceAt(p, |p|, s)
    ensures HashedPart(p) == p
  {
    assert p[..|p|] == p;
  }

  /** Where the scan gives up: a special character before a non-empty tag is closed. */
  predicate GivesUp(p: string) { exists i :: 0 <= i < |p| && Glob.IsSpecial(p[i]) && !ClosesTag(p[..i]) }

  /** A non-empty tag is closed in the text. */
  predicate ClosesTag(p: string) {
    var s := Find(p, '{', 0);
    s < |p| && (var e := Find(p, '}', s + 1); s + 1 < e < |p|)
  }

  lemma StillOpen(p: string, i: nat, s: int)
    requires i <= |p| && BraceAt(p, i, s)
    ensures !ClosesTag(p[..i])
  {}

  lemma NowClosed(p: string, i: nat, s: nat, k: nat)
    requires i < |p| && BraceAt(p, i, s) && p[i] == '}' && i != s + 1 && i < k <= |p|
    ensures ClosesTag(p[..k])
  {
    hide Find;
    assert p[..i] <= p[..k] && p[..k][i] == '}';
    FindPrefix(p[..i], p[..k], '{', 0);
    FindPrefix(p[..i], p[..k], '}', s + 1);
  }

  /** patternHashSlot(): -1 exactly when a special character comes before a closed tag; otherwise the slot of
      every key the pattern matches. */
  method PatternHashSlot(crc: string -> nat, pattern: string) returns (slot: int)
    ensures slot == -1 <==> GivesUp(pattern)
    ensures slot >= 0 ==> forall key :: Glob.Matches(pattern, key) ==> slot == SlotOf(crc, HashedPart(key))
  {
    hide ClosesTag, BraceAt, HashedPart, SlotOf, Glob.Matches;
    var s := -1;
    var i := 0;
    NoBraceYet(pattern);
    while i < |pattern|
      invariant 0 <= i <= |pattern| && -2 <= s < i
      invariant Glob.Literal(pattern[..i]) && BraceAt(pattern, i, s)
    {
      var c := pattern[i];
      StillOpen(pattern, i, s);
      BraceNext(pattern, i, s);
      if c == '*' || c == '?' || c == '[' { return -1; }
      if c == '\\' { return -1; }
      assert pattern[..i + 1] == pattern[..i] + [c];
      if s == -1 && c == '{' {
        s := i;
      } else if s >= 0 && c == '}' && i == s + 1 {
        s := -2;
      } else if s >= 0 && c == '}' {
        TagEnds(pattern, i, s);
        forall key | Glob.Matches(pattern, key) ensures HashedPart(key) == pattern[s + 1..i] {
          MatchTag(pattern, i, s, key);
        }
        return SlotOf(crc, pattern[s + 1..i]);
      }
      i := i + 1;
    }
    assert pattern[..i] == pattern;
    WholeKey(pattern, s);
    forall key | Glob.Matches(pattern, key) ensures key == pattern {
      MatchWhole(pattern, key);
    }
    return SlotOf(crc, pattern);
  }

  lemma NoBraceYet(p: string)
    ensures BraceAt(p, 0, -1) && Glob.Literal(p[..0])
  {
  }

  lemma MatchTag(p: string, i: nat, s: nat, key: string)
    requires i < |p| && Glob.Literal(p[..i + 1]) && BraceAt(p, i, s) && p[i] == '}' && i != s + 1
    requires Glob.Matches(p, key)
    ensures HashedPart(key) == p[s + 1..i]
  {
    hide BraceAt, HashedPart;
    assert p == p[..i + 1] + p[i + 1..];
    Glob.LiteralPrefix(p[..i + 1], p[i + 1..], key, false, 0);
    TagDecides(p, i, s, key);
  }

  lemma MatchWhole(p: string, key: string)
    requires Glob.Literal(p) && Glob.Matches(p, key)
    ensures key == p
  {
    assert p + "" == p;
    Glob.LiteralPrefix(p, "", key, false, 0);
  }

  /** Once a tag is closed, special characters no longer matter. */
  lemma TagEnds(p: string, i: nat, s: nat)
    requires i < |p| && Glob.Literal(p[..i + 1]) && BraceAt(p, i, s) && p[i] == '}' && i != s + 1
    ensures !GivesUp(p)
  {
    hide ClosesTag, BraceAt;
    forall k | 0 <= k <= i ensures !Glob.IsSpecial(p[k]) { assert p[..i + 1][k] == p[k]; }
    forall k | i < k < |p| ensures ClosesTag(p[..k]) { NowClosed(p, i, s, k); }
  }
}
