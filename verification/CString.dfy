/** The parts of the C string library the models share. A byte is a `char`; the end of a sequence is the
    terminating null of a C string. */
module CString {

  datatype Option<+T> = None | Some(value: T)

  /** isspace() and isprint() in the C locale. */
  predicate IsSpace(c: char) { c == ' ' || '\t' <= c <= '\r' }
  predicate IsPrint(c: char) { ' ' <= c <= '~' }

  /** White space is the blank, and tab, newline, vertical tab, form feed and carriage return. */
  lemma SpaceExactly(c: char)
    ensures IsSpace(c) <==> c as int in {32, 9, 10, 11, 12, 13}
  {
  }

  predicate IsByte(c: char) { c as int < 256 }
  predicate IsBytes(s: string) { forall i :: 0 <= i < |s| ==> IsByte(s[i]) }

  // ----- decimal numbers -----

  function Digit(d: nat): char
    requires d < 10
  {
    ('0' as int + d) as char
  }

  predicate IsDigit(c: char) { '0' <= c <= '9' }

  function DigitValue(c: char): nat
    requires IsDigit(c)
  {
    c as int - '0' as int
  }

  /** ll2string() for the non-negative counts and lengths the log holds. */
  function Decimal(n: nat): (s: string)
    ensures s != "" && forall i :: 0 <= i < |s| ==> IsDigit(s[i])
    ensures n > 0 ==> s[0] != '0'
  {
    if n < 10 then [Digit(n)] else Decimal(n / 10) + [Digit(n % 10)]
  }

  /** Reading digits until something else turns up, as atoi() and strtol() do. */
  function ReadDigits(t: string, acc: nat): nat {
    if t == "" || !IsDigit(t[0]) then acc else ReadDigits(t[1..], 10 * acc + DigitValue(t[0]))
  }

  /** atoi() and strtol() in base ten, on numbers that fit. */
  function Number(t: string): int {
    if t == "" then 0
    else if IsSpace(t[0]) then Number(t[1..])
    else if t[0] == '-' then -(ReadDigits(t[1..], 0) as int)
    else if t[0] == '+' then ReadDigits(t[1..], 0)
    else ReadDigits(t, 0)
  }

  /** The value of a row of digits. */
  function DigitsValue(ds: string): nat
    requires forall i :: 0 <= i < |ds| ==> IsDigit(ds[i])
  {
    if ds == "" then 0 else 10 * DigitsValue(ds[..|ds| - 1]) + DigitValue(ds[|ds| - 1])
  }

  lemma {:induction false} ReadDigitsExactly(ds: string, rest: string)
    requires (forall i :: 0 <= i < |ds| ==> IsDigit(ds[i])) && StartsNoDigit(rest)
    ensures ReadDigits(ds + rest, 0) == DigitsValue(ds)
  {
    if ds == "" {
      assert ds + rest == rest;
    } else {
      var n := |ds| - 1;
      ReadDigitsAppend(ds, rest, 0);
      assert ds == ds[..n] + [ds[n]];
      ReadDigitsAppend(ds[..n], [ds[n]], 0);
      ReadDigitsExactly(ds[..n], "");
      assert ds[..n] + "" == ds[..n] && [ds[n]][1..] == "";
    }
  }

  lemma NumberHere(sign: string, ds: string, rest: string)
    requires sign in ["", "+", "-"] && (forall i :: 0 <= i < |ds| ==> IsDigit(ds[i])) && StartsNoDigit(rest)
    requires ds == "" && sign == "" ==> rest == "" || (!IsSpace(rest[0]) && rest[0] != '-' && rest[0] != '+')
    ensures Number(sign + ds + rest) == if sign == "-" then -(DigitsValue(ds) as int) else DigitsValue(ds)
  {
    hide ReadDigits, DigitsValue, Number;
    ReadDigitsExactly(ds, rest);
    NoDigits(rest);
    var t := sign + ds + rest;
    NumberStart(t);
    if sign == "" {
      assert t == ds + rest;
    } else {
      assert t[1..] == ds + rest && t[0] == sign[0];
    }
  }

  lemma NumberStart(t: string)
    ensures t == "" ==> Number(t) == 0
    ensures t != "" && !IsSpace(t[0]) ==>
              Number(t) == if t[0] == '-' then -(ReadDigits(t[1..], 0) as int)
                           else ReadDigits(if t[0] == '+' then t[1..] else t, 0)
  {
    hide ReadDigits;
  }

  lemma NoDigits(rest: string)
    requires StartsNoDigit(rest)
    ensures ReadDigits(rest, 0) == 0
  {
  }

  /** White space is skipped, one sign is taken, digits are read as far as they go; without digits it is zero. */
  lemma {:induction false} NumberExactly(space: string, sign: string, ds: string, rest: string)
    requires (forall i :: 0 <= i < |space| ==> IsSpace(space[i])) && sign in ["", "+", "-"]
    requires (forall i :: 0 <= i < |ds| ==> IsDigit(ds[i])) && StartsNoDigit(rest)
    requires ds == "" && sign == "" ==> rest == "" || (!IsSpace(rest[0]) && rest[0] != '-' && rest[0] != '+')
    ensures Number(space + (sign + ds + rest)) == if sign == "-" then -(DigitsValue(ds) as int) else DigitsValue(ds)
    decreases |space|
  {
    hide DigitsValue, ReadDigits;
    var t := sign + ds + rest;
    if space == "" {
      assert space + t == t;
      NumberHere(sign, ds, rest);
    } else {
      assert (space + t)[1..] == space[1..] + t && (space + t)[0] == space[0];
      NumberExactly(space[1..], sign, ds, rest);
    }
  }

  predicate StartsNoDigit(t: string) { t == "" || !IsDigit(t[0]) }

  lemma {:induction false} ReadDigitsAppend(a: string, b: string, acc: nat)
    requires forall i :: 0 <= i < |a| ==> IsDigit(a[i])
    ensures ReadDigits(a + b, acc) == ReadDigits(b, ReadDigits(a, acc))
  {
    if a == "" {
      assert a + b == b;
    } else {
      assert (a + b)[1..] == a[1..] + b;
      ReadDigitsAppend(a[1..], b, 10 * acc + DigitValue(a[0]));
    }
  }

  lemma {:induction false} ReadDecimal(n: nat, rest: string)
    requires StartsNoDigit(rest)
    ensures ReadDigits(Decimal(n) + rest, 0) == n
  {
    if n < 10 {
      assert (Decimal(n) + rest)[1..] == rest;
    } else {
      var last := [Digit(n % 10)];
      assert Decimal(n) + rest == Decimal(n / 10) + (last + rest);
      ReadDigitsAppend(Decimal(n / 10), last + rest, 0);
      ReadDecimal(n / 10, "");
      assert Decimal(n / 10) + "" == Decimal(n / 10);
      assert (last + rest)[1..] == rest;
    }
  }

  lemma NumberOfDecimal(n: nat, rest: string)
    requires StartsNoDigit(rest)
    ensures Number(Decimal(n) + rest) == n
  {
    ReadDecimal(n, rest);
  }

  lemma {:induction false} ReadDigitsGrows(t: string, acc: nat)
    ensures ReadDigits(t, acc) >= acc
  {
    if t != "" && IsDigit(t[0]) {
      ReadDigitsGrows(t[1..], 10 * acc + DigitValue(t[0]));
    }
  }

  function Pow10(k: nat): nat { if k == 0 then 1 else 10 * Pow10(k - 1) }

  lemma {:induction false} DecimalLength(n: nat, k: nat)
    requires 1 <= k && n < Pow10(k)
    ensures |Decimal(n)| <= k
  {
    if n >= 10 {
      DecimalLength(n / 10, k - 1);
    }
  }

  lemma DecimalBound(n: nat)
    requires n < 0x8000_0000_0000_0000
    ensures |Decimal(n)| <= 19
  {
    assert Pow10(5) == 100000;
    assert Pow10(10) == 100000 * 100000 by { Pow10Add(5, 5); }
    assert Pow10(15) == 100000 * 100000 * 100000 by { Pow10Add(10, 5); }
    assert Pow10(4) == 10000;
    Pow10Add(15, 4);
    DecimalLength(n, 19);
  }

  lemma {:induction false} Pow10Add(a: nat, b: nat)
    ensures Pow10(a + b) == Pow10(a) * Pow10(b)
  {
    if b > 0 {
      Pow10Add(a, b - 1);
      assert Pow10(a + b) == 10 * (Pow10(a) * Pow10(b - 1));
      assert Pow10(b) == 10 * Pow10(b - 1);
    }
  }

  // ----- lines -----

  /** How many bytes fgets() takes from `t`: through the first newline, the limit, or the end. */
  function LineLength(t: string, limit: nat): (n: nat)
    ensures n <= |t| && n <= limit
    ensures t != "" && limit > 0 ==> n > 0
  {
    if t == "" || limit == 0 then 0
    else if t[0] == '\n' then 1
    else 1 + LineLength(t[1..], limit - 1)
  }

  predicate NoNewline(h: string) { forall i :: 0 <= i < |h| ==> h[i] != '\n' }

  lemma {:induction false} LineOf(h: string, rest: string, limit: nat)
    requires NoNewline(h) && |h| < limit
    ensures LineLength(h + "\n" + rest, limit) == |h| + 1
  {
    var t := h + "\n" + rest;
    if h != "" {
      assert t[1..] == h[1..] + "\n" + rest;
      LineOf(h[1..], rest, limit - 1);
    }
  }

  lemma {:induction false} LineAtEnd(h: string, limit: nat)
    requires NoNewline(h) && |h| <= limit
    ensures LineLength(h, limit) == |h|
  {
    if h != "" {
      LineAtEnd(h[1..], limit - 1);
    }
  }

  lemma {:induction false} LineTaken(h: string, rest: string, limit: nat)
    requires 0 < |h| <= limit && NoNewline(h[..|h| - 1])
    requires h[|h| - 1] == '\n' || |h| == limit || rest == ""
    ensures LineLength(h + rest, limit) == |h|
  {
    var t := h + rest;
    assert t[0] == h[0];
    if h[0] != '\n' || |h| > 1 {
      assert t[1..] == h[1..] + rest;
      if |h| > 1 {
        assert h[0] == h[..|h| - 1][0];
        assert h[1..][..|h| - 2] == h[..|h| - 1][1..];
        LineTaken(h[1..], rest, limit - 1);
      }
    }
  }

  /** The reader's line is the only one. */
  lemma {:induction false} LineIsLine(t: string, limit: nat)
    requires t != "" && limit > 0
    ensures var n := LineLength(t, limit);
      && 0 < n <= |t| && n <= limit && NoNewline(t[..n - 1])
      && (t[n - 1] == '\n' || n == limit || n == |t|)
  {
    var n := LineLength(t, limit);
    if t[0] != '\n' && limit > 1 && |t| > 1 {
      LineIsLine(t[1..], limit - 1);
      assert t[..n - 1] == [t[0]] + t[1..][..n - 2];
    }
  }

  // ----- case -----

  function LowerChar(c: char): char { if 'A' <= c <= 'Z' then (c as int + 32) as char else c }

  function Lower(s: string): (r: string)
    ensures |r| == |s|
  {
    seq(|s|, i requires 0 <= i < |s| => LowerChar(s[i]))
  }

  /** strcasecmp() == 0 */
  predicate SameIgnoringCase(a: string, b: string) { Lower(a) == Lower(b) }

  const CAPITALS := "ABCDEFGHIJKLMNOPQRSTUVWXYZ"
  const SMALLS := "abcdefghijklmnopqrstuvwxyz"

  /** The same letter as a capital and as a small one. */
  ghost predicate CaseOf(capital: char, small: char) {
    exists i :: 0 <= i < |CAPITALS| && CAPITALS[i] == capital && SMALLS[i] == small
  }

  /** Letter by letter the same, or the same letter in the other case. */
  ghost predicate CaseVariants(a: string, b: string) {
    |a| == |b| && forall i :: 0 <= i < |a| ==> a[i] == b[i] || CaseOf(a[i], b[i]) || CaseOf(b[i], a[i])
  }

  lemma Alphabet(i: nat)
    requires i < 26
    ensures |CAPITALS| == |SMALLS| == 26
    ensures CAPITALS[i] as int == 'A' as int + i && SMALLS[i] as int == 'a' as int + i
  {
    if i < 13 {
      FirstHalf(i);
    } else {
      SecondHalf(i - 13);
    }
  }

  lemma FirstHalf(i: nat)
    requires i < 13
    ensures CAPITALS[i] as int == 'A' as int + i && SMALLS[i] as int == 'a' as int + i
  {
  }

  lemma SecondHalf(i: nat)
    requires i < 13
    ensures CAPITALS[13 + i] as int == 'N' as int + i && SMALLS[13 + i] as int == 'n' as int + i
  {
  }

  lemma CapitalExactly(c: char)
    ensures c in CAPITALS <==> 'A' <= c <= 'Z'
  {
    Alphabet(0);
    if 'A' <= c <= 'Z' { Alphabet(c as int - 'A' as int); }
    if c in CAPITALS {
      var i :| 0 <= i < |CAPITALS| && CAPITALS[i] == c;
      Alphabet(i);
    }
  }

  lemma CaseOfExactly(c: char, d: char)
    ensures CaseOf(c, d) <==> 'A' <= c <= 'Z' && d as int == c as int + 32
  {
    Alphabet(0);
    if 'A' <= c <= 'Z' {
      var i := c as int - 'A' as int;
      Alphabet(i);
      assert CAPITALS[i] == c;
    }
    if CaseOf(c, d) {
      var i :| 0 <= i < |CAPITALS| && CAPITALS[i] == c && SMALLS[i] == d;
      Alphabet(i);
    }
  }

  /** The 26 capitals become their small letters, and nothing else changes. */
  lemma LowerCharExactly(c: char, d: char)
    ensures LowerChar(c) == d <==> CaseOf(c, d) || (c == d && c !in CAPITALS)
  {
    hide CaseOf;
    CapitalExactly(c);
    CaseOfExactly(c, d);
  }

  /** strcasecmp() takes two strings for the same exactly if they are spelled alike but for the case of letters. */
  lemma SameExactlyVariants(a: string, b: string)
    ensures SameIgnoringCase(a, b) <==> CaseVariants(a, b)
  {
    hide LowerChar, CaseOf;
    if |a| == |b| {
      forall i | 0 <= i < |a|
        ensures LowerChar(a[i]) == LowerChar(b[i]) <==> a[i] == b[i] || CaseOf(a[i], b[i]) || CaseOf(b[i], a[i])
      {
        SameChar(a[i], b[i]);
      }
      if SameIgnoringCase(a, b) {
        forall i | 0 <= i < |a| ensures LowerChar(a[i]) == LowerChar(b[i]) {
          assert Lower(a)[i] == Lower(b)[i];
        }
      }
      assert CaseVariants(a, b) ==> Lower(a) == Lower(b);
    }
  }

  lemma SameChar(c: char, d: char)
    ensures LowerChar(c) == LowerChar(d) <==> c == d || CaseOf(c, d) || CaseOf(d, c)
  {
    hide CaseOf;
    CaseOfExactly(c, d);
    CaseOfExactly(d, c);
  }

  /** printf("%lld") */
  function SignedDecimal(n: int): string { if n < 0 then "-" + Decimal(-n) else Decimal(n) }

  lemma NumberOfSigned(n: int)
    ensures Number(SignedDecimal(n)) == n
  {
    var m := if n < 0 then -n else n;
    ReadDecimal(m, "");
    assert Decimal(m) + "" == Decimal(m);
    if n < 0 {
      assert SignedDecimal(n)[1..] == Decimal(m);
    }
  }

  // ----- sdstrim(s, " \t\r\n") -----

  predicate TrimChar(c: char) { c == ' ' || c == '\t' || c == '\r' || c == '\n' }

  function TrimLeft(s: string): string { if s != "" && TrimChar(s[0]) then TrimLeft(s[1..]) else s }

  function TrimRight(s: string): string {
    if s != "" && TrimChar(s[|s| - 1]) then TrimRight(s[..|s| - 1]) else s
  }

  function Trim(s: string): string { TrimRight(TrimLeft(s)) }

  const BLANKS := "\r\n\t "

  /** Only blanks are outside the slice, and none is at its ends. */
  ghost predicate Trims(s: string, i: nat, j: nat) {
    && i <= j <= |s|
    && (forall k :: 0 <= k < i ==> s[k] in BLANKS) && (forall k :: j <= k < |s| ==> s[k] in BLANKS)
    && (i < j ==> s[i] !in BLANKS && s[j - 1] !in BLANKS)
  }

  /** Trimming takes that slice. */
  lemma TrimExactly(s: string)
    ensures exists i: nat, j: nat :: Trims(s, i, j) && Trim(s) == s[i..j]
    ensures forall i: nat, j: nat :: Trims(s, i, j) ==> Trim(s) == s[i..j]
  {
    var i := TrimLeftFrom(s);
    var n := TrimRightTo(s[i..]);
    assert s[i..][..n] == s[i..i + n];
    assert forall k :: i + n <= k < |s| ==> s[k] == s[i..][k - i];
    assert Trims(s, i, i + n);
    forall x: nat, y: nat | Trims(s, x, y) ensures s[x..y] == s[i..i + n] {
      SameSlice(s, x, y, i, i + n);
    }
  }

  lemma SameSlice(s: string, x: nat, y: nat, i: nat, j: nat)
    requires Trims(s, x, y) && Trims(s, i, j)
    ensures s[x..y] == s[i..j]
  {
  }

  lemma {:induction false} TrimLeftFrom(s: string) returns (i: nat)
    ensures i <= |s| && TrimLeft(s) == s[i..]
    ensures forall k :: 0 <= k < i ==> s[k] in BLANKS
    ensures i < |s| ==> s[i] !in BLANKS
  {
    if s != "" && TrimChar(s[0]) {
      i := TrimLeftFrom(s[1..]);
      assert forall k :: 0 < k <= i ==> s[k] == s[1..][k - 1];
      i := i + 1;
    } else {
      i := 0;
    }
  }

  lemma {:induction false} TrimRightTo(s: string) returns (n: nat)
    ensures n <= |s| && TrimRight(s) == s[..n]
    ensures forall k :: n <= k < |s| ==> s[k] in BLANKS
    ensures n > 0 ==> s[n - 1] !in BLANKS
  {
    if s != "" && TrimChar(s[|s| - 1]) {
      n := TrimRightTo(s[..|s| - 1]);
      assert s[..|s| - 1][..n] == s[..n];
    } else {
      n := |s|;
    }
  }
}
