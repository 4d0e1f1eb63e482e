/** BITPOS: the first bit of a given value in a range, a word at a time. */
module Bitpos {
  import opened Bits
  import opened CString
  import opened BitCount
  import opened Bitop
  import opened BitopCommand
  import opened Bitfield
  import opened BitRange

  /** No bit of the range has the value. */
  predicate Lacks(s: seq<bv8>, bit: bool, lo: nat, hi: nat) { forall k: nat :: lo <= k < hi ==> BitAt(s, k) != bit }

  /** The first bit of the range that has it. */
  predicate Finds(s: seq<bv8>, bit: bool, lo: nat, hi: nat, pos: int) {
    lo <= pos < hi && BitAt(s, pos) == bit && Lacks(s, bit, lo, pos)
  }

  function SkipByte(bit: bool): bv8 { if bit then 0 else 0xFF }

  lemma SkippedByte(bit: bool, i: nat)
    requires i < 8
    ensures TestBit(SkipByte(bit), i) != bit
  {}

  lemma LacksByte(s: seq<bv8>, bit: bool, c: nat)
    requires c < |s| && s[c] == SkipByte(bit) && Lacks(s, bit, 0, 8 * c)
    ensures Lacks(s, bit, 0, 8 * (c + 1))
  {
    hide SkipByte, TestBit;
    forall k: nat | 8 * c <= k < 8 * c + 8 ensures BitAt(s, k) != bit { SkippedByte(bit, k % 8); }
  }

  function SkipWord(bit: bool): bv64 { if bit then 0 else 0xFFFF_FFFF_FFFF_FFFF }

  lemma SkipWordBytes(bit: bool)
    ensures var w := SkipWord(bit);
            var b := SkipByte(bit);
            B0(w) == b && B1(w) == b && B2(w) == b && B3(w) == b && B4(w) == b && B5(w) == b && B6(w) == b && B7(w) == b
  {}

  lemma LacksWord(s: seq<bv8>, bit: bool, c: nat)
    requires c + 8 <= |s| && Load64(s, c) == SkipWord(bit) && Lacks(s, bit, 0, 8 * c)
    ensures Lacks(s, bit, 0, 8 * (c + 8))
  {
    hide *;
    LoadBytes(s, c);
    SkipWordBytes(bit);
    LacksByte(s, bit, c);
    LacksByte(s, bit, c + 1);
    LacksByte(s, bit, c + 2);
    LacksByte(s, bit, c + 3);
    LacksByte(s, bit, c + 4);
    LacksByte(s, bit, c + 5);
    LacksByte(s, bit, c + 6);
    LacksByte(s, bit, c + 7);
  }

  // ----- the last word -----

  function ByteInt(b: bv8): nat { b as int }

  /** The value of a byte is the number its bits spell. */
  lemma ByteValue(b: bv8)
    ensures ByteInt(b)
         == 128 * One(TestBit(b, 0)) + 64 * One(TestBit(b, 1)) + 32 * One(TestBit(b, 2)) + 16 * One(TestBit(b, 3))
                      + 8 * One(TestBit(b, 4)) + 4 * One(TestBit(b, 5)) + 2 * One(TestBit(b, 6)) + One(TestBit(b, 7))
  {}

  lemma FieldTail(z: iset<nat>, offset: nat, n: nat)
    requires n > 0
    ensures Field(z, offset, n) == 2 * Field(z, offset, n - 1) + One(offset + n - 1 in z)
  {}

  lemma BitOfPadded(s: seq<bv8>, c: nat, byte: bv8, i: nat)
    requires i < 8 && byte == if c < |s| then s[c] else 0
    ensures One(8 * c + i in BitSet(s)) == One(TestBit(byte, i))
  {
    hide TestBit;
    assert (8 * c + i) / 8 == c && (8 * c + i) % 8 == i;
    ZeroBit(i);
  }

  /** The number the eight bits from k on spell. */
  ghost function Spelled(z: iset<nat>, k: nat): nat {
    128 * One(k in z) + 64 * One(k + 1 in z) + 32 * One(k + 2 in z) + 16 * One(k + 3 in z)
    + 8 * One(k + 4 in z) + 4 * One(k + 5 in z) + 2 * One(k + 6 in z) + One(k + 7 in z)
  }

  lemma ByteSpelled(s: seq<bv8>, c: nat, byte: bv8)
    requires byte == if c < |s| then s[c] else 0
    ensures ByteInt(byte) == Spelled(BitSet(s), 8 * c)
  {
    hide BitSet, TestBit, One, ByteInt;
    ByteValue(byte);
    BitOfPadded(s, c, byte, 0);
    BitOfPadded(s, c, byte, 1);
    BitOfPadded(s, c, byte, 2);
    BitOfPadded(s, c, byte, 3);
    BitOfPadded(s, c, byte, 4);
    BitOfPadded(s, c, byte, 5);
    BitOfPadded(s, c, byte, 6);
    BitOfPadded(s, c, byte, 7);
  }

  lemma FieldEight(z: iset<nat>, o: nat, n: nat)
    ensures Field(z, o, n + 8) == 256 * Field(z, o, n) + Spelled(z, o + n)
  {
    hide Field, One;
    var k := o + n;
    FieldFour(z, o, n, k);
    FieldFour(z, o, n + 4, k + 4);
    Horner(Field(z, o, n), Field(z, o, n + 4), Field(z, o, n + 8), Spelled(z, k),
           One(k in z), One(k + 1 in z), One(k + 2 in z), One(k + 3 in z),
           One(k + 4 in z), One(k + 5 in z), One(k + 6 in z), One(k + 7 in z));
  }

  /** Eight more bits are one more byte. */
  lemma FieldNextByte(s: seq<bv8>, c: nat, j: nat, byte: bv8)
    requires byte == if c + j < |s| then s[c + j] else 0
    ensures Field(BitSet(s), 8 * c, 8 * j + 8) == 256 * Field(BitSet(s), 8 * c, 8 * j) + ByteInt(byte)
  {
    hide *;
    FieldEight(BitSet(s), 8 * c, 8 * j);
    ByteSpelled(s, c + j, byte);
    assert 8 * c + 8 * j == 8 * (c + j);
  }

  lemma FieldFour(z: iset<nat>, o: nat, n: nat, k: nat)
    requires k == o + n
    ensures Field(z, o, n + 4) ==
            16 * Field(z, o, n) + 8 * One(k in z) + 4 * One(k + 1 in z) + 2 * One(k + 2 in z) + One(k + 3 in z)
  {
    hide *;
    FieldTail(z, o, n + 1);
    FieldTail(z, o, n + 2);
    FieldTail(z, o, n + 3);
    FieldTail(z, o, n + 4);
  }

  lemma Horner(f: nat, g: nat, h: nat, v: nat, p0: nat, p1: nat, p2: nat, p3: nat, p4: nat, p5: nat, p6: nat, p7: nat)
    requires g == 16 * f + 8 * p0 + 4 * p1 + 2 * p2 + p3
    requires h == 16 * g + 8 * p4 + 4 * p5 + 2 * p6 + p7
    requires v == 128 * p0 + 64 * p1 + 32 * p2 + 16 * p3 + 8 * p4 + 4 * p5 + 2 * p6 + p7
    ensures h == 256 * f + v
  {}

  lemma HalfFirst(v: nat, i: nat)
    ensures v / 2 / Pow2(i) == v / Pow2(i + 1)
  {
    var p, h := Pow2(i), v / 2;
    var q, r := h / p, h % p;
    assert h == p * q + r && v == 2 * h + v % 2;
    assert 2 * (p * q) == 2 * p * q;
    QuotientIs(v, 2 * p, q, 2 * r + v % 2);
  }

  /** The bits of the number a field spells are the bits of the field. */
  lemma {:induction false} FieldBit(z: iset<nat>, offset: nat, n: nat, i: nat)
    requires i < n
    ensures BitOf(Field(z, offset, n), n - 1 - i) <==> offset + i in z
  {
    var v := Field(z, offset, n);
    if i == n - 1 {
      assert v / 1 == v;
    } else {
      FieldBit(z, offset, n - 1, i);
      HalfFirst(v, n - 2 - i);
      assert v / 2 == Field(z, offset, n - 1);
    }
  }

  lemma {:induction false} FieldZero(z: iset<nat>, offset: nat, n: nat)
    ensures Field(z, offset, n) == 0 <==> forall k: nat :: offset <= k < offset + n ==> k !in z
  {
    if n > 0 { FieldZero(z, offset, n - 1); }
  }

  /** The last word, first byte most significant, padded with zeros. */
  method LastWord(s: seq<bv8>, c: nat) returns (word: nat)
    requires c <= |s|
    ensures word == Field(BitSet(s), 8 * c, 64)
  {
    hide Field;
    word := 0;
    var at := c;
    var j := 0;
    FieldEmpty(BitSet(s), 8 * c);
    while j < 8
      invariant 0 <= j <= 8 && at == if c + j < |s| then c + j else |s|
      invariant word == Field(BitSet(s), 8 * c, 8 * j)
    {
      var byte: bv8 := 0;
      word := 256 * word;
      if at < |s| {
        byte := s[at];
        word := word + ByteInt(s[at]);
        at := at + 1;
      }
      FieldNextByte(s, c, j, byte);
      j := j + 1;
    }
  }

  lemma FieldEmpty(z: iset<nat>, offset: nat)
    ensures Field(z, offset, 0) == 0
  {}

  /** Bit by bit through the last word, where the bit is known to be. */
  method ScanWord(s: seq<bv8>, c: nat, bit: bool, word: nat, ghost w: nat) returns (pos: nat)
    requires word == Field(BitSet(s), 8 * c, 64) && w < 64 && BitAt(s, 8 * c + w) == bit
    ensures 8 * c <= pos < 8 * c + 64 && BitAt(s, pos) == bit && Lacks(s, bit, 8 * c, pos)
  {
    hide Field, TestBit, BitOf;
    pos := 8 * c;
    var one := 63;
    while one >= 0
      invariant -1 <= one <= 63 && pos == 8 * c + 63 - one
      invariant Lacks(s, bit, 8 * c, pos)
      invariant one >= 63 - w
      decreases one
    {
      FieldBit(BitSet(s), 8 * c, 64, 63 - one);
      if BitOf(word, one) == bit { return; }
      pos := pos + 1;
      one := one - 1;
    }
    assert false;
  }

  // ----- why the word loop may stop -----

  lemma ByteHolds(s: seq<bv8>, bit: bool, c: nat) returns (w: nat)
    requires c < |s| && s[c] != SkipByte(bit)
    ensures w < 8 && BitAt(s, 8 * c + w) == bit
  {
    hide TestBit, SkipByte;
    if forall i :: 0 <= i < 8 ==> TestBit(s[c], i) != bit {
      forall i | 0 <= i < 8 ensures TestBit(s[c], i) == TestBit(SkipByte(bit), i) { SkippedByte(bit, i); }
      ByteExtensional(s[c], SkipByte(bit));
      assert false;
    }
    w :| 0 <= w < 8 && TestBit(s[c], w) == bit;
    BitOfByte(s, c, w);
  }

  lemma LoadSame(s: seq<bv8>, c: nat, bit: bool)
    requires c + 8 <= |s|
    requires var b := SkipByte(bit);
             && s[c] == b && s[c + 1] == b && s[c + 2] == b && s[c + 3] == b
             && s[c + 4] == b && s[c + 5] == b && s[c + 6] == b && s[c + 7] == b
    ensures Load64(s, c) == SkipWord(bit)
  {}

  lemma WordHolds(s: seq<bv8>, bit: bool, c: nat) returns (w: nat)
    requires c + 8 <= |s| && Load64(s, c) != SkipWord(bit)
    ensures w < 64 && BitAt(s, 8 * c + w) == bit
  {
    hide *;
    if forall k :: c <= k < c + 8 ==> s[k] == SkipByte(bit) {
      LoadSame(s, c, bit);
      assert false;
    }
    var k :| c <= k < c + 8 && s[k] != SkipByte(bit);
    var v := ByteHolds(s, bit, k);
    w := 8 * (k - c) + v;
    assert 8 * k + v == 8 * c + w;
  }

  lemma ZeroWord(s: seq<bv8>, c: nat, k: nat)
    requires Field(BitSet(s), 8 * c, 64) == 0 && 8 * c <= k < 8 * c + 64
    ensures !BitAt(s, k)
  {
    hide Field, BitAt;
    FieldZero(BitSet(s), 8 * c, 64);
    assert k in BitSet(s) <==> BitAt(s, k);
  }

  lemma SetBitIn(s: seq<bv8>, c: nat) returns (w: nat)
    requires Field(BitSet(s), 8 * c, 64) != 0
    ensures w < 64 && BitAt(s, 8 * c + w)
  {
    hide Field, TestBit, Pow2;
    FieldZero(BitSet(s), 8 * c, 64);
    var k: nat :| 8 * c <= k < 8 * c + 64 && k in BitSet(s);
    w := k - 8 * c;
  }

  lemma BeyondEnd(s: seq<bv8>, k: nat)
    ensures BitAt(s, k) ==> k < 8 * |s|
  {
    hide TestBit;
  }

  /** redisBitpos() on the bytes of s, which start at address addr. */
  method RedisBitpos(s: seq<bv8>, bit: bool, addr: nat) returns (pos: int)
    ensures Finds(s, bit, 0, 8 * |s|, pos) || (Lacks(s, bit, 0, 8 * |s|) && pos == if bit then -1 else 8 * |s|)
  {
    hide *;
    var c := 0;
    var found := false;
    ghost var w := 0;
    LacksNothing(s, bit);
    while (addr + c) % 8 != 0 && c < |s|
      invariant 0 <= c <= |s| && Lacks(s, bit, 0, 8 * c)
      invariant !found
      decreases |s| - c
    {
      if s[c] != SkipByte(bit) {
        found := true;
        w := ByteHolds(s, bit, c);
        break;
      }
      LacksByte(s, bit, c);
      c := c + 1;
    }
    ghost var stopped := found;
    if !found {
      while |s| - c >= 8
        invariant 0 <= c <= |s| && Lacks(s, bit, 0, 8 * c) && !stopped
      {
        if Load64(s, c) != SkipWord(bit) {
          w := WordHolds(s, bit, c);
          stopped := true;
          break;
        }
        LacksWord(s, bit, c);
        c := c + 8;
      }
    }
    assert stopped || |s| - c < 8;
    var word := LastWord(s, c);
    if bit && word == 0 {
      AllZero(s, c, w, stopped);
      return -1;
    }
    if !stopped {
      if bit {
        w := SetBitIn(s, c);
      } else {
        w := 8 * (|s| - c);
        BeyondEnd(s, 8 * |s|);
      }
    }
    pos := ScanWord(s, c, bit, word, w);
    Concluded(s, bit, c, w, pos, stopped);
  }

  lemma LacksNothing(s: seq<bv8>, bit: bool)
    ensures Lacks(s, bit, 0, 0)
  {}

  lemma AllZero(s: seq<bv8>, c: nat, w: nat, stopped: bool)
    requires c <= |s| && Lacks(s, true, 0, 8 * c) && Field(BitSet(s), 8 * c, 64) == 0
    requires if stopped then w < 64 && BitAt(s, 8 * c + w) else |s| - c < 8
    ensures Lacks(s, true, 0, 8 * |s|)
  {
    hide Field, BitAt, BitSet;
    if stopped {
      ZeroWord(s, c, 8 * c + w);
    } else {
      forall k: nat | 8 * c <= k < 8 * |s| ensures !BitAt(s, k) { ZeroWord(s, c, k); }
    }
  }

  /** The bit found is in the string, or it is the first padding bit. */
  lemma Concluded(s: seq<bv8>, bit: bool, c: nat, w: nat, pos: nat, stopped: bool)
    requires c <= |s| && Lacks(s, bit, 0, 8 * c)
    requires 8 * c <= pos && BitAt(s, pos) == bit && Lacks(s, bit, 8 * c, pos)
    requires stopped ==> BitAt(s, 8 * c + w) == bit && (|s| - c >= 8 || (w < 8 && c < |s|)) && w < 64
    requires !stopped ==> |s| - c < 8
    ensures Finds(s, bit, 0, 8 * |s|, pos) || (Lacks(s, bit, 0, 8 * |s|) && pos == if bit then -1 else 8 * |s|)
  {
    hide BitAt;
    BeyondEnd(s, pos);
    BeyondEnd(s, 8 * |s|);
  }

  // ----- the command -----

  /** The answer over a range: the first such bit, or -1; a search for a clear bit without an explicit end
      goes on in the padding. */
  predicate Answers(s: seq<bv8>, bit: bool, lo: nat, hi: nat, endGiven: bool, pos: int) {
    Finds(s, bit, lo, hi, pos) || (Lacks(s, bit, lo, hi) && pos == if !bit && !endGiven then hi else -1)
  }

  /** What redisBitpos() promises of a buffer. */
  predicate Scanned(t: seq<bv8>, bit: bool, pos: int) {
    Finds(t, bit, 0, 8 * |t|, pos) || (Lacks(t, bit, 0, 8 * |t|) && pos == if bit then -1 else 8 * |t|)
  }

  /** A buffer shows the bytes from a on, with the bits outside the range turned into bits not looked for. */
  predicate Window(s: seq<bv8>, bit: bool, lo: nat, hi: nat, t: seq<bv8>, a: nat) {
    forall k: nat :: k < 8 * |t| ==> BitAt(t, k) == if lo <= 8 * a + k < hi then BitAt(s, 8 * a + k) else !bit
  }

  lemma WindowScanned(s: seq<bv8>, bit: bool, lo: nat, hi: nat, t: seq<bv8>, a: nat, pos: int)
    requires Window(s, bit, lo, hi, t, a) && Scanned(t, bit, pos) && Lacks(s, bit, lo, 8 * a)
    ensures 0 <= pos < 8 * |t| ==> Finds(s, bit, lo, hi, 8 * a + pos)
    ensures !(0 <= pos < 8 * |t|) ==> pos == (if bit then -1 else 8 * |t|)
    ensures !(0 <= pos < 8 * |t|) ==>
              forall k: nat :: lo <= k < hi && k < 8 * (a + |t|) ==> BitAt(s, k) != bit
  {
    hide BitAt;
    if 0 <= pos < 8 * |t| {
      forall k: nat | lo <= k < 8 * a + pos ensures BitAt(s, k) != bit {
        if k >= 8 * a { assert BitAt(t, k - 8 * a) != bit; }
      }
    } else {
      forall k: nat | lo <= k < hi && k < 8 * (a + |t|) ensures BitAt(s, k) != bit {
        if k >= 8 * a { assert BitAt(t, k - 8 * a) != bit; }
      }
    }
  }

  /** The result label: -1 stays, a clear bit past an explicit end is no answer, otherwise the skipped bytes
      are added. */
  function Result(pos: int, start: nat, bytes: nat, bit: bool, endGiven: bool): int {
    if endGiven && !bit && pos == 8 * bytes then -1
    else if pos != -1 then pos + 8 * start
    else pos
  }

  lemma ResultAnswers(s: seq<bv8>, bit: bool, lo: nat, hi: nat, endGiven: bool, t: seq<bv8>, start: nat, bytes: nat,
                      pos: int)
    requires Window(s, bit, lo, hi, t, start) && Scanned(t, bit, pos) && Lacks(s, bit, lo, 8 * start)
    requires |t| <= bytes && hi <= 8 * (start + bytes) && (!endGiven ==> hi == 8 * (start + bytes))
    requires bytes == |t| || (pos != -1 && pos != 8 * |t|)
    ensures Answers(s, bit, lo, hi, endGiven, Result(pos, start, bytes, bit, endGiven))
  {
    hide BitAt, Window;
    WindowScanned(s, bit, lo, hi, t, start, pos);
  }

  /** The first byte of a bit range, with the bits before it set to the other value. */
  function HideBefore(byte: bv8, i: nat, bit: bool): bv8
    requires i < 8
  {
    if bit then And8(byte, Not8(Before(i))) else Or8(byte, Before(i))
  }

  function HideAfter(byte: bv8, i: nat, bit: bool): bv8
    requires i < 8
  {
    if bit then And8(byte, Not8(After(i))) else Or8(byte, After(i))
  }

  lemma HiddenBits(byte: bv8, i: nat, bit: bool, k: nat)
    requires i < 8 && k < 8
    ensures TestBit(HideBefore(byte, i, bit), k) == if k < i then !bit else TestBit(byte, k)
    ensures TestBit(HideAfter(byte, i, bit), k) == if k > i then !bit else TestBit(byte, k)
  {
    hide TestBit, And8, Or8, Not8, Before, After;
    BeforeBit(i, k);
    AfterBit(i, k);
    TestOps(Before(i), byte, k);
    TestOps(After(i), byte, k);
    TestOps(byte, Not8(Before(i)), k);
    TestOps(byte, Before(i), k);
    TestOps(byte, Not8(After(i)), k);
    TestOps(byte, After(i), k);
  }

  /** The byte as the range shows it. */
  predicate Shows(s: seq<bv8>, bit: bool, lo: nat, hi: nat, a: nat, byte: bv8, k: nat)
    requires k < 8
  {
    TestBit(byte, k) == if lo <= 8 * a + k < hi then BitAt(s, 8 * a + k) else !bit
  }

  lemma ByteWindow(s: seq<bv8>, bit: bool, lo: nat, hi: nat, a: nat, byte: bv8)
    requires forall k :: 0 <= k < 8 ==> Shows(s, bit, lo, hi, a, byte, k)
    ensures Window(s, bit, lo, hi, [byte], a)
  {
    hide TestBit;
    forall k: nat | k < 8 ensures BitAt([byte], k) == if lo <= 8 * a + k < hi then BitAt(s, 8 * a + k) else !bit {
      assert Shows(s, bit, lo, hi, a, byte, k);
    }
  }

  lemma FirstWindow(s: seq<bv8>, bit: bool, lo: nat, hi: nat, byte: bv8)
    requires lo < hi <= 8 * |s|
    requires var (a, b) := (lo / 8, (hi - 1) / 8);
             var first := HideBefore(s[a], lo % 8, bit);
             byte == if a == b then HideAfter(first, (hi - 1) % 8, bit) else first
    ensures Window(s, bit, lo, hi, [byte], lo / 8)
  {
    hide TestBit, HideBefore, HideAfter, BitAt;
    var a, b := lo / 8, (hi - 1) / 8;
    var first := HideBefore(s[a], lo % 8, bit);
    forall k | 0 <= k < 8 ensures Shows(s, bit, lo, hi, a, byte, k) {
      BitOfByte(s, a, k);
      HiddenBits(s[a], lo % 8, bit, k);
      HiddenBits(first, (hi - 1) % 8, bit, k);
    }
    ByteWindow(s, bit, lo, hi, a, byte);
  }

  lemma LastWindow(s: seq<bv8>, bit: bool, lo: nat, hi: nat, byte: bv8)
    requires lo < hi <= 8 * |s| && lo <= 8 * ((hi - 1) / 8)
    requires byte == HideAfter(s[(hi - 1) / 8], (hi - 1) % 8, bit)
    ensures Window(s, bit, lo, hi, [byte], (hi - 1) / 8)
  {
    hide TestBit, HideBefore, HideAfter, BitAt;
    var b := (hi - 1) / 8;
    forall k | 0 <= k < 8 ensures Shows(s, bit, lo, hi, b, byte, k) {
      BitOfByte(s, b, k);
      HiddenBits(s[b], (hi - 1) % 8, bit, k);
    }
    ByteWindow(s, bit, lo, hi, b, byte);
  }

  lemma MiddleWindow(s: seq<bv8>, bit: bool, lo: nat, hi: nat, a: nat, b: nat)
    requires lo <= 8 * a && a <= b <= |s| && 8 * b <= hi
    ensures Window(s, bit, lo, hi, s[a..b], a)
  {
    hide BitAt;
    forall k: nat | k < 8 * (b - a) ensures BitAt(s[a..b], k) == BitAt(s, 8 * a + k) { SliceBit(s, a, b, k); }
  }

  /** The search over a range that is not empty, given by the first and last byte or bit. */
  method SearchRange(p: seq<bv8>, bit: bool, from: nat, to: nat, isBit: bool, endGiven: bool, addr: nat)
    returns (pos: int)
    requires from <= to < if isBit then 8 * |p| else |p|
    requires endGiven || (!isBit && to == |p| - 1)
    ensures var lo, hi := if isBit then from else 8 * from, if isBit then to + 1 else 8 * to + 8;
            Answers(p, bit, lo, hi, endGiven, pos)
  {
    hide *;
    ghost var lo, hi := if isBit then from else 8 * from, if isBit then to + 1 else 8 * to + 8;
    var start, end := from, to;
    var first, last: bv8 := 0, 0;
    if isBit {
      first, last := Before(start % 8), After(end % 8);
      BeforeBit(start % 8, 0);
      AfterBit(end % 8, 0);
      start, end := start / 8, end / 8;
    }
    var bytes := end - start + 1;
    LacksEmpty(p, bit, lo, 8 * start);
    if first != 0 {
      var tmp := HideBefore(p[start], from % 8, bit);
      if last != 0 && bytes == 1 { tmp := HideAfter(tmp, to % 8, bit); }
      assert last == 0 ==> to % 8 == 7;
      if last == 0 { HideNothing(tmp, bit); }
      FirstWindow(p, bit, lo, hi, tmp);
      pos := RedisBitpos([tmp], bit, addr);
      ScannedAs([tmp], bit, pos);
      if bytes == 1 || (pos != -1 && pos != 8) {
        ResultAnswers(p, bit, lo, hi, endGiven, [tmp], start, bytes, pos);
        pos := Result(pos, start, bytes, bit, endGiven);
        return;
      }
      WindowScanned(p, bit, lo, hi, [tmp], start, pos);
      LacksUpTo(p, bit, lo, 8 * (start + 1), hi);
      start, bytes := start + 1, bytes - 1;
    }
    pos := SearchRest(p, bit, lo, hi, start, bytes, to % 8, last != 0, endGiven, addr);
  }

  /** The search from a whole byte on: the bytes wholly inside the range, then the last one if it is not. */
  method SearchRest(p: seq<bv8>, bit: bool, ghost lo: nat, ghost hi: nat, from: nat, count: nat, lastBit: nat,
                    partial: bool, endGiven: bool, addr: nat) returns (pos: int)
    requires lo <= 8 * from && count > 0 && from + count <= |p| && lo < hi && lastBit < 8
    requires if partial then hi == 8 * (from + count - 1) + lastBit + 1 && endGiven else hi == 8 * (from + count)
    requires Lacks(p, bit, lo, 8 * from)
    ensures Answers(p, bit, lo, hi, endGiven, pos)
  {
    hide *;
    var start, bytes := from, count;
    var current := bytes - (if partial then 1 else 0);
    if current > 0 {
      var middle := p[start..start + current];
      MiddleWindow(p, bit, lo, hi, start, start + current);
      pos := RedisBitpos(middle, bit, addr + start);
      ScannedAs(middle, bit, pos);
      if bytes == current || (pos != -1 && pos != 8 * current) {
        ResultAnswers(p, bit, lo, hi, endGiven, middle, start, bytes, pos);
        pos := Result(pos, start, bytes, bit, endGiven);
        return;
      }
      WindowScanned(p, bit, lo, hi, middle, start, pos);
      LacksUpTo(p, bit, lo, 8 * (start + current), hi);
      start, bytes := start + current, bytes - current;
    }
    var tmp := HideAfter(p[start], lastBit, bit);
    LastWindow(p, bit, lo, hi, tmp);
    pos := RedisBitpos([tmp], bit, addr);
    ScannedAs([tmp], bit, pos);
    ResultAnswers(p, bit, lo, hi, endGiven, [tmp], start, bytes, pos);
    pos := Result(pos, start, bytes, bit, endGiven);
  }

  lemma LacksEmpty(s: seq<bv8>, bit: bool, lo: nat, hi: nat)
    requires hi <= lo
    ensures Lacks(s, bit, lo, hi)
  {}

  lemma LacksUpTo(s: seq<bv8>, bit: bool, lo: nat, mid: nat, hi: nat)
    requires mid <= hi && forall k: nat :: lo <= k < hi && k < mid ==> BitAt(s, k) != bit
    ensures Lacks(s, bit, lo, mid)
  {}

  lemma ScannedAs(t: seq<bv8>, bit: bool, pos: int)
    requires Finds(t, bit, 0, 8 * |t|, pos) || (Lacks(t, bit, 0, 8 * |t|) && pos == if bit then -1 else 8 * |t|)
    ensures Scanned(t, bit, pos)
  {}

  lemma HideNothing(byte: bv8, bit: bool)
    ensures HideAfter(byte, 7, bit) == byte
  {}

  datatype Range = Whole | From(start: int) | FromTo(start: int, end: int, isBit: bool)

  /** The bits a range selects. */
  function Picked(len: nat, range: Range): Option<(nat, nat)> {
    match range
    case Whole => if len == 0 then None else Some((0, 8 * len))
    case From(start) => Selected(len, start, len - 1, false)
    case FromTo(start, end, isBit) => Selected(len, start, end, isBit)
  }

  /** bitposCommand() after parsing. */
  method PosCommand(key: Option<seq<bv8>>, bit: bool, range: Range, addr: nat) returns (pos: int)
    ensures key.None? ==> pos == if bit then -1 else 0
    ensures key.Some? && Picked(|key.value|, range).None? ==> pos == -1
    ensures key.Some? && Picked(|key.value|, range).Some? ==>
              var (lo, hi) := Picked(|key.value|, range).value;
              Answers(key.value, bit, lo, hi, range.FromTo?, pos)
  {
    hide Answers;
    if key.None? { return if bit then -1 else 0; }
    var p := key.value;
    var isBit := range.FromTo? && range.isBit;
    var start, end := 0, |p| - 1;
    if !range.Whole? {
      start := range.start;
      if range.FromTo? { end := range.end; }
      var total := |p|;
      if isBit { total := total * 8; }
      start, end := Convert(total, start, end);
    }
    if start > end { return -1; }
    pos := SearchRange(p, bit, start, end, isBit, range.FromTo?, addr);
  }
}
