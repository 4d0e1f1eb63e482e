/** BITFIELD: integers of any width at any bit offset, with wrapping, saturating and failing arithmetic. */
module Bitfield {
  import opened Bits
  import opened CString

  // ----- powers of two -----

  function Pow2(n: nat): (p: nat)
    ensures p >= 1
  {
    if n == 0 then 1 else 2 * Pow2(n - 1)
  }

  lemma {:induction false} Pow2Add(a: nat, b: nat)
    ensures Pow2(a + b) == Pow2(a) * Pow2(b)
  {
    if b > 0 {
      Pow2Add(a, b - 1);
      assert Pow2(a) * Pow2(b) == 2 * (Pow2(a) * Pow2(b - 1));
    }
  }

  lemma {:induction false} Pow2Monotone(a: nat, b: nat)
    requires a <= b
    ensures Pow2(a) <= Pow2(b)
  {
    if a < b { Pow2Monotone(a, b - 1); }
  }

  lemma Pow2Double(n: nat)
    requires n > 0
    ensures Pow2(n) == 2 * Pow2(n - 1)
  {}

  lemma Pow2Word()
    ensures Pow2(63) == 0x8000_0000_0000_0000 && Pow2(64) == 0x1_0000_0000_0000_0000
  {
    assert Pow2(8) == 256;
    Pow2Add(8, 8);
    Pow2Add(16, 16);
    Pow2Add(32, 31);
    Pow2Add(16, 15);
    Pow2Add(8, 7);
    assert Pow2(31) == 0x8000_0000;
  }

  /** Bit i of a number, counted from the least significant one. */
  predicate BitOf(v: nat, i: nat) { v / Pow2(i) % 2 == 1 }

  lemma HalfOf(v: nat, i: nat)
    ensures v / Pow2(i) / 2 == v / Pow2(i + 1)
  {
    var p, q := Pow2(i), v / Pow2(i);
    var r, h := v % p, q / 2;
    assert v == p * q + r && q == 2 * h + q % 2;
    assert p * q == 2 * p * h + p * (q % 2);
    assert 0 <= p * (q % 2) + r < 2 * p;
    QuotientIs(v, 2 * p, h, p * (q % 2) + r);
  }

  lemma MulBounds(d: nat, k: int)
    ensures k >= 1 ==> d * k >= d
    ensures k <= -1 ==> d * k + d <= 0
  {
    if k >= 1 { assert d * k == d + d * (k - 1); }
    if k <= -1 { assert d * k + d == d * (k + 1); }
  }

  /** Division is determined by its quotient and remainder. */
  lemma QuotientIs(x: int, d: nat, q: int, r: int)
    requires d > 0 && 0 <= r < d && x == d * q + r
    ensures x / d == q && x % d == r
  {
    var a, b := x / d, x % d;
    assert x == d * a + b && 0 <= b < d;
    assert d * (a - q) == d * a - d * q;
    MulBounds(d, a - q);
  }

  /** Two binary digits of a remainder: halving the number halves the modulus. */
  lemma ModHalf(x: nat, n: nat)
    requires n > 0
    ensures x % Pow2(n) == 2 * (x / 2 % Pow2(n - 1)) + x % 2
  {
    var p := Pow2(n - 1);
    var h := x / 2;
    var q, r := h / p, h % p;
    assert h == p * q + r && x == 2 * h + x % 2;
    assert 2 * p * q == 2 * (p * q);
    QuotientIs(x, 2 * p, q, 2 * r + x % 2);
  }

  // ----- fields of an infinite bit array -----

  /** The set bits of a string, past its end none. */
  ghost function BitSet(s: seq<bv8>): iset<nat> { iset k: nat | BitAt(s, k) }

  /** The number stored at an offset, most significant bit first. */
  ghost function Field(z: iset<nat>, offset: nat, bits: nat): (v: nat)
    ensures v < Pow2(bits)
  {
    if bits == 0 then 0 else 2 * Field(z, offset, bits - 1) + One(offset + bits - 1 in z)
  }

  /** The bit array after the first n bits of a field are overwritten with those of v. */
  ghost function WrittenTo(z: iset<nat>, offset: nat, bits: nat, v: nat, n: nat): iset<nat>
    requires n <= bits
  {
    iset k: nat | if offset <= k < offset + n then BitOf(v, bits - 1 - (k - offset)) else k in z
  }

  ghost function Written(z: iset<nat>, offset: nat, bits: nat, v: nat): iset<nat> {
    WrittenTo(z, offset, bits, v, bits)
  }

  lemma {:induction false} FieldWrittenTo(z: iset<nat>, offset: nat, bits: nat, v: nat, n: nat)
    requires n <= bits
    ensures Field(Written(z, offset, bits, v), offset, n) == v / Pow2(bits - n) % Pow2(n)
  {
    var w := Written(z, offset, bits, v);
    if n == 0 {
      assert v / Pow2(bits) % 1 == 0;
    } else {
      FieldWrittenTo(z, offset, bits, v, n - 1);
      FieldStep(w, offset, n, v / Pow2(bits - n), v, bits);
    }
  }

  lemma FieldStep(w: iset<nat>, offset: nat, n: nat, x: nat, v: nat, bits: nat)
    requires 0 < n <= bits && x == v / Pow2(bits - n)
    requires offset + n - 1 in w <==> BitOf(v, bits - n)
    requires Field(w, offset, n - 1) == v / Pow2(bits - n + 1) % Pow2(n - 1)
    ensures Field(w, offset, n) == x % Pow2(n)
  {
    HalfOf(v, bits - n);
    ModHalf(x, n);
    assert One(offset + n - 1 in w) == x % 2;
  }

  /** Reading back what was written. */
  lemma FieldWritten(z: iset<nat>, offset: nat, bits: nat, v: nat)
    ensures Field(Written(z, offset, bits, v), offset, bits) == v % Pow2(bits)
  {
    FieldWrittenTo(z, offset, bits, v, bits);
    assert v / 1 == v;
  }

  /** Fields that do not overlap the write are unchanged. */
  lemma {:induction false} FieldElsewhere(z: iset<nat>, offset: nat, bits: nat, v: nat, other: nat, n: nat)
    requires other + n <= offset || offset + bits <= other
    ensures Field(Written(z, offset, bits, v), other, n) == Field(z, other, n)
  {
    if n > 0 { FieldElsewhere(z, offset, bits, v, other, n - 1); }
  }

  lemma {:induction false} FieldAgrees(z: iset<nat>, y: iset<nat>, a: nat, b: nat, n: nat)
    requires forall i: nat :: i < n ==> (SameAt(z, a, y, b, i))
    ensures Field(z, a, n) == Field(y, b, n)
  {
    if n > 0 {
      FieldAgrees(z, y, a, b, n - 1);
      assert SameAt(z, a, y, b, n - 1);
    }
  }

  ghost predicate SameAt(z: iset<nat>, a: nat, y: iset<nat>, b: nat, i: nat) { a + i in z <==> b + i in y }

  // ----- reading and writing bytes -----

  function SetBit(b: bv8, i: nat, v: bool): bv8
    requires i < 8
  {
    if v then b | Mask(i) else b & !Mask(i)
  }

  lemma SetBitTests(b: bv8, i: nat, v: bool, k: nat)
    requires i < 8 && k < 8
    ensures TestBit(SetBit(b, i, v), k) == if k == i then v else TestBit(b, k)
  {
    MasksDiffer(i, k);
    TestSetMask(b, Mask(i), Mask(k));
  }

  lemma MasksDiffer(i: nat, k: nat)
    requires i < 8 && k < 8
    ensures if i == k then Mask(i) == Mask(k) != 0 else Mask(i) & Mask(k) == 0
  {}

  lemma TestSetMask(b: bv8, m: bv8, n: bv8)
    ensures m == n != 0 ==> (b | m) & n != 0 && (b & !m) & n == 0
    ensures m & n == 0 ==> (b | m) & n == b & n && (b & !m) & n == b & n
  {}

  ghost function WithBit(z: iset<nat>, k: nat, v: bool): iset<nat> { if v then z + iset{k} else z - iset{k} }

  lemma WriteBit(s: seq<bv8>, at: nat, v: bool)
    requires at < 8 * |s|
    ensures BitSet(s[at / 8 := SetBit(s[at / 8], at % 8, v)]) == WithBit(BitSet(s), at, v)
  {
    hide SetBit, TestBit;
    var t := s[at / 8 := SetBit(s[at / 8], at % 8, v)];
    forall k: nat ensures BitAt(t, k) == if k == at then v else BitAt(s, k) {
      if k / 8 == at / 8 { SetBitTests(s[at / 8], at % 8, v, k % 8); }
      assert k == at <==> k / 8 == at / 8 && k % 8 == at % 8;
    }
  }

  lemma WrittenNext(z: iset<nat>, offset: nat, bits: nat, v: nat, n: nat)
    requires n < bits
    ensures WrittenTo(z, offset, bits, v, n + 1) ==
            WithBit(WrittenTo(z, offset, bits, v, n), offset + n, BitOf(v, bits - 1 - n))
  {
    hide BitOf;
  }

  /** setUnsignedBitfield(): every write is inside the buffer and inside the field. */
  method SetUnsigned(p: array<bv8>, offset: nat, bits: nat, value: nat)
    requires offset + bits <= 8 * p.Length
    modifies p
    ensures BitSet(p[..]) == Written(old(BitSet(p[..])), offset, bits, value)
  {
    hide SetBit, BitOf, TestBit, WithBit;
    ghost var z := BitSet(p[..]);
    var at := offset;
    var j := 0;
    while j < bits
      invariant 0 <= j <= bits && at == offset + j
      invariant BitSet(p[..]) == WrittenTo(z, offset, bits, value, j)
    {
      var bitval := BitOf(value, bits - 1 - j);
      var byte, bit := at / 8, at % 8;
      ghost var before := p[..];
      WriteBit(before, at, bitval);
      WrittenNext(z, offset, bits, value, j);
      p[byte] := SetBit(p[byte], bit, bitval);
      assert p[..] == before[byte := SetBit(before[byte], bit, bitval)];
      at := at + 1;
      j := j + 1;
    }
  }

  /** getUnsignedBitfield(): every read is inside the buffer. */
  method GetUnsigned(p: seq<bv8>, offset: nat, bits: nat) returns (value: nat)
    requires offset + bits <= 8 * |p|
    ensures value == Field(BitSet(p), offset, bits)
  {
    hide TestBit;
    var at := offset;
    value := 0;
    var j := 0;
    while j < bits
      invariant 0 <= j <= bits && at == offset + j
      invariant value == Field(BitSet(p), offset, j)
    {
      var bitval := TestBit(p[at / 8], at % 8);
      value := 2 * value + One(bitval);
      at := at + 1;
      j := j + 1;
    }
  }

  // ----- two's complement -----

  /** The signed reading of an unsigned number of the given width. */
  function AsSigned(u: nat, bits: nat): int
    requires bits > 0
  {
    if u >= Pow2(bits - 1) then u - Pow2(bits) else u
  }

  const TWO63 := 0x8000_0000_0000_0000
  const TWO64 := 0x1_0000_0000_0000_0000

  /** The conversions to uint64_t and int64_t. */
  function UInt64(x: int): nat { x % TWO64 }

  function Int64(x: int): int { if UInt64(x) >= TWO63 then UInt64(x) - TWO64 else UInt64(x) }

  predicate IsInt64(x: int) { -TWO63 <= x < TWO63 }

  /** getSignedBitfield(): the sign bit is spread over the upper bits. */
  method GetSigned(p: seq<bv8>, offset: nat, bits: nat) returns (value: int)
    requires 0 < bits <= 64 && offset + bits <= 8 * |p|
    ensures value == AsSigned(Field(BitSet(p), offset, bits), bits)
  {
    hide Pow2;
    var u := GetUnsigned(p, offset, bits);
    value := Int64(u);
    SignBit(u, bits);
    if bits < 64 && BitOf(UInt64(value), bits - 1) {
      // the upper bits were zero, so setting them adds their weight
      value := Int64(UInt64(value) + TWO64 - Pow2(bits));
    }
  }

  lemma SignBit(u: nat, bits: nat)
    requires 0 < bits <= 64 && u < Pow2(bits)
    ensures UInt64(Int64(u)) == u
    ensures BitOf(u, bits - 1) <==> u >= Pow2(bits - 1)
    ensures bits == 64 ==> Int64(u) == AsSigned(u, 64)
    ensures bits < 64 ==> Int64(u) == u
    ensures bits < 64 && u >= Pow2(bits - 1) ==> Int64(u + TWO64 - Pow2(bits)) == AsSigned(u, bits)
    ensures bits < 64 && u < Pow2(bits - 1) ==> AsSigned(u, bits) == u
  {
    hide Pow2, BitOf;
    Pow2Word();
    Pow2Monotone(bits, 64);
    Pow2Double(bits);
    TopBit(u, bits);
    if bits < 64 { Pow2Monotone(bits, 63); }
  }

  lemma TopBit(u: nat, bits: nat)
    requires 0 < bits && u < Pow2(bits)
    ensures BitOf(u, bits - 1) <==> u >= Pow2(bits - 1)
  {
    var h := Pow2(bits - 1);
    if u >= h { QuotientIs(u, h, 1, u - h); } else { QuotientIs(u, h, 0, u); }
  }

  // ----- overflow -----

  datatype Overflow = Wrap | Sat | Fail

  /** An integer type: i1..i64 or u1..u63. */
  datatype Type = Type(signed: bool, bits: nat)

  predicate IsType(t: Type) { 0 < t.bits <= (if t.signed then 64 else 63) }

  function Max(t: Type): int
    requires IsType(t)
  {
    if t.signed then Pow2(t.bits - 1) - 1 else Pow2(t.bits) - 1
  }

  function Min(t: Type): int
    requires IsType(t)
  {
    if t.signed then Pow2(t.bits - 1) * -1 else 0
  }

  /** The low bits of a number: what masking the others away leaves. */
  function Low(x: int, bits: nat): (r: nat)
    ensures r < Pow2(bits)
  {
    LowBits(x, bits);
    x % Pow2(bits)
  }

  /** The integer of the type congruent to x. */
  function Wrapped(t: Type, x: int): int
    requires IsType(t)
  {
    if t.signed then AsSigned(Low(x, t.bits), t.bits) else Low(x, t.bits)
  }

  /** What storing x should store: None when the operation must fail. */
  function Fitted(t: Type, x: int, ow: Overflow): Option<int>
    requires IsType(t)
  {
    if Min(t) <= x <= Max(t) then Some(x)
    else match ow
         case Wrap => Some(Wrapped(t, x))
         case Sat => Some(if x > Max(t) then Max(t) else Min(t))
         case Fail => None
  }

  lemma LowBits(x: int, bits: nat)
    ensures 0 <= x % Pow2(bits) < Pow2(bits)
  {}

  lemma WrappedInRange(t: Type, x: int)
    requires IsType(t)
    ensures Min(t) <= Wrapped(t, x) <= Max(t)
    ensures Min(t) <= x <= Max(t) ==> Wrapped(t, x) == x
  {
    LowBits(x, t.bits);
    Pow2Double(t.bits);
    var p := Pow2(t.bits);
    if 0 <= x < p { QuotientIs(x, p, 0, x); }
    if -p <= x < 0 { QuotientIs(x, p, -1, x + p); }
  }

  /** checkUnsignedBitfieldOverflow(): the return value and *limit, 0 where it is left alone. */
  function CheckUnsigned(value: int, incr: int, bits: nat, ow: Overflow): (int, int)
    requires 0 < bits <= 63 && value >= 0
  {
    var max := Pow2(bits) - 1;
    var maxincr, minincr := Int64(max - value), Int64(-value);
    var wrapped := Low(UInt64(value + incr), bits);
    if value > max || (incr > 0 && incr > maxincr) then
      (1, match ow case Wrap => wrapped case Sat => max case Fail => 0)
    else if incr < 0 && incr < minincr then
      (match ow case Wrap => (1, wrapped) case Sat => (-1, 0) case Fail => (-1, 0))
    else (0, 0)
  }

  /** The wrapped value of checkSignedBitfieldOverflow(): the sign bit spread up, or the upper bits cleared. */
  function SpreadSign(c: nat, bits: nat): int
    requires 0 < bits <= 64
  {
    if bits < 64 then
      (if BitOf(c, bits - 1) then Int64(Low(c, bits) + TWO64 - Pow2(bits)) else Int64(Low(c, bits)))
    else Int64(c)
  }

  /** checkSignedBitfieldOverflow() */
  function CheckSigned(value: int, incr: int, bits: nat, ow: Overflow): (int, int)
    requires 0 < bits <= 64
  {
    var max := if bits == 64 then TWO63 - 1 else Pow2(bits - 1) - 1;
    var min := -max - 1;
    var maxincr, minincr := Int64(max - value), Int64(min - value);
    var wrapped := SpreadSign(UInt64(value + incr), bits);
    if value > max || (bits != 64 && incr > maxincr) || (value >= 0 && incr > 0 && incr > maxincr) then
      (1, match ow case Wrap => wrapped case Sat => max case Fail => 0)
    else if value < min || (bits != 64 && incr < minincr) || (value < 0 && incr < 0 && incr < minincr) then
      (match ow case Wrap => (1, wrapped) case Sat => (-1, min) case Fail => (-1, 0))
    else (0, 0)
  }

  // ----- wrapping is congruence -----

  lemma ModMod(x: int, bits: nat)
    requires bits <= 64
    ensures Low(UInt64(x), bits) == Low(x, bits)
  {
    hide Pow2;
    Pow2Word();
    Pow2Add(bits, 64 - bits);
    LowBits(UInt64(x), bits);
    ModFactor(x, Pow2(bits), Pow2(64 - bits), x / TWO64, UInt64(x) / Pow2(bits), UInt64(x) % Pow2(bits));
  }

  lemma LowOfSmall(c: nat, bits: nat)
    requires c < Pow2(bits)
    ensures Low(c, bits) == c
  {
    QuotientIs(c, Pow2(bits), 0, c);
  }

  lemma ModFactor(x: int, d: nat, e: nat, q: int, a: int, r: int)
    requires d > 0 && 0 <= r < d && x == d * e * q + (d * a + r)
    ensures x % d == r
  {
    assert d * e * q == d * (e * q);
    assert d * (e * q) + d * a == d * (e * q + a);
    QuotientIs(x, d, e * q + a, r);
  }

  lemma SignOfLow(c: nat, bits: nat)
    requires bits > 0
    ensures BitOf(c, bits - 1) <==> Low(c, bits) >= Pow2(bits - 1)
  {
    hide Pow2;
    Pow2Double(bits);
    LowBits(c, bits);
    var h, q, r := Pow2(bits - 1), c / Pow2(bits), c % Pow2(bits);
    assert c == 2 * h * q + r;
    assert 2 * h * q == h * (2 * q);
    if r >= h {
      assert h * (2 * q) + h == h * (2 * q + 1);
      QuotientIs(c, h, 2 * q + 1, r - h);
    } else {
      QuotientIs(c, h, 2 * q, r);
    }
  }

  lemma SpreadIsWrapped(x: int, bits: nat)
    requires 0 < bits <= 64
    ensures SpreadSign(UInt64(x), bits) == Wrapped(Type(true, bits), x)
  {
    hide Pow2, BitOf, Low;
    var c := UInt64(x);
    var r := Low(x, bits);
    ModMod(x, bits);
    SignBit(r, bits);
    SignOfLow(c, bits);
    if bits == 64 {
      Pow2Word();
      LowOfSmall(c, 64);
    }
  }

  /** What the code stores, given the result of the check and the unchecked value. */
  function Chosen(check: (int, int), unchecked: int, ow: Overflow): Option<int> {
    if check.0 == 0 then Some(unchecked) else if ow.Fail? then None else Some(check.1)
  }

  // ----- INCRBY does what it should -----

  lemma UnsignedIncr(old0: int, incr: int, bits: nat, ow: Overflow)
    requires 0 < bits <= 63 && 0 <= old0 < Pow2(bits) && IsInt64(incr)
    ensures Chosen(CheckUnsigned(old0, incr, bits, ow), UInt64(old0 + incr), ow)
         == Fitted(Type(false, bits), old0 + incr, ow)
  {
    hide Pow2, Low, Int64, UInt64;
    Pow2Word();
    Pow2Monotone(bits, 63);
    ModMod(old0 + incr, bits);
    SameAsInt64(Pow2(bits) - 1 - old0);
    SameAsInt64(-old0);
    SameAsUInt64(old0 + incr);
  }

  lemma SameAsUInt64(x: int)
    ensures 0 <= x < TWO64 ==> UInt64(x) == x
  {}

  lemma SameAsInt64(x: int)
    ensures IsInt64(x) ==> Int64(x) == x
  {}

  lemma SignedIncrNarrow(old0: int, incr: int, bits: nat, ow: Overflow)
    requires 0 < bits < 64 && Min(Type(true, bits)) <= old0 <= Max(Type(true, bits)) && IsInt64(incr)
    ensures Chosen(CheckSigned(old0, incr, bits, ow), Int64(old0 + incr), ow)
         == Fitted(Type(true, bits), old0 + incr, ow)
  {
    hide Pow2, SpreadSign, Wrapped, Int64, UInt64;
    Pow2Word();
    Pow2Monotone(bits - 1, 62);
    Pow2Double(63);
    SpreadIsWrapped(old0 + incr, bits);
    var max := Pow2(bits - 1) - 1;
    SameAsInt64(max - old0);
    SameAsInt64(-max - 1 - old0);
    SameAsInt64(old0 + incr);
  }

  lemma SignedIncrWide(old0: int, incr: int, ow: Overflow)
    requires IsInt64(old0) && IsInt64(incr)
    ensures Chosen(CheckSigned(old0, incr, 64, ow), Int64(old0 + incr), ow) == Fitted(Type(true, 64), old0 + incr, ow)
  {
    hide Pow2, SpreadSign, Wrapped, Int64, UInt64;
    Pow2Word();
    SpreadIsWrapped(old0 + incr, 64);
    var max := TWO63 - 1;
    SameAsInt64(max - old0);
    SameAsInt64(-max - 1 - old0);
    SameAsInt64(old0 + incr);
  }

  lemma SignedIncr(old0: int, incr: int, bits: nat, ow: Overflow)
    requires 0 < bits <= 64 && Min(Type(true, bits)) <= old0 <= Max(Type(true, bits)) && IsInt64(incr)
    ensures Chosen(CheckSigned(old0, incr, bits, ow), Int64(old0 + incr), ow)
         == Fitted(Type(true, bits), old0 + incr, ow)
  {
    hide Pow2, CheckSigned, Fitted;
    if bits < 64 {
      SignedIncrNarrow(old0, incr, bits, ow);
    } else {
      Pow2Word();
      SignedIncrWide(old0, incr, ow);
    }
  }

  // ----- SET does, except under SAT for some values -----

  /** The values SET saturates to the wrong end: an unsigned field is given a negative number, or max - value
      does not fit in an int64_t. */
  predicate WrongEnd(t: Type, x: int)
    requires IsType(t)
  {
    if t.signed then t.bits < 64 && x <= Max(t) - TWO63 else x < 0
  }

  lemma UnsignedSet(x: int, bits: nat, ow: Overflow)
    requires 0 < bits <= 63 && IsInt64(x)
    ensures var t := Type(false, bits);
            Chosen(CheckUnsigned(UInt64(x), 0, bits, ow), UInt64(x), ow) ==
            if ow.Sat? && WrongEnd(t, x) then Some(Max(t)) else Fitted(t, x, ow)
  {
    hide Pow2, Low;
    Pow2Word();
    Pow2Monotone(bits, 63);
    ModMod(x, bits);
  }

  lemma SignedSet(x: int, bits: nat, ow: Overflow)
    requires 0 < bits <= 64 && IsInt64(x)
    ensures var t := Type(true, bits);
            Chosen(CheckSigned(x, 0, bits, ow), x, ow) ==
            if ow.Sat? && WrongEnd(t, x) then Some(Max(t)) else Fitted(t, x, ow)
  {
    hide Pow2, CheckSigned, Fitted, WrongEnd;
    if bits < 64 { SignedSetNarrow(x, bits, ow); } else { SignedSetWide(x, ow); }
  }

  lemma SignedSetNarrow(x: int, bits: nat, ow: Overflow)
    requires 0 < bits < 64 && IsInt64(x)
    ensures var t := Type(true, bits);
            Chosen(CheckSigned(x, 0, bits, ow), x, ow) ==
            if ow.Sat? && WrongEnd(t, x) then Some(Max(t)) else Fitted(t, x, ow)
  {
    hide Pow2, SpreadSign, Wrapped, Int64, UInt64;
    Pow2Word();
    Pow2Monotone(bits - 1, 62);
    Pow2Double(63);
    SpreadIsWrapped(x, bits);
    var max := Pow2(bits - 1) - 1;
    SameAsInt64(max - x);
    PastInt64(max - x);
    SameAsInt64(-max - 1 - x);
  }

  lemma PastInt64(x: int)
    ensures TWO63 <= x < TWO64 ==> Int64(x) == x - TWO64
  {}

  lemma SignedSetWide(x: int, ow: Overflow)
    requires IsInt64(x)
    ensures var t := Type(true, 64);
            Chosen(CheckSigned(x, 0, 64, ow), x, ow) ==
            if ow.Sat? && WrongEnd(t, x) then Some(Max(t)) else Fitted(t, x, ow)
  {
    hide Pow2, SpreadSign, Wrapped;
    Pow2Word();
    SpreadIsWrapped(x, 64);
  }
}
