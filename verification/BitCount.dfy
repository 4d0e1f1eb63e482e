/** redisPopcount() and the computing part of BITCOUNT. */
module BitCount {
  import opened Bits

  // ----- one byte -----

  /** The entry of the static table `bitsinbyte` for `b`. */
  function BitsInByte(b: bv8): nat {
    Ones(TestBit(b, 0), TestBit(b, 1), TestBit(b, 2), TestBit(b, 3),
         TestBit(b, 4), TestBit(b, 5), TestBit(b, 6), TestBit(b, 7))
  }

  lemma BitsInByteIsCount(b: bv8, g: nat -> bool)
    requires forall i: nat :: i < 8 ==> g(i) == TestBit(b, i)
    ensures Count(g, 0, 8) == BitsInByte(b)
  {
    CountEight(g, TestBit(b, 0), TestBit(b, 1), TestBit(b, 2), TestBit(b, 3),
               TestBit(b, 4), TestBit(b, 5), TestBit(b, 6), TestBit(b, 7));
  }

  lemma ByteCount(s: seq<bv8>, j: nat)
    requires j < |s|
    ensures CountOnes(s, 8 * j, 8 * j + 8) == BitsInByte(s[j])
  {
    var b := s[j];
    var f := (k: nat) => BitAt(s, k);
    var g := (i: nat) => i < 8 && TestBit(b, i);
    forall i: nat | i < 8
      ensures AgreeAt(f, 8 * j, g, 0, i)
    {
      BitOfByte(s, j, i);
    }
    CountShift(f, 8 * j, g, 0, 8);
    BitsInByteIsCount(b, g);
  }

  /** Counting one more byte. */
  lemma CountNextByte(s: seq<bv8>, j: nat)
    requires j < |s|
    ensures CountOnes(s, 0, 8 * (j + 1)) == CountOnes(s, 0, 8 * j) + BitsInByte(s[j])
  {
    CountSplit((k: nat) => BitAt(s, k), 0, 8 * j, 8 * j + 8);
    ByteCount(s, j);
  }

  /** The bits of `n` bytes from byte `j` on. */
  ghost function BytesSum(s: seq<bv8>, j: nat, n: nat): nat
    requires j + n <= |s|
  {
    if n == 0 then 0 else BytesSum(s, j, n - 1) + BitsInByte(s[j + n - 1])
  }

  lemma {:induction false} CountNextBytes(s: seq<bv8>, j: nat, n: nat)
    requires j + n <= |s|
    ensures CountOnes(s, 0, 8 * (j + n)) == CountOnes(s, 0, 8 * j) + BytesSum(s, j, n)
  {
    hide BitsInByte, CountOnes;
    if n > 0 {
      CountNextBytes(s, j, n - 1);
      CountNextByte(s, j + n - 1);
      assert 8 * (j + n) == 8 * (j + n - 1 + 1);
    }
  }

  // ----- the 28-byte step without the POPCNT instruction -----

  /** The bits of `b` added up in eight-bit arithmetic. */
  function ByteSum(b: bv8): bv8 {
    ((b & 1) + ((b >> 1) & 1) + ((b >> 2) & 1) + ((b >> 3) & 1))
    + (((b >> 4) & 1) + ((b >> 5) & 1) + ((b >> 6) & 1) + ((b >> 7) & 1))
  }

  // Lane values are compared, added and read as numbers through these, so that proofs about numbers need no
  // bit-vector reasoning.
  function Val(b: bv8): nat { b as int }
  function Plus(a: bv8, b: bv8): bv8 { a + b }
  function Succ(a: bv8): bv8 { a + 1 }
  function Pred(b: bv8): bv8 { b - 1 }
  predicate Below(a: bv8, n: bv8) { a < n }

  lemma ValSucc(a: bv8)
    requires Below(a, 0xFF)
    ensures Val(Succ(a)) == Val(a) + 1
  {
  }

  lemma PlusSucc(a: bv8, b: bv8)
    requires Below(a, 0x80) && Below(b, 0x80) && b != 0
    ensures Succ(Pred(b)) == b && Below(Pred(b), 0x80) && Below(Pred(b), 0xFF)
    ensures Plus(a, b) == Succ(Plus(a, Pred(b))) && Below(Plus(a, Pred(b)), 0xFF)
  {
  }

  lemma PlusZero(a: bv8)
    ensures Val(Plus(a, 0)) == Val(a) + Val(0)
  {
  }

  /** Below 128 eight-bit addition is addition. */
  lemma {:induction false} PlusVal(a: bv8, b: bv8)
    requires Below(a, 0x80) && Below(b, 0x80)
    ensures Val(Plus(a, b)) == Val(a) + Val(b)
    decreases Val(b)
  {
    hide *;
    if b == 0 {
      PlusZero(a);
    } else {
      PlusSucc(a, b);
      ValSucc(Pred(b));
      ValSucc(Plus(a, Pred(b)));
      PlusVal(a, Pred(b));
    }
  }

  lemma Smaller(a: bv8, n: bv8)
    requires Val(a) < Val(n)
    ensures Below(a, n)
  {
  }

  lemma BelowMore(a: bv8, m: bv8, n: bv8)
    requires Below(a, m) && m <= n
    ensures Below(a, n)
  {
  }

  lemma LowNibbleSum(b: bv8)
    ensures ((b & 1) + ((b >> 1) & 1) + ((b >> 2) & 1) + ((b >> 3) & 1)) as int
         == One(TestBit(b, 7)) + One(TestBit(b, 6)) + One(TestBit(b, 5)) + One(TestBit(b, 4))
  {
  }

  lemma HighNibbleSum(b: bv8)
    ensures (((b >> 4) & 1) + ((b >> 5) & 1) + ((b >> 6) & 1) + ((b >> 7) & 1)) as int
         == One(TestBit(b, 3)) + One(TestBit(b, 2)) + One(TestBit(b, 1)) + One(TestBit(b, 0))
  {
  }

  function LowNibble(b: bv8): bv8 { (b & 1) + ((b >> 1) & 1) + ((b >> 2) & 1) + ((b >> 3) & 1) }
  function HighNibble(b: bv8): bv8 { ((b >> 4) & 1) + ((b >> 5) & 1) + ((b >> 6) & 1) + ((b >> 7) & 1) }

  lemma NibbleSums(b: bv8)
    ensures Below(LowNibble(b), 5) && Below(HighNibble(b), 5)
    ensures Below(LowNibble(b), 0x80) && Below(HighNibble(b), 0x80)
    ensures Plus(LowNibble(b), HighNibble(b)) == ByteSum(b) && Below(ByteSum(b), 9)
  {
  }

  lemma NibbleValues(b: bv8)
    ensures Val(LowNibble(b)) + Val(HighNibble(b)) == BitsInByte(b)
  {
    LowNibbleSum(b);
    HighNibbleSum(b);
  }

  lemma ByteSumValue(b: bv8)
    ensures Below(ByteSum(b), 9) && Val(ByteSum(b)) == BitsInByte(b) <= 8
  {
    hide *;
    NibbleSums(b);
    NibbleValues(b);
    PlusVal(LowNibble(b), HighNibble(b));
    FewBits(b);
  }

  lemma FewBits(b: bv8)
    ensures BitsInByte(b) <= 8
  {
    hide TestBit;
  }

  /** Four bytes in memory read as a little-endian 32-bit word. */
  function Load32(b0: bv8, b1: bv8, b2: bv8, b3: bv8): bv32 {
    (b0 as bv32) | ((b1 as bv32) << 8) | ((b2 as bv32) << 16) | ((b3 as bv32) << 24)
  }

  function Pairs(x: bv32): bv32 { x - ((x >> 1) & 0x55555555) }
  function Nibbles(x: bv32): bv32 { (x & 0x33333333) + ((x >> 2) & 0x33333333) }
  function ByteSums(x: bv32): bv32 { (x + (x >> 4)) & 0x0F0F0F0F }

  // The same three stages inside one byte lane.
  function PairsLane(x: bv8): bv8 { (x & 0x55) + ((x >> 1) & 0x55) }
  function NibblesLane(x: bv8): bv8 { (x & 0x33) + ((x >> 2) & 0x33) }
  function ByteSumLane(x: bv8): bv8 { (x + (x >> 4)) & 0x0F }

  lemma PairsAdd(x: bv32)
    ensures Pairs(x) == (x & 0x55555555) + ((x >> 1) & 0x55555555)
  {
    assert x == (x & 0x55555555) + (x & 0xAAAAAAAA);
    assert (x & 0xAAAAAAAA) == ((x >> 1) & 0x55555555) + ((x >> 1) & 0x55555555);
  }

  lemma PairsAddLanes(b0: bv8, b1: bv8, b2: bv8, b3: bv8)
    ensures var x := Load32(b0, b1, b2, b3);
      (x & 0x55555555) + ((x >> 1) & 0x55555555)
      == Load32(PairsLane(b0), PairsLane(b1), PairsLane(b2), PairsLane(b3))
  {
  }

  lemma PairsLanes(b0: bv8, b1: bv8, b2: bv8, b3: bv8)
    ensures Pairs(Load32(b0, b1, b2, b3)) == Load32(PairsLane(b0), PairsLane(b1), PairsLane(b2), PairsLane(b3))
  {
    PairsAdd(Load32(b0, b1, b2, b3));
    PairsAddLanes(b0, b1, b2, b3);
  }

  lemma NibblesLanes(b0: bv8, b1: bv8, b2: bv8, b3: bv8)
    ensures Nibbles(Load32(b0, b1, b2, b3))
         == Load32(NibblesLane(b0), NibblesLane(b1), NibblesLane(b2), NibblesLane(b3))
  {
  }

  lemma ByteSumsLanes(b0: bv8, b1: bv8, b2: bv8, b3: bv8)
    requires b0 & 0x88 == 0 && b1 & 0x88 == 0 && b2 & 0x88 == 0 && b3 & 0x88 == 0
    ensures ByteSums(Load32(b0, b1, b2, b3))
         == Load32(ByteSumLane(b0), ByteSumLane(b1), ByteSumLane(b2), ByteSumLane(b3))
  {
  }

  lemma LaneIsByteSum(b: bv8)
    ensures NibblesLane(PairsLane(b)) & 0x88 == 0
    ensures ByteSumLane(NibblesLane(PairsLane(b))) == ByteSum(b)
  {
  }

  /** The three stages on one word. */
  function CountLanes(w: bv32): bv32 { ByteSums(Nibbles(Pairs(w))) }

  predicate HasLanes(w: bv32, b0: bv8, b1: bv8, b2: bv8, b3: bv8) {
    w == Load32(b0, b1, b2, b3)
  }

  /** One word of the step: the three stages leave each byte's bit count in its own lane. */
  lemma WordLanes(b0: bv8, b1: bv8, b2: bv8, b3: bv8)
    ensures HasLanes(CountLanes(Load32(b0, b1, b2, b3)), ByteSum(b0), ByteSum(b1), ByteSum(b2), ByteSum(b3))
  {
    hide Load32, Pairs, Nibbles, ByteSums, PairsLane, NibblesLane, ByteSumLane, ByteSum;
    PairsLanes(b0, b1, b2, b3);
    var c0, c1, c2, c3 := PairsLane(b0), PairsLane(b1), PairsLane(b2), PairsLane(b3);
    NibblesLanes(c0, c1, c2, c3);
    LaneIsByteSum(b0);
    LaneIsByteSum(b1);
    LaneIsByteSum(b2);
    LaneIsByteSum(b3);
    ByteSumsLanes(NibblesLane(c0), NibblesLane(c1), NibblesLane(c2), NibblesLane(c3));
  }

  function AddWords(v: bv32, w: bv32): bv32 { v + w }

  lemma LanesAdd(v: bv32, a0: bv8, a1: bv8, a2: bv8, a3: bv8, w: bv32, b0: bv8, b1: bv8, b2: bv8, b3: bv8)
    requires Below(a0, 49) && Below(a1, 49) && Below(a2, 49) && Below(a3, 49)
    requires Below(b0, 9) && Below(b1, 9) && Below(b2, 9) && Below(b3, 9)
    requires HasLanes(v, a0, a1, a2, a3) && HasLanes(w, b0, b1, b2, b3)
    ensures HasLanes(AddWords(v, w), Plus(a0, b0), Plus(a1, b1), Plus(a2, b2), Plus(a3, b3))
  {
    assert Load32(a0, a1, a2, a3) + Load32(b0, b1, b2, b3) == Load32(a0 + b0, a1 + b1, a2 + b2, a3 + b3);
  }

  /** The final multiplication; it is the two shifted additions below. */
  function Spread(x: bv32): bv32 { x * 0x01010101 }
  function Twice(x: bv32): bv32 { x + (x << 8) }
  function Fourfold(x: bv32): bv32 { x + (x << 16) }

  lemma SpreadIsShifts(x: bv32)
    ensures Spread(x) == Fourfold(Twice(x))
  {
    calc {
      Spread(x);
      x * 0x01010101;
      (x + (x << 8)) + ((x + (x << 8)) << 16);
      Fourfold(x + (x << 8));
      Fourfold(Twice(x));
    }
  }

  lemma LanesTwice(a0: bv8, a1: bv8, a2: bv8, a3: bv8)
    requires Below(a0, 57) && Below(a1, 57) && Below(a2, 57) && Below(a3, 57)
    ensures Twice(Load32(a0, a1, a2, a3)) == Load32(a0, Plus(a0, a1), Plus(a1, a2), Plus(a2, a3))
    ensures Below(Plus(a0, a1), 0x80) && Below(Plus(a1, a2), 0x80) && Below(Plus(a2, a3), 0x80)
    ensures Below(a0, 0x80) && Below(a1, 0x80) && Below(a2, 0x80) && Below(a3, 0x80)
  {
  }

  predicate TopLane(w: bv32, r: bv8) { w >> 24 == r as bv32 }

  lemma LanesFourfold(a0: bv8, a1: bv8, a2: bv8, a3: bv8)
    requires Below(a0, 0x80) && Below(a1, 0x80) && Below(a2, 0x80) && Below(a3, 0x80)
    ensures TopLane(Fourfold(Load32(a0, a1, a2, a3)), Plus(a1, a3))
  {
  }

  /** What the multiplication and the final shift leave. */
  function TopByte(w: bv32): nat { (Spread(w) >> 24) as int }

  lemma TopByteIs(w: bv32, r: bv8)
    requires TopLane(Spread(w), r)
    ensures TopByte(w) == Val(r)
  {
    Widen(r);
  }

  lemma Widen(a: bv8)
    ensures (a as bv32) as int == a as int
  {
  }

  lemma LoadOf(w: bv32, a0: bv8, a1: bv8, a2: bv8, a3: bv8)
    requires HasLanes(w, a0, a1, a2, a3)
    ensures w == Load32(a0, a1, a2, a3)
  {
    hide Load32;
  }

  /** The multiplication gathers the four lanes; their total, at most 224, fits in the top byte. */
  lemma GatherLanes(w: bv32, a0: bv8, a1: bv8, a2: bv8, a3: bv8)
    requires HasLanes(w, a0, a1, a2, a3)
    requires Below(a0, 57) && Below(a1, 57) && Below(a2, 57) && Below(a3, 57)
    ensures TopByte(w) == Val(a0) + Val(a1) + Val(a2) + Val(a3)
  {
    hide *;
    LoadOf(w, a0, a1, a2, a3);
    LanesTwice(a0, a1, a2, a3);
    LanesFourfold(a0, Plus(a0, a1), Plus(a1, a2), Plus(a2, a3));
    SpreadIsShifts(w);
    TopByteIs(w, Plus(Plus(a0, a1), Plus(a2, a3)));
    PlusVal(a0, a1);
    PlusVal(a2, a3);
    PlusVal(Plus(a0, a1), Plus(a2, a3));
  }

  /** Lane value `a` is the number `m`, and at most eight bits for each of `n` words. */
  predicate LaneHolds(a: bv8, m: nat, n: nat) {
    Val(a) == m && m <= 8 * n
  }

  lemma LaneNumber(a: bv8, m: nat, n: nat)
    requires LaneHolds(a, m, n)
    ensures Val(a) == m <= 8 * n
  {
    hide Val;
  }

  lemma NumberLane(a: bv8, m: nat, n: nat)
    requires Val(a) == m <= 8 * n
    ensures LaneHolds(a, m, n)
  {
    hide Val;
  }

  lemma LaneBounds()
    ensures Val(49) == 49 && Val(57) == 57
  {
  }

  lemma StepTotal(w: bv32, a0: bv8, a1: bv8, a2: bv8, a3: bv8, m0: nat, m1: nat, m2: nat, m3: nat)
    requires HasLanes(w, a0, a1, a2, a3)
    requires LaneHolds(a0, m0, 7) && LaneHolds(a1, m1, 7) && LaneHolds(a2, m2, 7) && LaneHolds(a3, m3, 7)
    ensures TopByte(w) == m0 + m1 + m2 + m3
  {
    hide *;
    LaneBounds();
    LaneNumber(a0, m0, 7);
    LaneNumber(a1, m1, 7);
    LaneNumber(a2, m2, 7);
    LaneNumber(a3, m3, 7);
    Smaller(a0, 57);
    Smaller(a1, 57);
    Smaller(a2, 57);
    Smaller(a3, 57);
    GatherLanes(w, a0, a1, a2, a3);
  }

  lemma AddWord(v: bv32, a0: bv8, a1: bv8, a2: bv8, a3: bv8, b0: bv8, b1: bv8, b2: bv8, b3: bv8)
    requires Below(a0, 49) && Below(a1, 49) && Below(a2, 49) && Below(a3, 49)
    requires Below(ByteSum(b0), 9) && Below(ByteSum(b1), 9) && Below(ByteSum(b2), 9) && Below(ByteSum(b3), 9)
    requires HasLanes(v, a0, a1, a2, a3)
    ensures HasLanes(AddWords(v, CountLanes(Load32(b0, b1, b2, b3))),
                     Plus(a0, ByteSum(b0)), Plus(a1, ByteSum(b1)), Plus(a2, ByteSum(b2)), Plus(a3, ByteSum(b3)))
  {
    hide *;
    WordLanes(b0, b1, b2, b3);
    LanesAdd(v, a0, a1, a2, a3, CountLanes(Load32(b0, b1, b2, b3)),
             ByteSum(b0), ByteSum(b1), ByteSum(b2), ByteSum(b3));
  }

  lemma LaneStep(a: bv8, c: bv8, m: nat, n: nat)
    requires n < 7 && LaneHolds(a, m, n)
    ensures Below(a, 49) && Below(ByteSum(c), 9)
    ensures LaneHolds(Plus(a, ByteSum(c)), m + BitsInByte(c), n + 1)
  {
    hide *;
    LaneNumber(a, m, n);
    LaneBounds();
    Smaller(a, 49);
    ByteSumValue(c);
    BelowMore(a, 49, 0x80);
    BelowMore(ByteSum(c), 9, 0x80);
    PlusVal(a, ByteSum(c));
    NumberLane(Plus(a, ByteSum(c)), m + BitsInByte(c), n + 1);
  }

  lemma BytesSumWord(b: seq<bv8>, n: nat)
    requires n + 4 <= |b|
    ensures BytesSum(b, 0, n + 4)
         == BytesSum(b, 0, n) + BitsInByte(b[n]) + BitsInByte(b[n + 1]) + BitsInByte(b[n + 2]) + BitsInByte(b[n + 3])
  {
    assert BytesSum(b, 0, n + 2) == BytesSum(b, 0, n) + BitsInByte(b[n]) + BitsInByte(b[n + 1]);
    assert BytesSum(b, 0, n + 4) == BytesSum(b, 0, n + 2) + BitsInByte(b[n + 2]) + BitsInByte(b[n + 3]);
  }

  lemma WordStep(acc: bv32, l0: bv8, l1: bv8, l2: bv8, l3: bv8, m0: nat, m1: nat, m2: nat, m3: nat,
                 n: nat, b0: bv8, b1: bv8, b2: bv8, b3: bv8)
    requires n < 7 && HasLanes(acc, l0, l1, l2, l3)
    requires LaneHolds(l0, m0, n) && LaneHolds(l1, m1, n) && LaneHolds(l2, m2, n) && LaneHolds(l3, m3, n)
    ensures HasLanes(AddWords(acc, CountLanes(Load32(b0, b1, b2, b3))),
                     Plus(l0, ByteSum(b0)), Plus(l1, ByteSum(b1)), Plus(l2, ByteSum(b2)), Plus(l3, ByteSum(b3)))
    ensures LaneHolds(Plus(l0, ByteSum(b0)), m0 + BitsInByte(b0), n + 1)
    ensures LaneHolds(Plus(l1, ByteSum(b1)), m1 + BitsInByte(b1), n + 1)
    ensures LaneHolds(Plus(l2, ByteSum(b2)), m2 + BitsInByte(b2), n + 1)
    ensures LaneHolds(Plus(l3, ByteSum(b3)), m3 + BitsInByte(b3), n + 1)
  {
    hide *;
    LaneStep(l0, b0, m0, n);
    LaneStep(l1, b1, m1, n);
    LaneStep(l2, b2, m2, n);
    LaneStep(l3, b3, m3, n);
    AddWord(acc, l0, l1, l2, l3, b0, b1, b2, b3);
  }

  lemma StartLanes(b: seq<bv8>)
    ensures HasLanes(0, 0, 0, 0, 0) && LaneHolds(0, 0, 0) && BytesSum(b, 0, 0) == 0
  {
  }

  /** The 28-byte step: seven words are reduced to lane counts, added, and gathered. */
  method Step28(b: seq<bv8>) returns (r: nat)
    requires |b| == 28
    ensures r == BytesSum(b, 0, 28)
  {
    hide *;
    var acc: bv32 := 0;
    StartLanes(b);
    ghost var l0: bv8, l1: bv8, l2: bv8, l3: bv8 := 0, 0, 0, 0;
    ghost var m0: nat, m1: nat, m2: nat, m3: nat := 0, 0, 0, 0;
    for n := 0 to 7
      invariant HasLanes(acc, l0, l1, l2, l3)
      invariant LaneHolds(l0, m0, n) && LaneHolds(l1, m1, n) && LaneHolds(l2, m2, n) && LaneHolds(l3, m3, n)
      invariant m0 + m1 + m2 + m3 == BytesSum(b, 0, 4 * n)
    {
      var b0, b1, b2, b3 := b[4 * n], b[4 * n + 1], b[4 * n + 2], b[4 * n + 3];
      WordStep(acc, l0, l1, l2, l3, m0, m1, m2, m3, n, b0, b1, b2, b3);
      BytesSumWord(b, 4 * n);
      acc := AddWords(acc, CountLanes(Load32(b0, b1, b2, b3)));
      l0, l1, l2, l3 := Plus(l0, ByteSum(b0)), Plus(l1, ByteSum(b1)), Plus(l2, ByteSum(b2)), Plus(l3, ByteSum(b3));
      m0, m1, m2, m3 := m0 + BitsInByte(b0), m1 + BitsInByte(b1), m2 + BitsInByte(b2), m3 + BitsInByte(b3);
    }
    StepTotal(acc, l0, l1, l2, l3, m0, m1, m2, m3);
    r := TopByte(acc);
  }

  // ----- the 32-byte step with the POPCNT instruction -----

  /** Eight bytes in memory read as a little-endian 64-bit word. */
  function Load64(b: seq<bv8>, j: nat): bv64
    requires j + 8 <= |b|
  {
    (b[j] as bv64) | ((b[j + 1] as bv64) << 8) | ((b[j + 2] as bv64) << 16) | ((b[j + 3] as bv64) << 24)
    | ((b[j + 4] as bv64) << 32) | ((b[j + 5] as bv64) << 40) | ((b[j + 6] as bv64) << 48) | ((b[j + 7] as bv64) << 56)
  }

  /** The POPCNT instruction: the set bits of a 64-bit word, byte by byte. */
  function Popcnt64(w: bv64): nat {
    BitsInByte((w & 0xFF) as bv8) + BitsInByte(((w >> 8) & 0xFF) as bv8)
    + BitsInByte(((w >> 16) & 0xFF) as bv8) + BitsInByte(((w >> 24) & 0xFF) as bv8)
    + BitsInByte(((w >> 32) & 0xFF) as bv8) + BitsInByte(((w >> 40) & 0xFF) as bv8)
    + BitsInByte(((w >> 48) & 0xFF) as bv8) + BitsInByte(((w >> 56) & 0xFF) as bv8)
  }

  lemma Load64Bytes(b: seq<bv8>, j: nat)
    requires j + 8 <= |b|
    ensures var w := Load64(b, j);
      && (w & 0xFF) as bv8 == b[j] && ((w >> 8) & 0xFF) as bv8 == b[j + 1]
      && ((w >> 16) & 0xFF) as bv8 == b[j + 2] && ((w >> 24) & 0xFF) as bv8 == b[j + 3]
      && ((w >> 32) & 0xFF) as bv8 == b[j + 4] && ((w >> 40) & 0xFF) as bv8 == b[j + 5]
      && ((w >> 48) & 0xFF) as bv8 == b[j + 6] && ((w >> 56) & 0xFF) as bv8 == b[j + 7]
  {
  }

  /** Eight more bytes, counted as one word. */
  lemma CountNextWord(b: seq<bv8>, j: nat)
    requires j + 8 <= |b|
    ensures CountOnes(b, 0, 8 * (j + 8)) == CountOnes(b, 0, 8 * j) + Popcnt64(Load64(b, j))
  {
    Load64Bytes(b, j);
    CountNextBytes(b, j, 8);
    BytesSumEight(b, j, BytesSum(b, j, 1), BytesSum(b, j, 2), BytesSum(b, j, 3), BytesSum(b, j, 4),
                  BytesSum(b, j, 5), BytesSum(b, j, 6), BytesSum(b, j, 7));
  }

  lemma BytesSumEight(b: seq<bv8>, j: nat, n1: nat, n2: nat, n3: nat, n4: nat, n5: nat, n6: nat, n7: nat)
    requires j + 8 <= |b|
    requires n1 == BytesSum(b, j, 1) && n2 == BytesSum(b, j, 2) && n3 == BytesSum(b, j, 3) && n4 == BytesSum(b, j, 4)
    requires n5 == BytesSum(b, j, 5) && n6 == BytesSum(b, j, 6) && n7 == BytesSum(b, j, 7)
    ensures BytesSum(b, j, 8)
         == BitsInByte(b[j]) + BitsInByte(b[j + 1]) + BitsInByte(b[j + 2]) + BitsInByte(b[j + 3])
          + BitsInByte(b[j + 4]) + BitsInByte(b[j + 5]) + BitsInByte(b[j + 6]) + BitsInByte(b[j + 7])
  {
  }

  // ----- the whole buffer -----

  predicate Misaligned(addr: nat, usePopcnt: bool) {
    if usePopcnt then addr % 8 != 0 else addr % 4 != 0
  }

  method CountWord(s: seq<bv8>, j: nat) returns (n: nat)
    requires j + 8 <= |s|
    ensures CountOnes(s, 0, 8 * (j + 8)) == CountOnes(s, 0, 8 * j) + n
  {
    CountNextWord(s, j);
    n := Popcnt64(Load64(s, j));
  }

  method CountWords(s: seq<bv8>, start: nat, seen: nat) returns (i: nat, bits: nat)
    requires start <= |s| && seen == CountOnes(s, 0, 8 * start)
    ensures start <= i <= |s| && bits == CountOnes(s, 0, 8 * i)
  {
    hide *;
    i := start;
    var c0, c1, c2, c3 := 0, 0, 0, 0;
    while |s| - i >= 32
      invariant start <= i <= |s|
      invariant seen + c0 + c1 + c2 + c3 == CountOnes(s, 0, 8 * i)
    {
      var w0 := CountWord(s, i);
      var w1 := CountWord(s, i + 8);
      var w2 := CountWord(s, i + 16);
      var w3 := CountWord(s, i + 24);
      c0, c1, c2, c3 := c0 + w0, c1 + w1, c2 + w2, c3 + w3;
      i := i + 32;
    }
    bits := seen + c0 + c1 + c2 + c3;
  }

  method CountSteps(s: seq<bv8>, start: nat, seen: nat) returns (i: nat, bits: nat)
    requires start <= |s| && seen == CountOnes(s, 0, 8 * start)
    ensures start <= i <= |s| && bits == CountOnes(s, 0, 8 * i)
  {
    i := start;
    bits := seen;
    while |s| - i >= 28
      invariant start <= i <= |s|
      invariant bits == CountOnes(s, 0, 8 * i)
    {
      var n := Step28(s[i..i + 28]);
      CountNextBytes(s, i, 28);
      BytesSumSlice(s, i, 28, 28);
      bits := bits + n;
      i := i + 28;
    }
  }

  /** redisPopcount(): `s` is the buffer, `addr` the address it starts at. The bytes before the
      alignment boundary, the wide steps and the tail together count every set bit once. */
  method RedisPopcount(s: seq<bv8>, addr: nat, usePopcnt: bool) returns (bits: nat)
    ensures bits == CountOnes(s, 0, 8 * |s|)
  {
    hide CountOnes, BitsInByte;
    bits := 0;
    var i := 0;
    CountOnesEmpty(s, 0);
    while i < |s| && Misaligned(addr + i, usePopcnt)
      invariant 0 <= i <= |s|
      invariant bits == CountOnes(s, 0, 8 * i)
    {
      CountNextByte(s, i);
      bits := bits + BitsInByte(s[i]);
      i := i + 1;
    }
    if usePopcnt {
      i, bits := CountWords(s, i, bits);
    } else {
      i, bits := CountSteps(s, i, bits);
    }
    while i < |s|
      invariant 0 <= i <= |s|
      invariant bits == CountOnes(s, 0, 8 * i)
    {
      CountNextByte(s, i);
      bits := bits + BitsInByte(s[i]);
      i := i + 1;
    }
  }

  lemma {:induction false} BytesSumSlice(s: seq<bv8>, i: nat, m: nat, n: nat)
    requires n <= m && i + m <= |s|
    ensures BytesSum(s[i..i + m], 0, n) == BytesSum(s, i, n)
  {
    hide BitsInByte;
    if n > 0 {
      BytesSumSlice(s, i, m, n - 1);
      assert s[i..i + m][n - 1] == s[i + n - 1];
    }
  }
}
