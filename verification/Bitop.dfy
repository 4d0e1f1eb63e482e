/** BITOP: bitwise operations over any number of string values, four words at a time and then byte by byte. */
module Bitop {
  import opened Bits
  import opened CString
  import opened BitCount

  datatype Operation = AND | OR | XOR | NOT | DIFF | DIFF1 | ANDOR | ONE

  /** DIFF, DIFF1 and ANDOR combine the first key with the disjunction of the others. */
  predicate FirstAgainstRest(op: Operation) { op.DIFF? || op.DIFF1? || op.ANDOR? }

  /** The source values; a missing key is None. */
  type Keys = seq<Option<seq<bv8>>>

  function Bytes(k: Option<seq<bv8>>): seq<bv8> { if k.Some? then k.value else [] }

  /** NOT takes one key, the first-against-rest operations at least two, the others at least one. */
  predicate GoodCall(op: Operation, keys: Keys) {
    if op.NOT? then |keys| == 1 else if FirstAgainstRest(op) then |keys| >= 2 else |keys| >= 1
  }

  // ----- what the result is, bit by bit -----

  /** How many of the first n keys have bit k set. */
  function Having(keys: Keys, k: nat, n: nat): nat
    requires n <= |keys|
  {
    if n == 0 then 0 else Having(keys, k, n - 1) + One(BitAt(Bytes(keys[n - 1]), k))
  }

  /** Bit k of the result, over zero-padded values. */
  predicate ResultBit(op: Operation, keys: Keys, k: nat)
    requires keys != []
  {
    var all, first := Having(keys, k, |keys|), BitAt(Bytes(keys[0]), k);
    match op
    case AND => all == |keys|
    case OR => all > 0
    case XOR => all % 2 == 1
    case NOT => !first
    case DIFF => first && all == 1
    case DIFF1 => !first && all > 0
    case ANDOR => first && all > 1
    case ONE => all == 1
  }

  // ----- bytes -----

  /** What the loops carry for one byte: the value so far, and the disjunction or the common bits. */
  datatype Acc = Acc(out: bv8, aux: bv8)

  function Byte(keys: Keys, b: nat, i: nat): bv8
    requires i < |keys|
  {
    if b < |Bytes(keys[i])| then Bytes(keys[i])[b] else 0
  }

  function And8(x: bv8, y: bv8): bv8 { x & y }
  function Or8(x: bv8, y: bv8): bv8 { x | y }
  function Xor8(x: bv8, y: bv8): bv8 { x ^ y }
  function Not8(x: bv8): bv8 { !x }

  function Add(op: Operation, a: Acc, byte: bv8): Acc {
    match op
    case AND => Acc(And8(a.out, byte), a.aux)
    case OR => Acc(Or8(a.out, byte), a.aux)
    case XOR => Acc(Xor8(a.out, byte), a.aux)
    case NOT => a
    case ONE => Acc(Xor8(a.out, byte), Or8(a.aux, And8(a.out, byte)))
    case _ => Acc(a.out, Or8(a.aux, byte))
  }

  function Finish(op: Operation, a: Acc): bv8 {
    match op
    case NOT => Not8(a.out)
    case DIFF => And8(a.out, Not8(a.aux))
    case DIFF1 => And8(Not8(a.out), a.aux)
    case ANDOR => And8(a.out, a.aux)
    case ONE => And8(a.out, Not8(a.aux))
    case _ => a.out
  }

  /** The accumulator of byte b over the first n keys. */
  function Fold(op: Operation, keys: Keys, b: nat, n: nat): Acc
    requires 0 < n <= |keys|
  {
    if n == 1 then Acc(Byte(keys, b, 0), 0) else Add(op, Fold(op, keys, b, n - 1), Byte(keys, b, n - 1))
  }

  function ResultByte(op: Operation, keys: Keys, b: nat): bv8
    requires keys != []
  {
    Finish(op, Fold(op, keys, b, |keys|))
  }

  lemma ByteBit(keys: Keys, b: nat, i: nat, bit: nat)
    requires i < |keys| && bit < 8
    ensures TestBit(Byte(keys, b, i), bit) == BitAt(Bytes(keys[i]), 8 * b + bit)
  {
    hide Mask;
    assert (8 * b + bit) / 8 == b && (8 * b + bit) % 8 == bit;
    ZeroBit(bit);
  }

  lemma ZeroBit(bit: nat)
    requires bit < 8
    ensures !TestBit(0, bit)
  {}

  /** What the accumulator's bit says about the keys seen. */
  predicate Says(op: Operation, out: bool, aux: bool, first: bool, all: nat, n: nat) {
    match op
    case AND => out == (all == n)
    case OR => out == (all > 0)
    case XOR => out == (all % 2 == 1)
    case NOT => out == first
    case ONE => out == (all % 2 == 1) && aux == (all >= 2)
    case _ => out == first && aux == (all > One(first))
  }

  predicate IsMask(m: bv8) {
    m == 0x80 || m == 0x40 || m == 0x20 || m == 0x10 || m == 8 || m == 4 || m == 2 || m == 1
  }

  lemma MaskIsMask(bit: nat)
    requires bit < 8
    ensures IsMask(Mask(bit))
  {}

  predicate Hit(x: bv8, m: bv8) { x & m != 0 }

  lemma MaskOps(x: bv8, y: bv8, m: bv8)
    requires IsMask(m)
    ensures Hit(And8(x, y), m) == (Hit(x, m) && Hit(y, m))
    ensures Hit(Or8(x, y), m) == (Hit(x, m) || Hit(y, m))
    ensures Hit(Xor8(x, y), m) == (Hit(x, m) != Hit(y, m))
    ensures Hit(Not8(x), m) == !Hit(x, m)
  {
    hide *;
    MaskAnd(x, y, m);
    MaskOr(x, y, m);
    MaskXor(x, y, m);
    MaskNot(x, m);
  }

  lemma MaskAnd(x: bv8, y: bv8, m: bv8)
    requires IsMask(m)
    ensures Hit(And8(x, y), m) == (Hit(x, m) && Hit(y, m))
  {}

  lemma MaskOr(x: bv8, y: bv8, m: bv8)
    requires IsMask(m)
    ensures Hit(Or8(x, y), m) == (Hit(x, m) || Hit(y, m))
  {}

  lemma MaskXor(x: bv8, y: bv8, m: bv8)
    requires IsMask(m)
    ensures Hit(Xor8(x, y), m) == (Hit(x, m) != Hit(y, m))
  {}

  lemma MaskNot(x: bv8, m: bv8)
    requires IsMask(m)
    ensures Hit(Not8(x), m) == !Hit(x, m)
  {}

  lemma TestIsHit(x: bv8, bit: nat)
    requires bit < 8
    ensures TestBit(x, bit) == Hit(x, Mask(bit))
  {}

  lemma TestOps(x: bv8, y: bv8, bit: nat)
    requires bit < 8
    ensures TestBit(And8(x, y), bit) == (TestBit(x, bit) && TestBit(y, bit))
    ensures TestBit(Or8(x, y), bit) == (TestBit(x, bit) || TestBit(y, bit))
    ensures TestBit(Xor8(x, y), bit) == (TestBit(x, bit) != TestBit(y, bit))
    ensures TestBit(Not8(x), bit) == !TestBit(x, bit)
  {
    hide *;
    MaskIsMask(bit);
    MaskOps(x, y, Mask(bit));
    TestIsHit(x, bit);
    TestIsHit(y, bit);
    TestIsHit(And8(x, y), bit);
    TestIsHit(Or8(x, y), bit);
    TestIsHit(Xor8(x, y), bit);
    TestIsHit(Not8(x), bit);
  }

  /** Add() and Finish() on one bit. */
  function AddBool(op: Operation, out: bool, aux: bool, bit: bool): (bool, bool) {
    match op
    case AND => (out && bit, aux)
    case OR => (out || bit, aux)
    case XOR => (out != bit, aux)
    case NOT => (out, aux)
    case ONE => (out != bit, aux || (out && bit))
    case _ => (out, aux || bit)
  }

  function FinishBool(op: Operation, out: bool, aux: bool): bool {
    match op
    case NOT => !out
    case DIFF => out && !aux
    case DIFF1 => !out && aux
    case ANDOR => out && aux
    case ONE => out && !aux
    case _ => out
  }

  lemma TestAdd(op: Operation, a: Acc, byte: bv8, bit: nat)
    requires bit < 8
    ensures (TestBit(Add(op, a, byte).out, bit), TestBit(Add(op, a, byte).aux, bit))
         == AddBool(op, TestBit(a.out, bit), TestBit(a.aux, bit), TestBit(byte, bit))
  {
    hide TestBit, And8, Or8, Xor8, Not8;
    TestOps(a.out, byte, bit);
    if op.ONE? { TestOps(a.aux, And8(a.out, byte), bit); } else { TestOps(a.aux, byte, bit); }
  }

  lemma TestFinish(op: Operation, a: Acc, bit: nat)
    requires bit < 8
    ensures TestBit(Finish(op, a), bit) == FinishBool(op, TestBit(a.out, bit), TestBit(a.aux, bit))
  {
    hide TestBit, And8, Or8, Xor8, Not8;
    TestOps(a.out, Not8(a.aux), bit);
    TestOps(Not8(a.out), a.aux, bit);
    TestOps(a.out, a.aux, bit);
    TestOps(a.aux, a.out, bit);
  }

  lemma SaysNext(op: Operation, out: bool, aux: bool, bit: bool, first: bool, all: nat, n: nat)
    requires !op.NOT? && 0 < n && One(first) <= all <= n && Says(op, out, aux, first, all, n)
    ensures var (o, x) := AddBool(op, out, aux, bit); Says(op, o, x, first, all + One(bit), n + 1)
  {}

  lemma {:induction false} HavingBounds(keys: Keys, k: nat, n: nat)
    requires 0 < n <= |keys|
    ensures One(BitAt(Bytes(keys[0]), k)) <= Having(keys, k, n) <= n
  {
    hide BitAt;
    if n > 1 { HavingBounds(keys, k, n - 1); }
  }

  lemma {:induction false} FoldSays(op: Operation, keys: Keys, b: nat, bit: nat, n: nat)
    requires 0 < n <= |keys| && bit < 8 && (op.NOT? ==> |keys| == 1)
    ensures var a, k := Fold(op, keys, b, n), 8 * b + bit;
            Says(op, TestBit(a.out, bit), TestBit(a.aux, bit), BitAt(Bytes(keys[0]), k), Having(keys, k, n), n)
  {
    hide TestBit, Add, Says, AddBool, Byte;
    var k := 8 * b + bit;
    ByteBit(keys, b, n - 1, bit);
    if n == 1 {
      ZeroBit(bit);
      SaysFirst(op, BitAt(Bytes(keys[0]), k));
      assert Having(keys, k, 1) == Having(keys, k, 0) + One(BitAt(Bytes(keys[0]), k));
    } else {
      FoldSays(op, keys, b, bit, n - 1);
      HavingBounds(keys, k, n - 1);
      var a := Fold(op, keys, b, n - 1);
      TestAdd(op, a, Byte(keys, b, n - 1), bit);
      SaysNext(op, TestBit(a.out, bit), TestBit(a.aux, bit), TestBit(Byte(keys, b, n - 1), bit),
               BitAt(Bytes(keys[0]), k), Having(keys, k, n - 1), n - 1);
    }
  }

  lemma SaysFirst(op: Operation, first: bool)
    ensures Says(op, first, false, first, One(first), 1)
  {}

  /** The byte the loops compute holds the eight result bits. */
  lemma ResultByteBits(op: Operation, keys: Keys, b: nat, bit: nat)
    requires GoodCall(op, keys) && bit < 8
    ensures TestBit(ResultByte(op, keys, b), bit) == ResultBit(op, keys, 8 * b + bit)
  {
    hide TestBit, Fold, Finish, Having, BitAt;
    FoldSays(op, keys, b, bit, |keys|);
    TestFinish(op, Fold(op, keys, b, |keys|), bit);
    HavingBounds(keys, 8 * b + bit, |keys|);
  }

  // ----- the byte loop -----

  /** Past this point no further key changes the byte. */
  predicate Settled(op: Operation, a: Acc) {
    match op
    case AND => a.out == 0
    case OR => a.out == 0xFF
    case XOR => false
    case NOT => false
    case _ => a.aux == 0xFF
  }

  lemma SettledAdd(op: Operation, a: Acc, byte: bv8)
    requires Settled(op, a)
    ensures Settled(op, Add(op, a, byte)) && Finish(op, Add(op, a, byte)) == Finish(op, a)
  {}

  lemma {:induction false} SettledFold(op: Operation, keys: Keys, b: nat, n: nat, m: nat)
    requires 0 < n <= m <= |keys| && Settled(op, Fold(op, keys, b, n))
    ensures Settled(op, Fold(op, keys, b, m)) && Finish(op, Fold(op, keys, b, m)) == Finish(op, Fold(op, keys, b, n))
  {
    hide Settled, Add, Finish, Byte;
    if n < m {
      SettledFold(op, keys, b, n, m - 1);
      SettledAdd(op, Fold(op, keys, b, m - 1), Byte(keys, b, m - 1));
    }
  }

  /** What the variables of the byte loop hold. */
  predicate Carries(op: Operation, a: Acc, output: bv8, disjunction: bv8, common: bv8) {
    match op
    case NOT => output == Not8(a.out)
    case ONE => output == And8(a.out, Not8(a.aux)) && common == a.aux
    case AND => output == a.out
    case OR => output == a.out
    case XOR => output == a.out
    case _ => output == a.out && disjunction == a.aux
  }

  lemma CarriesFirst(op: Operation, byte: bv8)
    ensures Carries(op, Acc(byte, 0), if op.NOT? then Not8(byte) else byte, 0, 0)
  {}

  /** Clearing the common bits at every step, as the byte loop does, or once at the end. */
  lemma CommonCleared(out: bv8, aux: bv8, byte: bv8)
    ensures Or8(aux, And8(And8(out, Not8(aux)), byte)) == Or8(aux, And8(out, byte))
    ensures var common := Or8(aux, And8(out, byte));
            And8(Xor8(And8(out, Not8(aux)), byte), Not8(common)) == And8(Xor8(out, byte), Not8(common))
  {}

  /** One byte of the result, with the early exits. */
  method TailByte(op: Operation, keys: Keys, j: nat) returns (r: bv8)
    requires GoodCall(op, keys)
    ensures r == ResultByte(op, keys, j)
  {
    hide And8, Or8, Xor8, Not8, Fold;
    var output := if |Bytes(keys[0])| <= j then 0 else Bytes(keys[0])[j];
    if op.NOT? { output := Not8(output); }
    var disjunction, common: bv8 := 0, 0;
    FoldFirst(op, keys, j);
    CarriesFirst(op, Byte(keys, j, 0));
    var i := 1;
    while i < |keys|
      invariant 1 <= i <= |keys|
      invariant Carries(op, Fold(op, keys, j, i), output, disjunction, common)
    {
      ghost var a := Fold(op, keys, j, i);
      FoldNext(op, keys, j, i + 1);
      var byte := if |Bytes(keys[i])| <= j then 0 else Bytes(keys[i])[j];
      var skip := false;
      match op {
        case AND => output := And8(output, byte); skip := output == 0;
        case OR => output := Or8(output, byte); skip := output == 0xFF;
        case XOR => output := Xor8(output, byte);
        case ONE =>
          CommonCleared(a.out, a.aux, byte);
          common := Or8(common, And8(output, byte));
          output := Xor8(output, byte);
          output := And8(output, Not8(common));
          skip := common == 0xFF;
        case NOT =>
        case _ => disjunction := Or8(disjunction, byte); skip := disjunction == 0xFF;
      }
      i := i + 1;
      if skip {
        SettledFold(op, keys, j, i, |keys|);
        break;
      }
    }
    match op
    case DIFF => r := And8(output, Not8(disjunction));
    case DIFF1 => r := And8(Not8(output), disjunction);
    case ANDOR => r := And8(output, disjunction);
    case _ => r := output;
  }

  lemma FoldFirst(op: Operation, keys: Keys, b: nat)
    requires keys != []
    ensures Fold(op, keys, b, 1) == Acc(Byte(keys, b, 0), 0)
  {}

  lemma FoldNext(op: Operation, keys: Keys, b: nat, n: nat)
    requires 1 < n <= |keys|
    ensures Fold(op, keys, b, n) == Add(op, Fold(op, keys, b, n - 1), Byte(keys, b, n - 1))
  {}
}
