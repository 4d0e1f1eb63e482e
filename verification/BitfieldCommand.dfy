/** The BITFIELD command: a list of operations on one string value. */
module BitfieldCommand {
  import opened Bits
  import opened CString
  import opened Bitfield

  datatype Op =
    | Get(t: Type, offset: nat)
    | Set(t: Type, offset: nat, value: int, ow: Overflow)
    | IncrBy(t: Type, offset: nat, incr: int, ow: Overflow)

  datatype Reply = Integer(value: int) | Null

  predicate IsOp(op: Op) {
    && IsType(op.t)
    && (op.Set? ==> IsInt64(op.value))
    && (op.IncrBy? ==> IsInt64(op.incr))
  }

  // ----- the command on an infinite bit array with mathematical integers -----

  predicate InRange(t: Type, v: int)
    requires IsType(t)
  {
    Min(t) <= v <= Max(t)
  }

  ghost function Value(z: iset<nat>, t: Type, offset: nat): (v: int)
    requires IsType(t)
    ensures InRange(t, v)
  {
    Pow2Double(t.bits);
    var u := Field(z, offset, t.bits);
    if t.signed then AsSigned(u, t.bits) else u
  }

  /** What an operation should store, given the value it finds. */
  ghost function Ideal(op: Op, found: int): Option<int>
    requires IsOp(op) && !op.Get?
  {
    if op.Set? then Fitted(op.t, op.value, op.ow) else Fitted(op.t, found + op.incr, op.ow)
  }

  /** The operations that saturate to the wrong end. */
  predicate Misses(op: Op)
    requires IsOp(op)
  {
    op.Set? && op.ow.Sat? && WrongEnd(op.t, op.value)
  }

  /** What it stores: the overflow check of its type, on 64-bit words, chooses. */
  function Actual(op: Op, found: int): Option<int>
    requires IsOp(op) && !op.Get? && InRange(op.t, found)
  {
    var bits, ow := op.t.bits, op.ow;
    if op.t.signed then
      if op.Set? then Chosen(CheckSigned(op.value, 0, bits, ow), op.value, ow)
      else Chosen(CheckSigned(found, op.incr, bits, ow), Int64(found + op.incr), ow)
    else if op.Set? then Chosen(CheckUnsigned(UInt64(op.value), 0, bits, ow), UInt64(op.value), ow)
    else Chosen(CheckUnsigned(found, op.incr, bits, ow), UInt64(found + op.incr), ow)
  }

  ghost function Step(z: iset<nat>, op: Op, stored: Option<int>): (iset<nat>, Reply)
    requires IsOp(op)
  {
    var found := Value(z, op.t, op.offset);
    if op.Get? then (z, Integer(found))
    else match stored
         case None => (z, Null)
         case Some(v) =>
           (Written(z, op.offset, op.t.bits, Low(v, op.t.bits)), Integer(if op.Set? then found else v))
  }

  ghost function ActualStep(z: iset<nat>, op: Op): (iset<nat>, Reply)
    requires IsOp(op)
  {
    Step(z, op, if op.Get? then None else Actual(op, Value(z, op.t, op.offset)))
  }

  ghost function IdealStep(z: iset<nat>, op: Op): (iset<nat>, Reply)
    requires IsOp(op)
  {
    Step(z, op, if op.Get? then None else Ideal(op, Value(z, op.t, op.offset)))
  }

  predicate AreOps(ops: seq<Op>) { forall i :: 0 <= i < |ops| ==> IsOp(ops[i]) }

  ghost function Run(z: iset<nat>, ops: seq<Op>): (iset<nat>, seq<Reply>)
    requires AreOps(ops)
  {
    if ops == [] then (z, [])
    else
      var (y, replies) := Run(z, ops[..|ops| - 1]);
      var (x, reply) := ActualStep(y, ops[|ops| - 1]);
      (x, replies + [reply])
  }

  ghost function IdealRun(z: iset<nat>, ops: seq<Op>): (iset<nat>, seq<Reply>)
    requires AreOps(ops)
  {
    if ops == [] then (z, [])
    else
      var (y, replies) := IdealRun(z, ops[..|ops| - 1]);
      var (x, reply) := IdealStep(y, ops[|ops| - 1]);
      (x, replies + [reply])
  }

  /** Exactly when an operation stores what it should, and what it stores otherwise. */
  lemma StoresIdeal(op: Op, found: int)
    requires IsOp(op) && !op.Get? && InRange(op.t, found)
    ensures Actual(op, found) == Ideal(op, found) <==> !Misses(op)
    ensures Misses(op) ==> Actual(op, found) == Some(Max(op.t))
  {
    hide Pow2, Fitted, CheckSigned, CheckUnsigned, WrongEnd, Chosen, Int64, UInt64, Min, Max;
    var bits, ow := op.t.bits, op.ow;
    assert op.t == Type(op.t.signed, bits);
    RangeOf(op.t, found);
    if op.t.signed {
      if op.Set? { SignedSet(op.value, bits, ow); } else { SignedIncr(found, op.incr, bits, ow); }
    } else {
      if op.Set? { UnsignedSet(op.value, bits, ow); } else { UnsignedIncr(found, op.incr, bits, ow); }
    }
    if Misses(op) { IdealElsewhere(op.t, op.value); }
  }

  lemma RangeOf(t: Type, v: int)
    requires IsType(t) && InRange(t, v)
    ensures !t.signed ==> 0 <= v < Pow2(t.bits) && t.bits <= 63
  {
    hide Pow2;
  }

  /** The wrong end is not where saturation should end. */
  lemma IdealElsewhere(t: Type, x: int)
    requires IsType(t) && IsInt64(x) && WrongEnd(t, x)
    ensures Fitted(t, x, Sat) != Some(Max(t))
  {
    hide Pow2;
    Pow2Word();
    Pow2Double(t.bits);
    if t.signed && t.bits < 64 { Pow2Monotone(t.bits - 1, 62); Pow2Double(63); }
  }

  /** A list without such operations does what it should, replies and bits. */
  lemma {:induction false} RunIsIdeal(z: iset<nat>, ops: seq<Op>)
    requires AreOps(ops) && forall i :: 0 <= i < |ops| ==> !Misses(ops[i])
    ensures Run(z, ops) == IdealRun(z, ops)
  {
    hide Misses, Step, Ideal, Actual, Value, InRange;
    if ops != [] {
      var op := ops[|ops| - 1];
      RunIsIdeal(z, ops[..|ops| - 1]);
      var y := Run(z, ops[..|ops| - 1]).0;
      if !op.Get? { StoresIdeal(op, Value(y, op.t, op.offset)); }
    }
  }

  lemma FittedInRange(t: Type, x: int, ow: Overflow)
    requires IsType(t)
    ensures Fitted(t, x, ow).Some? ==> Min(t) <= Fitted(t, x, ow).value <= Max(t)
  {
    hide Pow2, Wrapped;
    Pow2Double(t.bits);
    WrappedInRange(t, x);
  }

  /** What is stored is what a later GET of the same field replies. */
  lemma GetAfterWrite(z: iset<nat>, op: Op)
    requires IsOp(op) && !op.Get? && ActualStep(z, op).1 != Null
    ensures Some(Value(ActualStep(z, op).0, op.t, op.offset)) == Actual(op, Value(z, op.t, op.offset))
  {
    hide Pow2, Low, Field, Written, Ideal, Actual;
    var v := Actual(op, Value(z, op.t, op.offset)).value;
    StoredInRange(op, Value(z, op.t, op.offset));
    FieldWritten(z, op.offset, op.t.bits, Low(v, op.t.bits));
    LowTwice(v, op.t.bits);
    WrappedInRange(op.t, v);
  }

  lemma StoredInRange(op: Op, found: int)
    requires IsOp(op) && !op.Get? && InRange(op.t, found)
    ensures Actual(op, found).Some? ==> InRange(op.t, Actual(op, found).value)
  {
    hide Pow2, Fitted, Actual;
    Pow2Double(op.t.bits);
    StoresIdeal(op, found);
    if op.Set? { FittedInRange(op.t, op.value, op.ow); }
    if op.IncrBy? { FittedInRange(op.t, found + op.incr, op.ow); }
  }

  lemma LowTwice(v: int, bits: nat)
    ensures Low(v, bits) % Pow2(bits) == Low(v, bits)
  {
    QuotientIs(Low(v, bits), Pow2(bits), 0, Low(v, bits));
  }

  // ----- the code -----

  lemma BitOfLow(v: int, bits: nat, i: nat)
    requires i < bits <= 64
    ensures BitOf(UInt64(v), i) == BitOf(Low(v, bits), i)
  {
    hide *;
    ModMod(v, bits);
    LowBitOf(UInt64(v), bits, i);
  }

  lemma LowBitOf(c: nat, bits: nat, i: nat)
    requires i < bits
    ensures BitOf(c, i) == BitOf(Low(c, bits), i)
  {
    hide BitOf, Pow2;
    LowQuotient(c, bits);
    SplitPower(bits, i, c / Pow2(bits));
    SameBit(c, c / Pow2(bits), Low(c, bits), i, Pow2(bits - i - 1));
  }

  lemma LowQuotient(c: nat, bits: nat)
    ensures c == Pow2(bits) * (c / Pow2(bits)) + Low(c, bits)
  {
    hide Pow2;
  }

  lemma SplitPower(bits: nat, i: nat, q: nat)
    requires i < bits
    ensures Pow2(bits) * q == Pow2(i) * (2 * Pow2(bits - i - 1)) * q
  {
    hide Pow2;
    Pow2Add(i, bits - i);
    Pow2Double(bits - i);
  }

  lemma SameBit(c: nat, q: nat, r: nat, i: nat, m: nat)
    requires c == Pow2(i) * (2 * m) * q + r
    ensures BitOf(c, i) == BitOf(r, i)
  {
    hide Pow2;
    var d := Pow2(i);
    var a, b := r / d, r % d;
    assert r == d * a + b;
    assert d * (2 * m) * q == d * (2 * (m * q));
    assert c == d * (2 * (m * q) + a) + b;
    QuotientIs(c, d, 2 * (m * q) + a, b);
  }

  lemma WrittenLow(z: iset<nat>, offset: nat, bits: nat, v: int)
    requires bits <= 64
    ensures Written(z, offset, bits, UInt64(v)) == Written(z, offset, bits, Low(v, bits))
  {
    hide BitOf;
    forall i: nat | i < bits ensures BitOf(UInt64(v), i) == BitOf(Low(v, bits), i) { BitOfLow(v, bits, i); }
  }

  predicate Copied(buf: seq<bv8>, p: seq<bv8>, byte: nat, i: nat) {
    i < |buf| && buf[i] == if byte + i < |p| then p[byte + i] else 0
  }

  lemma BufferBit(buf: seq<bv8>, p: seq<bv8>, byte: nat, k: nat)
    requires k / 8 < |buf| && Copied(buf, p, byte, k / 8)
    ensures k in BitSet(buf) <==> 8 * byte + k in BitSet(p)
  {
    hide TestBit;
    assert (8 * byte + k) / 8 == byte + k / 8 && (8 * byte + k) % 8 == k % 8;
    ZeroByte(k % 8);
  }

  lemma ZeroByte(i: nat)
    requires i < 8
    ensures !TestBit(0, i)
  {}

  lemma BufferField(buf: seq<bv8>, p: seq<bv8>, offset: nat, bits: nat)
    requires bits <= 64 && |buf| == 9 && forall k :: 0 <= k < 9 ==> Copied(buf, p, offset / 8, k)
    ensures Field(BitSet(buf), offset % 8, bits) == Field(BitSet(p), offset, bits)
  {
    hide BitSet, Field;
    forall k: nat | k < bits ensures SameAt(BitSet(buf), offset % 8, BitSet(p), offset, k) {
      BufferBit(buf, p, offset / 8, offset % 8 + k);
    }
    FieldAgrees(BitSet(buf), BitSet(p), offset % 8, offset, bits);
  }

  /** GET through a nine-byte copy, which always suffices. */
  method GetOp(p: seq<bv8>, t: Type, offset: nat) returns (v: int)
    requires IsType(t)
    ensures v == Value(BitSet(p), t, offset)
  {
    hide Field, BitSet, Pow2;
    var byte := offset / 8;
    var buf := new bv8[9](_ => 0);
    var i := 0;
    while i < 9 && i + byte < |p|
      invariant 0 <= i <= 9 && (i > 0 ==> byte + i <= |p|)
      invariant forall k :: 0 <= k < i ==> buf[k] == p[byte + k]
      invariant forall k :: i <= k < 9 ==> buf[k] == 0
    {
      buf[i] := p[byte + i];
      i := i + 1;
    }
    var at := offset - byte * 8;
    BufferField(buf[..], p, offset, t.bits);
    if t.signed { v := GetSigned(buf[..], at, t.bits); } else { v := GetUnsigned(buf[..], at, t.bits); }
  }

  /** SET and INCRBY: fetch, check, store. */
  method Write(p: array<bv8>, op: Op) returns (reply: Reply)
    requires IsOp(op) && !op.Get? && op.offset + op.t.bits <= 8 * p.Length
    modifies p
    ensures (BitSet(p[..]), reply) == old(ActualStep(BitSet(p[..]), op))
  {
    hide Pow2, Low, Field, Written, Chosen, CheckSigned, CheckUnsigned, Int64, UInt64, Min, Max;
    ghost var z := BitSet(p[..]);
    var bits, ow := op.t.bits, op.ow;
    if op.t.signed {
      var found := GetSigned(p[..], op.offset, bits);
      var stored: Option<int>;
      assert op.t == Type(true, bits) && found == Value(z, op.t, op.offset);
      if op.IncrBy? {
        stored := Chosen(CheckSigned(found, op.incr, bits, ow), Int64(found + op.incr), ow);
      } else {
        stored := Chosen(CheckSigned(op.value, 0, bits, ow), op.value, ow);
      }
      if stored.None? { return Null; }
      reply := Integer(if op.Set? then found else stored.value);
      WrittenLow(z, op.offset, bits, stored.value);
      SetUnsigned(p, op.offset, bits, UInt64(stored.value));
    } else {
      var found := GetUnsigned(p[..], op.offset, bits);
      var stored: Option<int>;
      assert op.t == Type(false, bits) && found == Value(z, op.t, op.offset);
      if op.IncrBy? {
        stored := Chosen(CheckUnsigned(found, op.incr, bits, ow), UInt64(found + op.incr), ow);
      } else {
        stored := Chosen(CheckUnsigned(UInt64(op.value), 0, bits, ow), UInt64(op.value), ow);
      }
      if stored.None? { return Null; }
      reply := Integer(if op.Set? then found else stored.value);
      WrittenLow(z, op.offset, bits, stored.value);
      SetUnsigned(p, op.offset, bits, UInt64(stored.value));
    }
  }

  function Bytes(key: Option<seq<bv8>>): seq<bv8> { if key.Some? then key.value else [] }

  predicate ReadOnly(ops: seq<Op>) { forall i :: 0 <= i < |ops| ==> ops[i].Get? }

  /** The bytes the writes of a list need. */
  function Needed(ops: seq<Op>): nat
    requires AreOps(ops)
  {
    if ops == [] then 0
    else
      var op, rest := ops[|ops| - 1], Needed(ops[..|ops| - 1]);
      var n := (op.offset + op.t.bits - 1) / 8 + 1;
      if op.Get? || n < rest then rest else n
  }

  lemma {:induction false} NeededFits(ops: seq<Op>, i: nat)
    requires AreOps(ops) && i < |ops| && !ops[i].Get?
    ensures ops[i].offset + ops[i].t.bits <= 8 * Needed(ops)
  {
    if i < |ops| - 1 {
      NeededFits(ops[..|ops| - 1], i);
      assert ops[..|ops| - 1][i] == ops[i];
    }
  }

  lemma OnesGrown(s: seq<bv8>, t: seq<bv8>)
    requires |s| <= |t| && s == t[..|s|] && forall i :: |s| <= i < |t| ==> t[i] == 0
    ensures BitSet(t) == BitSet(s)
  {
    forall k: nat ensures BitAt(t, k) == BitAt(s, k) {
      if k / 8 < |s| {
        assert t[..|s|][k / 8] == t[k / 8];
      } else if k / 8 < |t| {
        ZeroByte(k % 8);
      }
    }
  }

  /** The highest bit a list writes, and whether it writes at all. */
  method HighestWrite(ops: seq<Op>) returns (readonly: bool, highest: nat)
    requires AreOps(ops)
    ensures readonly == ReadOnly(ops)
    ensures !readonly ==> highest / 8 + 1 == Needed(ops)
  {
    readonly, highest := true, 0;
    var j := 0;
    while j < |ops|
      invariant 0 <= j <= |ops|
      invariant readonly == ReadOnly(ops[..j])
      invariant if readonly then highest == 0 && Needed(ops[..j]) == 0 else highest / 8 + 1 == Needed(ops[..j])
    {
      var op := ops[j];
      assert ops[..j + 1][..j] == ops[..j] && ops[..j + 1][j] == op;
      if !op.Get? {
        readonly := false;
        if highest < op.offset + op.t.bits - 1 { highest := op.offset + op.t.bits - 1; }
      }
      j := j + 1;
    }
    assert ops[..|ops|] == ops;
  }

  /** bitfieldGeneric() after parsing: the replies and the bits are those of the run on the infinite array; a
      list of GETs leaves the key alone, any other makes room for its highest write. */
  method RunCommand(key: Option<seq<bv8>>, ops: seq<Op>) returns (key': Option<seq<bv8>>, replies: seq<Reply>)
    requires AreOps(ops)
    ensures (BitSet(Bytes(key')), replies) == Run(BitSet(Bytes(key)), ops)
    ensures ReadOnly(ops) ==> key' == key
    ensures !ReadOnly(ops) ==>
              key'.Some? && |key'.value| == if Needed(ops) < |Bytes(key)| then |Bytes(key)| else Needed(ops)
  {
    hide ActualStep, Value, Needed, IsOp, BitSet;
    var readonly, highest := HighestWrite(ops);
    var s := Bytes(key);
    var size := if readonly || highest / 8 + 1 < |s| then |s| else highest / 8 + 1;
    var p := new bv8[size](i => if 0 <= i < |s| then s[i] else 0);
    assert p[..][..|s|] == s;
    OnesGrown(s, p[..]);
    ghost var z := BitSet(s);
    replies := [];
    var j := 0;
    while j < |ops|
      invariant 0 <= j <= |ops| && fresh(p)
      invariant (BitSet(p[..]), replies) == Run(z, ops[..j])
      invariant readonly ==> p[..] == s
    {
      var op := ops[j];
      assert ops[..j + 1][..j] == ops[..j];
      var reply: Reply;
      if op.Get? {
        GetStep(BitSet(p[..]), op);
        var v := GetOp(p[..], op.t, op.offset);
        reply := Integer(v);
      } else {
        NeededFits(ops, j);
        reply := Write(p, op);
      }
      replies := replies + [reply];
      j := j + 1;
    }
    assert ops[..|ops|] == ops;
    key' := if readonly then key else Some(p[..]);
  }

  lemma GetStep(z: iset<nat>, op: Op)
    requires IsOp(op) && op.Get?
    ensures ActualStep(z, op) == (z, Integer(Value(z, op.t, op.offset)))
    ensures IsType(op.t)
  {}
}
