/** The computing part of the BITOP command: the four-word loops, the byte loop, and the whole. */
module BitopCommand {
  import opened Bits
  import opened CString
  import opened BitCount
  import opened Bitop

  // ----- words -----

  /** The eight bytes of a little-endian word. */
  function B0(w: bv64): bv8 { (w & 0xFF) as bv8 }
  function B1(w: bv64): bv8 { ((w >> 8) & 0xFF) as bv8 }
  function B2(w: bv64): bv8 { ((w >> 16) & 0xFF) as bv8 }
  function B3(w: bv64): bv8 { ((w >> 24) & 0xFF) as bv8 }
  function B4(w: bv64): bv8 { ((w >> 32) & 0xFF) as bv8 }
  function B5(w: bv64): bv8 { ((w >> 40) & 0xFF) as bv8 }
  function B6(w: bv64): bv8 { ((w >> 48) & 0xFF) as bv8 }
  function B7(w: bv64): bv8 { ((w >> 56) & 0xFF) as bv8 }

  function ByteOf(w: bv64, i: nat): bv8
    requires i < 8
  {
    if i == 0 then B0(w) else if i == 1 then B1(w) else if i == 2 then B2(w) else if i == 3 then B3(w)
    else if i == 4 then B4(w) else if i == 5 then B5(w) else if i == 6 then B6(w) else B7(w)
  }

  lemma LoadBytes(b: seq<bv8>, j: nat)
    requires j + 8 <= |b|
    ensures var w := Load64(b, j);
            && B0(w) == b[j] && B1(w) == b[j + 1] && B2(w) == b[j + 2] && B3(w) == b[j + 3]
            && B4(w) == b[j + 4] && B5(w) == b[j + 5] && B6(w) == b[j + 6] && B7(w) == b[j + 7]
  {
    hide Load64;
    Load64Bytes(b, j);
  }

  lemma ByteOfLoad(b: seq<bv8>, j: nat, i: nat)
    requires j + 8 <= |b| && i < 8
    ensures ByteOf(Load64(b, j), i) == b[j + i]
  {
    hide Load64, B0, B1, B2, B3, B4, B5, B6, B7;
    LoadBytes(b, j);
  }

  function And64(x: bv64, y: bv64): bv64 { x & y }
  function Or64(x: bv64, y: bv64): bv64 { x | y }
  function Xor64(x: bv64, y: bv64): bv64 { x ^ y }
  function Not64(x: bv64): bv64 { !x }

  lemma BytesAnd(x: bv64, y: bv64)
    ensures B0(And64(x, y)) == And8(B0(x), B0(y)) && B1(And64(x, y)) == And8(B1(x), B1(y))
    ensures B2(And64(x, y)) == And8(B2(x), B2(y)) && B3(And64(x, y)) == And8(B3(x), B3(y))
    ensures B4(And64(x, y)) == And8(B4(x), B4(y)) && B5(And64(x, y)) == And8(B5(x), B5(y))
    ensures B6(And64(x, y)) == And8(B6(x), B6(y)) && B7(And64(x, y)) == And8(B7(x), B7(y))
  {}

  lemma LaneAnd(x: bv64, y: bv64, i: nat)
    requires i < 8
    ensures ByteOf(And64(x, y), i) == And8(ByteOf(x, i), ByteOf(y, i))
  {
    hide And64, And8, B0, B1, B2, B3, B4, B5, B6, B7;
    BytesAnd(x, y);
  }

  lemma BytesNot(x: bv64)
    ensures B0(Not64(x)) == Not8(B0(x)) && B1(Not64(x)) == Not8(B1(x))
    ensures B2(Not64(x)) == Not8(B2(x)) && B3(Not64(x)) == Not8(B3(x))
    ensures B4(Not64(x)) == Not8(B4(x)) && B5(Not64(x)) == Not8(B5(x))
    ensures B6(Not64(x)) == Not8(B6(x)) && B7(Not64(x)) == Not8(B7(x))
  {}

  lemma LaneNot(x: bv64, i: nat)
    requires i < 8
    ensures ByteOf(Not64(x), i) == Not8(ByteOf(x, i))
  {
    hide Not64, Not8, B0, B1, B2, B3, B4, B5, B6, B7;
    BytesNot(x);
  }

  lemma OrByAnd(x: bv64, y: bv64)
    ensures Or64(x, y) == Not64(And64(Not64(x), Not64(y)))
  {}

  lemma OrByAnd8(x: bv8, y: bv8)
    ensures Or8(x, y) == Not8(And8(Not8(x), Not8(y)))
  {}

  lemma LaneOr(x: bv64, y: bv64, i: nat)
    requires i < 8
    ensures ByteOf(Or64(x, y), i) == Or8(ByteOf(x, i), ByteOf(y, i))
  {
    hide *;
    OrByAnd(x, y);
    LaneNot(And64(Not64(x), Not64(y)), i);
    LaneAnd(Not64(x), Not64(y), i);
    LaneNot(x, i);
    LaneNot(y, i);
    OrByAnd8(ByteOf(x, i), ByteOf(y, i));
  }

  lemma XorByAnd(x: bv64, y: bv64)
    ensures Xor64(x, y) == And64(Or64(x, y), Not64(And64(x, y)))
  {}

  lemma XorByAnd8(x: bv8, y: bv8)
    ensures Xor8(x, y) == And8(Or8(x, y), Not8(And8(x, y)))
  {}

  lemma LaneXor(x: bv64, y: bv64, i: nat)
    requires i < 8
    ensures ByteOf(Xor64(x, y), i) == Xor8(ByteOf(x, i), ByteOf(y, i))
  {
    hide *;
    XorByAnd(x, y);
    LaneAnd(Or64(x, y), Not64(And64(x, y)), i);
    LaneOr(x, y, i);
    LaneNot(And64(x, y), i);
    LaneAnd(x, y, i);
    XorByAnd8(ByteOf(x, i), ByteOf(y, i));
  }

  /** The word statements of the fast path: the destination with a source word. */
  datatype Statement = AndIn | OrIn | XorIn | Negate | FirstWithout | WithoutFirst

  function Word(s: Statement, x: bv64, y: bv64): bv64 {
    match s
    case AndIn => And64(x, y)
    case OrIn => Or64(x, y)
    case XorIn => Xor64(x, y)
    case Negate => Not64(x)
    case FirstWithout => And64(y, Not64(x))
    case WithoutFirst => And64(Not64(y), x)
  }

  function Lane(s: Statement, x: bv8, y: bv8): bv8 {
    match s
    case AndIn => And8(x, y)
    case OrIn => Or8(x, y)
    case XorIn => Xor8(x, y)
    case Negate => Not8(x)
    case FirstWithout => And8(y, Not8(x))
    case WithoutFirst => And8(Not8(y), x)
  }

  lemma WordLane(s: Statement, x: bv64, y: bv64, i: nat)
    requires i < 8
    ensures ByteOf(Word(s, x, y), i) == Lane(s, ByteOf(x, i), ByteOf(y, i))
  {
    hide ByteOf, And64, Or64, Xor64, Not64, And8, Or8, Xor8, Not8;
    LaneAnd(x, y, i);
    LaneOr(x, y, i);
    LaneXor(x, y, i);
    LaneNot(x, i);
    LaneNot(y, i);
    LaneAnd(y, Not64(x), i);
    LaneAnd(Not64(y), x, i);
  }

  /** Storing a word through an unsigned long pointer. */
  method StoreWord(dst: array<bv8>, at: nat, w: bv64)
    requires at + 8 <= dst.Length
    modifies dst
    ensures forall b :: 0 <= b < dst.Length ==> dst[b] == if at <= b < at + 8 then ByteOf(w, b - at) else old(dst[b])
  {
    hide ByteOf;
    dst[at], dst[at + 1], dst[at + 2], dst[at + 3] := ByteOf(w, 0), ByteOf(w, 1), ByteOf(w, 2), ByteOf(w, 3);
    dst[at + 4], dst[at + 5], dst[at + 6], dst[at + 7] := ByteOf(w, 4), ByteOf(w, 5), ByteOf(w, 6), ByteOf(w, 7);
  }

  /** One word statement. */
  method DoWord(s: Statement, dst: array<bv8>, src: seq<bv8>, at: nat)
    requires at + 8 <= dst.Length && at + 8 <= |src|
    modifies dst
    ensures forall b :: 0 <= b < dst.Length ==>
              dst[b] == if at <= b < at + 8 then Lane(s, old(dst[b]), src[b]) else old(dst[b])
  {
    hide ByteOf, Word, Lane, Load64;
    ghost var before := dst[..];
    var x, y := Load64(dst[..], at), Load64(src, at);
    forall i | 0 <= i < 8 ensures ByteOf(Word(s, x, y), i) == Lane(s, before[at + i], src[at + i]) {
      WordLane(s, x, y, i);
      ByteOfLoad(before, at, i);
      ByteOfLoad(src, at, i);
    }
    StoreWord(dst, at, Word(s, x, y));
  }

  /** The four word statements of one turn. */
  method DoFour(s: Statement, dst: array<bv8>, src: seq<bv8>, at: nat)
    requires at + 32 <= dst.Length && at + 32 <= |src|
    modifies dst
    ensures forall b :: 0 <= b < dst.Length ==>
              dst[b] == if at <= b < at + 32 then Lane(s, old(dst[b]), src[b]) else old(dst[b])
  {
    hide Lane;
    DoWord(s, dst, src, at);
    DoWord(s, dst, src, at + 8);
    DoWord(s, dst, src, at + 16);
    DoWord(s, dst, src, at + 24);
  }

  // ----- the fast path -----

  /** Every key has at least n bytes. */
  predicate AllLong(keys: Keys, n: nat) { forall i :: 0 <= i < |keys| ==> n <= |Bytes(keys[i])| }

  /** The statement AND, OR and XOR run for every further key. */
  function InPlace(op: Operation): Statement { if op.AND? then AndIn else if op.OR? then OrIn else XorIn }

  lemma InPlaceAdd(op: Operation, a: Acc, byte: bv8)
    requires op.AND? || op.OR? || op.XOR?
    ensures Lane(InPlace(op), a.out, byte) == Add(op, a, byte).out && Finish(op, a) == a.out
  {
    hide And8, Or8, Xor8, Not8;
  }

  method FastInPlace(op: Operation, keys: Keys, res: array<bv8>, minlen: nat) returns (j: nat)
    requires (op.AND? || op.OR? || op.XOR?) && keys != [] && AllLong(keys, minlen) && minlen <= res.Length
    requires forall b :: 0 <= b < minlen ==> res[b] == Byte(keys, b, 0)
    modifies res
    ensures j <= minlen && forall b :: 0 <= b < j ==> res[b] == ResultByte(op, keys, b)
  {
    hide Lane, Fold, Add, Finish, InPlace;
    j := 0;
    while minlen - j >= 32
      invariant 0 <= j <= minlen
      invariant forall b :: 0 <= b < j ==> res[b] == Fold(op, keys, b, |keys|).out
      invariant forall b :: j <= b < minlen ==> res[b] == Byte(keys, b, 0)
    {
      forall b | 0 <= b < minlen ensures Fold(op, keys, b, 1).out == Byte(keys, b, 0) { FoldFirst(op, keys, b); }
      var i := 1;
      while i < |keys|
        invariant 1 <= i <= |keys|
        invariant forall b :: 0 <= b < j ==> res[b] == Fold(op, keys, b, |keys|).out
        invariant forall b :: j <= b < j + 32 ==> res[b] == Fold(op, keys, b, i).out
        invariant forall b :: j + 32 <= b < minlen ==> res[b] == Byte(keys, b, 0)
      {
        forall b | j <= b < j + 32
          ensures Lane(InPlace(op), res[b], Bytes(keys[i])[b]) == Fold(op, keys, b, i + 1).out
        {
          FoldNext(op, keys, b, i + 1);
          InPlaceAdd(op, Fold(op, keys, b, i), Byte(keys, b, i));
        }
        DoFour(InPlace(op), res, Bytes(keys[i]), j);
        i := i + 1;
      }
      j := j + 32;
    }
    forall b | 0 <= b < j ensures res[b] == ResultByte(op, keys, b) {
      InPlaceAdd(op, Fold(op, keys, b, |keys|), 0);
    }
  }

  method FastNot(keys: Keys, res: array<bv8>, minlen: nat) returns (j: nat)
    requires |keys| == 1 && AllLong(keys, minlen) && minlen <= res.Length
    requires forall b :: 0 <= b < minlen ==> res[b] == Byte(keys, b, 0)
    modifies res
    ensures j <= minlen && forall b :: 0 <= b < j ==> res[b] == ResultByte(NOT, keys, b)
  {
    hide Not8;
    j := 0;
    while minlen - j >= 32
      invariant 0 <= j <= minlen
      invariant forall b :: 0 <= b < j ==> res[b] == Not8(Byte(keys, b, 0))
      invariant forall b :: j <= b < minlen ==> res[b] == Byte(keys, b, 0)
    {
      DoFour(Negate, res, Bytes(keys[0]), j);
      j := j + 32;
    }
  }

  /** The statement that combines the first key with the disjunction. */
  function WithFirst(op: Operation): Statement {
    if op.DIFF? then FirstWithout else if op.DIFF1? then WithoutFirst else AndIn
  }

  lemma AndSwap(x: bv8, y: bv8)
    ensures And8(x, y) == And8(y, x)
  {}

  lemma WithFirstFinish(op: Operation, a: Acc)
    requires FirstAgainstRest(op)
    ensures Lane(WithFirst(op), a.aux, a.out) == Finish(op, a)
  {
    hide And8, Or8, Xor8, Not8;
    AndSwap(a.aux, a.out);
    AndSwap(Not8(a.out), a.aux);
  }

  lemma AddOr(op: Operation, a: Acc, byte: bv8)
    requires FirstAgainstRest(op)
    ensures Add(op, a, byte) == Acc(a.out, Or8(a.aux, byte)) && Lane(OrIn, a.aux, byte) == Or8(a.aux, byte)
  {
    hide And8, Or8, Xor8, Not8;
  }

  lemma {:induction false} FoldKeepsFirst(op: Operation, keys: Keys, b: nat, n: nat)
    requires FirstAgainstRest(op) && 0 < n <= |keys|
    ensures Fold(op, keys, b, n).out == Byte(keys, b, 0)
  {
    if n > 1 { FoldKeepsFirst(op, keys, b, n - 1); }
  }

  method FastFirst(op: Operation, keys: Keys, res: array<bv8>, minlen: nat) returns (j: nat)
    requires FirstAgainstRest(op) && keys != [] && AllLong(keys, minlen) && minlen <= res.Length
    requires forall b :: 0 <= b < minlen ==> res[b] == 0
    modifies res
    ensures j <= minlen && forall b :: 0 <= b < j ==> res[b] == ResultByte(op, keys, b)
  {
    hide Lane, Fold, Add, Finish, WithFirst;
    j := 0;
    while minlen - j >= 32
      invariant 0 <= j <= minlen && j % 32 == 0
      invariant forall b :: 0 <= b < j ==> res[b] == Fold(op, keys, b, |keys|).aux
      invariant forall b :: j <= b < minlen ==> res[b] == 0
    {
      forall b | 0 <= b < minlen ensures Fold(op, keys, b, 1).aux == 0 { FoldFirst(op, keys, b); }
      var i := 1;
      while i < |keys|
        invariant 1 <= i <= |keys|
        invariant forall b :: 0 <= b < j ==> res[b] == Fold(op, keys, b, |keys|).aux
        invariant forall b :: j <= b < j + 32 ==> res[b] == Fold(op, keys, b, i).aux
        invariant forall b :: j + 32 <= b < minlen ==> res[b] == 0
      {
        forall b | j <= b < j + 32 ensures Lane(OrIn, res[b], Bytes(keys[i])[b]) == Fold(op, keys, b, i + 1).aux {
          FoldNext(op, keys, b, i + 1);
          AddOr(op, Fold(op, keys, b, i), Byte(keys, b, i));
        }
        DoFour(OrIn, res, Bytes(keys[i]), j);
        i := i + 1;
      }
      j := j + 32;
    }
    var k := 0;
    while k < j
      invariant 0 <= k <= j && k % 32 == 0
      invariant forall b :: 0 <= b < k ==> res[b] == ResultByte(op, keys, b)
      invariant forall b :: k <= b < j ==> res[b] == Fold(op, keys, b, |keys|).aux
    {
      forall b | k <= b < k + 32 ensures Lane(WithFirst(op), res[b], Bytes(keys[0])[b]) == ResultByte(op, keys, b) {
        FoldKeepsFirst(op, keys, b, |keys|);
        WithFirstFinish(op, Fold(op, keys, b, |keys|));
      }
      DoFour(WithFirst(op), res, Bytes(keys[0]), k);
      k := k + 32;
    }
  }

  // ----- ONE -----

  /** One word of common |= res & src. */
  method CommonWord(common: array<bv8>, c: nat, res: array<bv8>, src: seq<bv8>, at: nat)
    requires common != res && c + 8 <= common.Length && at + 8 <= res.Length && at + 8 <= |src|
    modifies common
    ensures forall k :: 0 <= k < common.Length ==>
              common[k] == if c <= k < c + 8 then Or8(old(common[k]), And8(res[at + k - c], src[at + k - c]))
                           else old(common[k])
  {
    hide *;
    ghost var before, from := common[..], res[..];
    var z, x, y := Load64(common[..], c), Load64(res[..], at), Load64(src, at);
    forall i | 0 <= i < 8
      ensures ByteOf(Or64(z, And64(x, y)), i) == Or8(before[c + i], And8(from[at + i], src[at + i]))
    {
      LaneOr(z, And64(x, y), i);
      LaneAnd(x, y, i);
      ByteOfLoad(before, c, i);
      ByteOfLoad(from, at, i);
      ByteOfLoad(src, at, i);
    }
    StoreWord(common, c, Or64(z, And64(x, y)));
  }

  /** The four words of common |= res & src. */
  method CommonFour(common: array<bv8>, res: array<bv8>, src: seq<bv8>, at: nat)
    requires common != res && common.Length == 32 && at + 32 <= res.Length && at + 32 <= |src|
    modifies common
    ensures forall k :: 0 <= k < 32 ==> common[k] == Or8(old(common[k]), And8(res[at + k], src[at + k]))
  {
    hide *;
    CommonWord(common, 0, res, src, at);
    CommonWord(common, 8, res, src, at + 8);
    CommonWord(common, 16, res, src, at + 16);
    CommonWord(common, 24, res, src, at + 24);
  }

  /** One word of res &= ~common. */
  method ClearWord(res: array<bv8>, at: nat, common: array<bv8>, c: nat)
    requires common != res && c + 8 <= common.Length && at + 8 <= res.Length
    modifies res
    ensures forall b :: 0 <= b < res.Length ==>
              res[b] == if at <= b < at + 8 then And8(old(res[b]), Not8(common[c + b - at])) else old(res[b])
  {
    hide *;
    ghost var before, mask := res[..], common[..];
    var x, z := Load64(res[..], at), Load64(common[..], c);
    forall i | 0 <= i < 8 ensures ByteOf(And64(x, Not64(z)), i) == And8(before[at + i], Not8(mask[c + i])) {
      LaneAnd(x, Not64(z), i);
      LaneNot(z, i);
      ByteOfLoad(before, at, i);
      ByteOfLoad(mask, c, i);
    }
    StoreWord(res, at, And64(x, Not64(z)));
  }

  method ClearFour(res: array<bv8>, at: nat, common: array<bv8>)
    requires common != res && common.Length == 32 && at + 32 <= res.Length
    modifies res
    ensures forall b :: 0 <= b < res.Length ==>
              res[b] == if at <= b < at + 32 then And8(old(res[b]), Not8(common[b - at])) else old(res[b])
  {
    hide *;
    ClearWord(res, at, common, 0);
    ClearWord(res, at + 8, common, 8);
    ClearWord(res, at + 16, common, 16);
    ClearWord(res, at + 24, common, 24);
  }

  lemma OneSteps(a: Acc, byte: bv8)
    ensures Add(ONE, a, byte) == Acc(Lane(XorIn, a.out, byte), Or8(a.aux, And8(a.out, byte)))
    ensures Finish(ONE, a) == And8(a.out, Not8(a.aux))
  {
    hide And8, Or8, Xor8, Not8;
  }

  /** One turn: 32 bytes over all the keys. */
  method OneTurn(keys: Keys, res: array<bv8>, minlen: nat, j: nat)
    requires keys != [] && AllLong(keys, minlen) && minlen <= res.Length && j + 32 <= minlen
    requires forall b :: j <= b < j + 32 ==> res[b] == Byte(keys, b, 0)
    modifies res
    ensures forall b :: 0 <= b < res.Length ==>
              res[b] == if j <= b < j + 32 then ResultByte(ONE, keys, b) else old(res[b])
  {
    hide Lane, Fold, Add, Finish, And8, Or8, Xor8, Not8;
    forall b | 0 <= b < minlen ensures Fold(ONE, keys, b, 1) == Acc(Byte(keys, b, 0), 0) { FoldFirst(ONE, keys, b); }
    var common := new bv8[32](_ => 0);
    var i := 1;
    while i < |keys|
      invariant 1 <= i <= |keys| && fresh(common)
      invariant forall b :: j <= b < j + 32 ==> res[b] == Fold(ONE, keys, b, i).out
      invariant forall k :: 0 <= k < 32 ==> common[k] == Fold(ONE, keys, j + k, i).aux
      invariant forall b :: 0 <= b < res.Length && !(j <= b < j + 32) ==> res[b] == old(res[b])
    {
      forall b | j <= b < j + 32
        ensures Fold(ONE, keys, b, i + 1) ==
                Acc(Lane(XorIn, res[b], Bytes(keys[i])[b]), Or8(common[b - j], And8(res[b], Bytes(keys[i])[b])))
      {
        FoldNext(ONE, keys, b, i + 1);
        OneSteps(Fold(ONE, keys, b, i), Byte(keys, b, i));
        assert common[b - j] == Fold(ONE, keys, j + (b - j), i).aux;
      }
      CommonFour(common, res, Bytes(keys[i]), j);
      DoFour(XorIn, res, Bytes(keys[i]), j);
      i := i + 1;
    }
    forall b | j <= b < j + 32 ensures And8(res[b], Not8(common[b - j])) == ResultByte(ONE, keys, b) {
      OneSteps(Fold(ONE, keys, b, |keys|), 0);
      assert common[b - j] == Fold(ONE, keys, j + (b - j), |keys|).aux;
    }
    ClearFour(res, j, common);
  }

  method FastOne(keys: Keys, res: array<bv8>, minlen: nat) returns (j: nat)
    requires keys != [] && AllLong(keys, minlen) && minlen <= res.Length
    requires forall b :: 0 <= b < minlen ==> res[b] == Byte(keys, b, 0)
    modifies res
    ensures j <= minlen && forall b :: 0 <= b < j ==> res[b] == ResultByte(ONE, keys, b)
  {
    hide ResultByte, Byte;
    j := 0;
    while minlen - j >= 32
      invariant 0 <= j <= minlen
      invariant forall b :: 0 <= b < j ==> res[b] == ResultByte(ONE, keys, b)
      invariant forall b :: j <= b < minlen ==> res[b] == Byte(keys, b, 0)
    {
      OneTurn(keys, res, minlen, j);
      j := j + 32;
    }
  }

  // ----- the command -----

  function MaxLen(keys: Keys): nat {
    if keys == [] then 0
    else
      var m, n := MaxLen(keys[..|keys| - 1]), |Bytes(keys[|keys| - 1])|;
      if n > m then n else m
  }

  /** The lookup loop: a missing key makes the shortest length 0, and nothing raises it again. */
  method Lengths(keys: Keys) returns (maxlen: nat, minlen: nat)
    ensures maxlen == MaxLen(keys) && AllLong(keys, minlen) && minlen <= maxlen
  {
    maxlen, minlen := 0, 0;
    var j := 0;
    while j < |keys|
      invariant 0 <= j <= |keys| && maxlen == MaxLen(keys[..j]) && minlen <= maxlen
      invariant AllLong(keys[..j], minlen)
    {
      assert keys[..j + 1][..j] == keys[..j];
      if keys[j].None? {
        minlen := 0;
      } else {
        var len := |keys[j].value|;
        if len > maxlen { maxlen := len; }
        if j == 0 || len < minlen { minlen := len; }
      }
      j := j + 1;
    }
    assert keys[..|keys|] == keys;
  }

  method FastPath(op: Operation, keys: Keys, res: array<bv8>, minlen: nat) returns (j: nat)
    requires GoodCall(op, keys) && AllLong(keys, minlen) && minlen <= res.Length
    requires forall b :: 0 <= b < res.Length ==> res[b] == 0
    modifies res
    ensures j <= minlen && forall b :: 0 <= b < j ==> res[b] == ResultByte(op, keys, b)
  {
    hide ResultByte;
    if FirstAgainstRest(op) {
      j := FastFirst(op, keys, res, minlen);
    } else {
      var first := Bytes(keys[0]);
      forall b | 0 <= b < minlen { res[b] := first[b]; }
      if op.NOT? {
        j := FastNot(keys, res, minlen);
      } else if op.ONE? {
        j := FastOne(keys, res, minlen);
      } else {
        j := FastInPlace(op, keys, res, minlen);
      }
    }
  }

  /** An error reply for the wrong number of keys, an empty result, which deletes the target, or a value. */
  datatype Outcome = WrongKeys | Empty | Stored(value: seq<bv8>)

  /** bitopCommand(): the result is as long as the longest value and its bits are those of the operation on
      zero-padded values. The command table already demands a source key. */
  method Compute(op: Operation, keys: Keys) returns (r: Outcome)
    requires keys != []
    ensures r.WrongKeys? <==> !GoodCall(op, keys)
    ensures r.Empty? ==> MaxLen(keys) == 0
    ensures r.Stored? ==> |r.value| == MaxLen(keys) > 0
    ensures r.Stored? ==> forall k: nat :: k < 8 * MaxLen(keys) ==> BitAt(r.value, k) == ResultBit(op, keys, k)
  {
    hide ResultByte, ResultBit, TestBit;
    if op.NOT? && |keys| != 1 { return WrongKeys; }
    if FirstAgainstRest(op) && |keys| < 2 { return WrongKeys; }
    var maxlen, minlen := Lengths(keys);
    if maxlen == 0 { return Empty; }
    var res := new bv8[maxlen](_ => 0);
    var j := 0;
    if minlen >= 32 { j := FastPath(op, keys, res, minlen); }
    while j < maxlen
      invariant 0 <= j <= maxlen
      invariant forall b :: 0 <= b < j ==> res[b] == ResultByte(op, keys, b)
    {
      var byte := TailByte(op, keys, j);
      res[j] := byte;
      j := j + 1;
    }
    forall k: nat | k < 8 * maxlen ensures BitAt(res[..], k) == ResultBit(op, keys, k) {
      ResultByteBits(op, keys, k / 8, k % 8);
    }
    r := Stored(res[..]);
  }
}
