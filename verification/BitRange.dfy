/** The ranges of BITCOUNT and BITPOS, and BITCOUNT itself. */
module BitRange {
  import opened Bits
  import opened CString
  import opened BitCount
  import opened Bitop

  /** The index a user gives, negative ones counted from the end, kept inside the value. */
  function FromEnd(total: nat, i: int): nat {
    var k := if i < 0 then total + i else i;
    if k < 0 then 0 else k
  }

  /** The bits lo <= k < hi a range selects in a value of len bytes; None when it is empty. */
  function Selected(len: nat, start: int, end: int, isBit: bool): (r: Option<(nat, nat)>)
    ensures r.Some? ==> r.value.0 < r.value.1 <= 8 * len
  {
    var total := if isBit then 8 * len else len;
    var lo, hi := FromEnd(total, start), FromEnd(total, end);
    var last := if hi >= total then total - 1 else hi;
    if lo > last then None
    else if isBit then Some((lo, last + 1))
    else Some((8 * lo, 8 * last + 8))
  }

  /** The index conversion both commands start with. */
  method Convert(total: nat, start: int, end: int) returns (from: nat, to: int)
    ensures from == FromEnd(total, start)
    ensures to == if FromEnd(total, end) >= total then total - 1 else FromEnd(total, end)
  {
    var lo, hi := start, end;
    if lo < 0 { lo := total + lo; }
    if hi < 0 { hi := total + hi; }
    if lo < 0 { lo := 0; }
    if hi < 0 { hi := 0; }
    if hi >= total { hi := total - 1; }
    from, to := lo, hi;
  }

  // ----- the masks of the edge bytes -----

  /** first_byte_neg_mask: the i bits before the range. */
  function Before(i: nat): bv8
    requires i < 8
  {
    if i == 0 then 0 else if i == 1 then 0x80 else if i == 2 then 0xC0 else if i == 3 then 0xE0
    else if i == 4 then 0xF0 else if i == 5 then 0xF8 else if i == 6 then 0xFC else 0xFE
  }

  /** last_byte_neg_mask: the bits after bit i. */
  function After(i: nat): bv8
    requires i < 8
  {
    if i == 0 then 0x7F else if i == 1 then 0x3F else if i == 2 then 0x1F else if i == 3 then 0x0F
    else if i == 4 then 0x07 else if i == 5 then 0x03 else if i == 6 then 0x01 else 0
  }

  lemma BeforeBit(i: nat, k: nat)
    requires i < 8 && k < 8
    ensures TestBit(Before(i), k) <==> k < i
    ensures Before(i) == 0 <==> i == 0
  {}

  lemma AfterBit(i: nat, k: nat)
    requires i < 8 && k < 8
    ensures TestBit(After(i), k) <==> k > i
    ensures After(i) == 0 <==> i == 7
  {}

  // ----- counting -----

  lemma CountOnesSplit(s: seq<bv8>, lo: nat, mid: nat, hi: nat)
    requires lo <= mid <= hi
    ensures CountOnes(s, lo, hi) == CountOnes(s, lo, mid) + CountOnes(s, mid, hi)
  {
    CountSplit((k: nat) => BitAt(s, k), lo, mid, hi);
  }

  predicate SameBit(s: seq<bv8>, lo: nat, t: seq<bv8>, lo': nat, i: nat) { BitAt(s, lo + i) == BitAt(t, lo' + i) }

  lemma CountOnesShift(s: seq<bv8>, lo: nat, t: seq<bv8>, lo': nat, n: nat)
    requires forall i: nat :: i < n ==> SameBit(s, lo, t, lo', i)
    ensures CountOnes(s, lo, lo + n) == CountOnes(t, lo', lo' + n)
  {
    hide BitAt;
    var f, g := (k: nat) => BitAt(s, k), (k: nat) => BitAt(t, k);
    forall i: nat | i < n ensures AgreeAt(f, lo, g, lo', i) { assert SameBit(s, lo, t, lo', i); }
    CountShift(f, lo, g, lo', n);
  }

  lemma CountOnesNone(s: seq<bv8>, lo: nat, hi: nat)
    requires lo <= hi && forall k: nat :: lo <= k < hi ==> !BitAt(s, k)
    ensures CountOnes(s, lo, hi) == 0
  {
    hide BitAt;
    CountNone((k: nat) => BitAt(s, k), lo, hi);
  }

  lemma SliceBit(s: seq<bv8>, a: nat, b: nat, i: nat)
    requires a <= b <= |s| && i < 8 * (b - a)
    ensures BitAt(s[a..b], i) == BitAt(s, 8 * a + i)
  {
    assert (8 * a + i) / 8 == a + i / 8 && (8 * a + i) % 8 == i % 8;
  }

  lemma CountSlice(s: seq<bv8>, a: nat, b: nat)
    requires a <= b <= |s|
    ensures CountOnes(s[a..b], 0, 8 * (b - a)) == CountOnes(s, 8 * a, 8 * b)
  {
    hide BitAt, CountOnes;
    forall i: nat | i < 8 * (b - a) ensures SameBit(s[a..b], 0, s, 8 * a, i) { SliceBit(s, a, b, i); }
    CountOnesShift(s[a..b], 0, s, 8 * a, 8 * (b - a));
  }

  /** The bits of a masked byte are those of the byte that the mask keeps. */
  lemma MaskedBefore(pair: seq<bv8>, s: seq<bv8>, a: nat, i: nat)
    requires |pair| == 2 && a < |s| && i < 8 && pair[0] == And8(s[a], Before(i))
    ensures CountOnes(pair, 0, 8) == CountOnes(s, 8 * a, 8 * a + i)
  {
    hide BitAt, CountOnes, TestBit, And8, Before;
    forall k: nat | k < 8 ensures BitAt(pair, k) == (k < i && BitAt(s, 8 * a + k)) {
      BitOfByte(pair, 0, k);
      BitOfByte(s, a, k);
      TestOps(s[a], Before(i), k);
      BeforeBit(i, k);
    }
    CountOnesSplit(pair, 0, i, 8);
    CountOnesNone(pair, i, 8);
    forall k: nat | k < i ensures SameBit(pair, 0, s, 8 * a, k) {}
    CountOnesShift(pair, 0, s, 8 * a, i);
  }

  lemma MaskedAfter(pair: seq<bv8>, s: seq<bv8>, b: nat, i: nat)
    requires |pair| == 2 && b < |s| && i < 8 && pair[1] == And8(s[b], After(i))
    ensures CountOnes(pair, 8, 16) == CountOnes(s, 8 * b + i + 1, 8 * b + 8)
  {
    hide BitAt, CountOnes, TestBit, And8, After;
    forall k: nat | 8 <= k < 16 ensures BitAt(pair, k) == (k - 8 > i && BitAt(s, 8 * b + k - 8)) {
      BitOfByte(pair, 1, k - 8);
      BitOfByte(s, b, k - 8);
      TestOps(s[b], After(i), k - 8);
      AfterBit(i, k - 8);
    }
    CountOnesSplit(pair, 8, 9 + i, 16);
    CountOnesNone(pair, 8, 9 + i);
    var x, y := 9 + i, 8 * b + i + 1;
    forall k: nat | k < 7 - i ensures SameBit(pair, x, s, y, k) {
      assert BitAt(pair, x + k) == BitAt(s, 8 * b + (x + k) - 8);
    }
    CountOnesShift(pair, x, s, y, 7 - i);
  }

  /** The range inside whole bytes: what the edges add is what the masked bytes hold. */
  lemma EdgesRemoved(s: seq<bv8>, lo: nat, hi: nat, pair: seq<bv8>)
    requires lo < hi <= 8 * |s|
    requires var (a, b) := (lo / 8, (hi - 1) / 8);
             |pair| == 2 && pair[0] == And8(s[a], Before(lo % 8)) && pair[1] == And8(s[b], After((hi - 1) % 8))
    ensures CountOnes(s, 8 * (lo / 8), 8 * ((hi - 1) / 8 + 1)) ==
            CountOnes(pair, 0, 16) + CountOnes(s, lo, hi)
  {
    hide CountOnes, And8, Before, After;
    var a, b := lo / 8, (hi - 1) / 8;
    MaskedBefore(pair, s, a, lo % 8);
    MaskedAfter(pair, s, b, (hi - 1) % 8);
    CountOnesSplit(pair, 0, 8, 16);
    CountOnesSplit(s, 8 * a, lo, 8 * b + 8);
    CountOnesSplit(s, lo, hi, 8 * b + 8);
  }

  lemma NoBits(b: bv8)
    ensures And8(b, 0) == 0
  {}

  /** Counting a range that is not empty: whole bytes, less what the edge bytes hold outside the range. */
  method CountRange(p: seq<bv8>, from: nat, to: nat, isBit: bool, addr: nat, usePopcnt: bool) returns (n: nat)
    requires from <= to < if isBit then 8 * |p| else |p|
    ensures n == if isBit then CountOnes(p, from, to + 1) else CountOnes(p, 8 * from, 8 * to + 8)
  {
    hide CountOnes, And8, Before, After;
    var start, end := from, to;
    var first, last: bv8 := 0, 0;
    if isBit {
      first, last := Before(start % 8), After(end % 8);
      start, end := start / 8, end / 8;
    }
    n := RedisPopcount(p[start..end + 1], addr + start, usePopcnt);
    CountSlice(p, start, end + 1);
    if first != 0 || last != 0 {
      var pair: seq<bv8> := [if first != 0 then And8(p[start], first) else 0,
                             if last != 0 then And8(p[end], last) else 0];
      NoBits(p[start]);
      NoBits(p[end]);
      EdgesRemoved(p, from, to + 1, pair);
      var out := RedisPopcount(pair, addr, usePopcnt);
      n := n - out;
    } else if isBit {
      BeforeBit(from % 8, 0);
      AfterBit(to % 8, 0);
      assert 8 * start == from && 8 * (end + 1) == to + 1;
    }
  }

  /** bitcountCommand(): range is None when no range is given, otherwise start, end and the unit. */
  method CountCommand(key: Option<seq<bv8>>, range: Option<(int, int, bool)>, addr: nat, usePopcnt: bool)
    returns (n: nat)
    ensures key.None? ==> n == 0
    ensures key.Some? && range.None? ==> n == CountOnes(key.value, 0, 8 * |key.value|)
    ensures key.Some? && range.Some? ==>
              var (start, end, isBit) := range.value;
              var picked := Selected(|key.value|, start, end, isBit);
              n == if picked.None? || (end < start < 0) then 0
                   else CountOnes(key.value, picked.value.0, picked.value.1)
  {
    hide CountOnes;
    if key.None? { return 0; }
    var p := key.value;
    if range.None? {
      n := RedisPopcount(p, addr, usePopcnt);
      return;
    }
    var (start, end, isBit) := range.value;
    var total := |p|;
    if start < 0 && end < 0 && start > end { return 0; }
    if isBit { total := total * 8; }
    start, end := Convert(total, start, end);
    if start > end { return 0; }
    n := CountRange(p, start, end, isBit, addr, usePopcnt);
  }
}
