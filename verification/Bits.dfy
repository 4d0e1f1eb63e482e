/** Bit-level vocabulary shared by the models of the bit commands.

    A string value is a sequence of bytes. As in the SETBIT convention, bit 0 is the most
    significant bit of the first byte, and every bit past the end of the string reads as 0. */
module Bits {

  /** The byte `1 << (7 - i)`: only bit `i`, counted from the most significant end, is set. */
  function Mask(i: nat): bv8
    requires i < 8
  {
    if i == 0 then 0x80 else if i == 1 then 0x40 else if i == 2 then 0x20 else if i == 3 then 0x10
    else if i == 4 then 0x08 else if i == 5 then 0x04 else if i == 6 then 0x02 else 0x01
  }

  /** Bit `i` of byte `b`, counted from the most significant end. */
  predicate TestBit(b: bv8, i: nat)
    requires i < 8
  {
    b & Mask(i) != 0
  }

  /** Bit `k` of the zero-padded string `s`. */
  predicate BitAt(s: seq<bv8>, k: nat) {
    k / 8 < |s| && TestBit(s[k / 8], k % 8)
  }

  function One(p: bool): nat { if p then 1 else 0 }

  /** How many positions `lo <= k < hi` satisfy `f`. */
  ghost function Count(f: nat -> bool, lo: nat, hi: nat): nat
    requires lo <= hi
    decreases hi
  {
    if lo == hi then 0 else Count(f, lo, hi - 1) + One(f(hi - 1))
  }

  lemma {:induction false} CountSplit(f: nat -> bool, lo: nat, mid: nat, hi: nat)
    requires lo <= mid <= hi
    ensures Count(f, lo, hi) == Count(f, lo, mid) + Count(f, mid, hi)
    decreases hi
  {
    if mid < hi {
      CountSplit(f, lo, mid, hi - 1);
    }
  }

  predicate AgreeAt(f: nat -> bool, lo: nat, g: nat -> bool, lo': nat, i: nat) {
    f(lo + i) == g(lo' + i)
  }

  /** Counting only looks at the range, wherever the range starts. */
  lemma {:induction false} CountShift(f: nat -> bool, lo: nat, g: nat -> bool, lo': nat, n: nat)
    requires forall i: nat :: i < n ==> AgreeAt(f, lo, g, lo', i)
    ensures Count(f, lo, lo + n) == Count(g, lo', lo' + n)
    decreases n
  {
    if n > 0 {
      CountShift(f, lo, g, lo', n - 1);
      assert AgreeAt(f, lo, g, lo', n - 1);
    }
  }

  lemma {:induction false} CountNone(f: nat -> bool, lo: nat, hi: nat)
    requires lo <= hi
    requires forall k: nat :: lo <= k < hi ==> !f(k)
    ensures Count(f, lo, hi) == 0
    decreases hi
  {
    if lo < hi {
      CountNone(f, lo, hi - 1);
    }
  }

  function Ones(p0: bool, p1: bool, p2: bool, p3: bool, p4: bool, p5: bool, p6: bool, p7: bool): nat {
    One(p0) + One(p1) + One(p2) + One(p3) + One(p4) + One(p5) + One(p6) + One(p7)
  }

  lemma CountEight(f: nat -> bool, p0: bool, p1: bool, p2: bool, p3: bool,
                   p4: bool, p5: bool, p6: bool, p7: bool)
    requires f(0) == p0 && f(1) == p1 && f(2) == p2 && f(3) == p3
    requires f(4) == p4 && f(5) == p5 && f(6) == p6 && f(7) == p7
    ensures Count(f, 0, 8) == Ones(p0, p1, p2, p3, p4, p5, p6, p7)
  {
    hide *;
    CountNothing(f);
    CountOneMore(f, 0, p0);
    CountOneMore(f, 1, p1);
    CountOneMore(f, 2, p2);
    CountOneMore(f, 3, p3);
    CountOneMore(f, 4, p4);
    CountOneMore(f, 5, p5);
    CountOneMore(f, 6, p6);
    CountOneMore(f, 7, p7);
    OnesIs(p0, p1, p2, p3, p4, p5, p6, p7);
  }

  lemma CountNothing(f: nat -> bool)
    ensures Count(f, 0, 0) == 0
  {}

  lemma CountOneMore(f: nat -> bool, n: nat, p: bool)
    requires f(n) == p
    ensures Count(f, 0, n + 1) == Count(f, 0, n) + One(p)
  {}

  lemma OnesIs(p0: bool, p1: bool, p2: bool, p3: bool, p4: bool, p5: bool, p6: bool, p7: bool)
    ensures Ones(p0, p1, p2, p3, p4, p5, p6, p7)
         == One(p0) + One(p1) + One(p2) + One(p3) + One(p4) + One(p5) + One(p6) + One(p7)
  {}

  /** The set bits of `s` at positions `lo <= k < hi`. */
  ghost function CountOnes(s: seq<bv8>, lo: nat, hi: nat): nat
    requires lo <= hi
  {
    Count((k: nat) => BitAt(s, k), lo, hi)
  }

  lemma CountOnesEmpty(s: seq<bv8>, lo: nat)
    ensures CountOnes(s, lo, lo) == 0
  {
  }

  /** The byte at index `j` holds the bits `8 * j .. 8 * j + 8`. */
  lemma BitOfByte(s: seq<bv8>, j: nat, i: nat)
    requires j < |s| && i < 8
    ensures BitAt(s, 8 * j + i) == TestBit(s[j], i)
  {
    assert (8 * j + i) / 8 == j && (8 * j + i) % 8 == i;
  }

  /** A byte is determined by its eight bits. */
  lemma ByteExtensional(x: bv8, y: bv8)
    requires forall i :: 0 <= i < 8 ==> TestBit(x, i) == TestBit(y, i)
    ensures x == y
  {
    assert TestBit(x, 0) == TestBit(y, 0) && TestBit(x, 1) == TestBit(y, 1);
    assert TestBit(x, 2) == TestBit(y, 2) && TestBit(x, 3) == TestBit(y, 3);
    assert TestBit(x, 4) == TestBit(y, 4) && TestBit(x, 5) == TestBit(y, 5);
    assert TestBit(x, 6) == TestBit(y, 6) && TestBit(x, 7) == TestBit(y, 7);
  }
}
