/** Views of byte buffers: two 4-bit nibbles, four 2-bit fields or eight bits per byte,
    always least significant first. */
module Bits {

  /** Nibble `p` of a buffer: the grey value of pixel `p` of a 4 bits per pixel line. */
  function NibbleAt(s: seq<bv8>, p: nat): bv8
    requires p < 2 * |s|
  {
    if p % 2 == 0 then s[p / 2] & 0x0F else s[p / 2] >> 4
  }

  /** Field `n` of one byte of row data: what is done to one pixel (0 = nothing). */
  function Field(b: bv8, n: nat): bv8
    requires n < 4
  {
    match n
    case 0 => b & 3
    case 1 => (b >> 2) & 3
    case 2 => (b >> 4) & 3
    case 3 => b >> 6
  }

  /** Bit `p` of a buffer: pixel `p` of a 1 bit per pixel line. */
  function BitAt(s: seq<bv8>, p: nat): bool
    requires p < 8 * |s|
  {
    BitOf(s[p / 8], p % 8)
  }

  function BitOf(b: bv8, n: nat): bool
    requires n < 8
    decreases n
  {
    if n == 0 then b & 1 == 1 else BitOf(b >> 1, n - 1)
  }

  lemma {:induction false} BitAtIs(s: seq<bv8>, b: nat, n: nat)
    requires b < |s| && n < 8
    ensures BitAt(s, 8 * b + n) == BitOf(s[b], n)
  {
  }

  /** A byte shifted left by `n`, what leaves the byte being lost. */
  function Up(v: bv8, n: nat): bv8
    requires n < 8
    decreases n
  {
    if n == 0 then v else Up(v << 1, n - 1)
  }

  /** A byte shifted right by `n`. */
  function Down(v: bv8, n: nat): bv8
    requires n < 8
    decreases n
  {
    if n == 0 then v else Down(v >> 1, n - 1)
  }

  /** Nibble `n` of a 16-bit table index. */
  function IndexNibble(idx: nat, n: nat): nat
    requires n < 4
  {
    match n
    case 0 => idx % 16
    case 1 => idx / 16 % 16
    case 2 => idx / 256 % 16
    case 3 => idx / 4096 % 16
  }

  lemma {:induction false} NibbleInSlice(s: seq<bv8>, lo: nat, hi: nat, p: nat)
    requires lo <= hi <= |s| && p < 2 * (hi - lo)
    ensures NibbleAt(s[lo..hi], p) == NibbleAt(s, 2 * lo + p)
  {
  }

  lemma {:induction false} BitInSlice(s: seq<bv8>, lo: nat, hi: nat, p: nat)
    requires lo <= hi <= |s| && p < 8 * (hi - lo)
    ensures BitAt(s[lo..hi], p) == BitAt(s, 8 * lo + p)
  {
  }

  lemma {:induction false} NibblesAsNumbers(b: bv8)
    ensures (b as int) % 16 == (b & 0x0F) as int
    ensures (b as int) / 16 == (b >> 4) as int
  {
  }

  lemma {:induction false} BitOfOr(a: bv8, b: bv8, n: nat)
    requires n < 8
    ensures BitOf(a | b, n) == (BitOf(a, n) || BitOf(b, n))
    decreases n
  {
    if n > 0 {
      HalfOfOr(a, b);
      BitOfOr(a >> 1, b >> 1, n - 1);
    } else {
      LowBitOfOr(a, b);
    }
  }

  lemma {:induction false} HalfOfOr(a: bv8, b: bv8)
    ensures (a | b) >> 1 == (a >> 1) | (b >> 1)
  {
  }

  lemma {:induction false} LowBitOfOr(a: bv8, b: bv8)
    ensures (a | b) & 1 == 1 <==> a & 1 == 1 || b & 1 == 1
  {
  }

  lemma {:induction false} BitOfAnd(a: bv8, b: bv8, n: nat)
    requires n < 8
    ensures BitOf(a & b, n) == (BitOf(a, n) && BitOf(b, n))
    decreases n
  {
    if n > 0 {
      HalfOfAnd(a, b);
      BitOfAnd(a >> 1, b >> 1, n - 1);
    } else {
      LowBitOfAnd(a, b);
    }
  }

  lemma {:induction false} HalfOfAnd(a: bv8, b: bv8)
    ensures (a & b) >> 1 == (a >> 1) & (b >> 1)
  {
  }

  lemma {:induction false} LowBitOfAnd(a: bv8, b: bv8)
    ensures (a & b) & 1 == 1 <==> a & 1 == 1 && b & 1 == 1
  {
  }

  // How bytes are made of their parts, the first one being the lowest.

  lemma {:induction false} NibblesMake(s: seq<bv8>, b: nat)
    requires b < |s|
    ensures s[b] == NibbleAt(s, 2 * b) | (NibbleAt(s, 2 * b + 1) << 4)
  {
    var v := s[b];
    assert NibbleAt(s, 2 * b) == v & 0x0F && NibbleAt(s, 2 * b + 1) == v >> 4;
    assert v == (v & 0x0F) | ((v >> 4) << 4);
  }

  lemma {:induction false} FieldsMake(b: bv8)
    ensures b == Field(b, 0) | (Field(b, 1) << 2) | (Field(b, 2) << 4) | (Field(b, 3) << 6)
    ensures forall n | 0 <= n < 4 :: Field(b, n) < 4
  {
    forall n | 0 <= n < 4
      ensures Field(b, n) < 4
    {
      assert n == 0 || n == 1 || n == 2 || n == 3;
    }
  }

  lemma {:induction false} IndexMakes(idx: nat)
    requires idx < 0x10000
    ensures idx == IndexNibble(idx, 0) + 16 * IndexNibble(idx, 1) + 256 * IndexNibble(idx, 2)
                   + 4096 * IndexNibble(idx, 3)
  {
    Hexadecimal(idx, idx / 16, idx / 256, idx / 4096);
  }

  lemma {:induction false} Hexadecimal(idx: nat, a: nat, b: nat, c: nat)
    requires a == idx / 16 && b == idx / 256 && c == idx / 4096
    ensures idx == 16 * a + idx % 16 && a == 16 * b + a % 16 && b == 16 * c + b % 16
    ensures idx < 0x10000 ==> c % 16 == c
  {
    assert b == a / 16 && c == b / 16;
  }

  lemma {:induction false} BitsMake(b: bv8)
    ensures b == (if BitOf(b, 0) then 1 else 0) | (if BitOf(b, 1) then 2 else 0) | (if BitOf(b, 2) then 4 else 0)
                 | (if BitOf(b, 3) then 8 else 0) | (if BitOf(b, 4) then 16 else 0) | (if BitOf(b, 5) then 32 else 0)
                 | (if BitOf(b, 6) then 64 else 0) | (if BitOf(b, 7) then 128 else 0)
  {
  }

  lemma {:induction false} BitOfZero(n: nat)
    requires n < 8
    ensures !BitOf(0, n)
    decreases n
  {
    if n > 0 {
      BitOfZero(n - 1);
    }
  }

  lemma {:induction false} BitOfOnes(n: nat)
    requires n < 8
    ensures BitOf(0xFF, n)
  {
    assert n == 0 || n == 1 || n == 2 || n == 3 || n == 4 || n == 5 || n == 6 || n == 7;
  }

  /** No bit moves into a byte that is shifted right. */
  lemma {:induction false} TopBitGone(v: bv8)
    ensures !BitOf(v >> 1, 7)
  {
  }

  lemma {:induction false} BitOfDown(v: bv8, shift: nat, n: nat)
    requires shift < 8 && n < 8
    ensures BitOf(Down(v, shift), n) == (n + shift < 8 && BitOf(v, n + shift))
    decreases shift
  {
    if shift > 0 {
      BitOfDown(v >> 1, shift - 1, n);
      if n + shift == 8 {
        TopBitGone(v);
      }
    }
  }

  lemma {:induction false} LowSevenBits(n: nat)
    requires n < 8
    ensures BitOf(0x7F, n) == (n < 7)
  {
    assert n == 0 || n == 1 || n == 2 || n == 3 || n == 4 || n == 5 || n == 6 || n == 7;
  }

  lemma {:induction false} UpAndDown(v: bv8)
    ensures (v << 1) >> 1 == v & 0x7F && (v << 1) & 1 == 0
  {
  }

  lemma {:induction false} BitOfDouble(v: bv8, n: nat)
    requires n < 8
    ensures BitOf(v << 1, n) == (n >= 1 && BitOf(v, n - 1))
  {
    UpAndDown(v);
    if n > 0 {
      BitOfAnd(v, 0x7F, n - 1);
      LowSevenBits(n - 1);
    }
  }

  lemma {:induction false} BitOfUp(v: bv8, shift: nat, n: nat)
    requires shift < 8 && n < 8
    ensures BitOf(Up(v, shift), n) == (n >= shift && BitOf(v, n - shift))
    decreases shift
  {
    if shift > 0 {
      BitOfUp(v << 1, shift - 1, n);
      if n >= shift - 1 {
        BitOfDouble(v, n - (shift - 1));
      }
    }
  }

  /** Bits of a byte shifted towards the higher pixels, with the bits of its lower neighbour carried in. */
  lemma {:induction false} ShiftedBit(val: bv8, below: bv8, shift: nat, n: nat)
    requires 1 <= shift <= 7 && n < 8
    ensures BitOf(Up(val, shift) | Down(below, 8 - shift), n)
         == if n >= shift then BitOf(val, n - shift) else BitOf(below, 8 - shift + n)
  {
    BitOfOr(Up(val, shift), Down(below, 8 - shift), n);
    BitOfUp(val, shift, n);
    BitOfDown(below, 8 - shift, n);
  }
}
