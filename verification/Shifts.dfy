/** The two in-place buffer shifts of the driver. Both move a little-endian number up by some bits. */
module Shifts {
  import Arith
  import opened Bits

  function ShiftedByteAt(s: seq<bv8>, carry: bv8, shift: nat, i: nat): bv8
    requires 1 <= shift <= 7 && i < |s|
  {
    Up(s[i], shift) | (if i == 0 then carry else Down(s[i - 1], 8 - shift))
  }

  /** A buffer moved `shift` bits towards its end, with `carry` entering at the front. */
  function Shifted(s: seq<bv8>, carry: bv8, shift: nat): (r: seq<bv8>)
    requires 1 <= shift <= 7
    ensures |r| == |s|
  {
    seq(|s|, i requires 0 <= i < |s| => ShiftedByteAt(s, carry, shift, i))
  }

  lemma {:induction false} ByteDone(before: seq<bv8>, now: seq<bv8>, next: seq<bv8>, start: nat, len: nat, carry: bv8,
                                    shift: nat, i: nat)
    requires 1 <= shift <= 7 && i < len && start + len <= |before| == |now|
    requires now[start..start + i] == Shifted(before[start..start + len], carry, shift)[..i]
    requires next == now[start + i := ShiftedByteAt(before[start..start + len], carry, shift, i)]
    ensures next[start..start + (i + 1)] == Shifted(before[start..start + len], carry, shift)[..i + 1]
  {
    var t := Shifted(before[start..start + len], carry, shift);
    assert next[start..start + (i + 1)] == now[start..start + i] + [t[i]];
    assert t[..i + 1] == t[..i] + [t[i]];
  }

  method NibbleShiftRight(buf: array<bv8>, start: nat, len: nat)
    requires start + len <= buf.Length
    modifies buf
    ensures buf[start..start + len] == Shifted(old(buf[start..start + len]), 0x0F, 4)
    ensures buf[..start] == old(buf[..start]) && buf[start + len..] == old(buf[start + len..])
  {
    ghost var before := buf[..];
    var carry: bv8 := 0x0F;
    for i := 0 to len
      invariant carry == if i == 0 then 0x0F else Down(before[start + i - 1], 4)
      invariant buf[start..start + i] == Shifted(before[start..start + len], 0x0F, 4)[..i]
      invariant forall j | 0 <= j < buf.Length && !(start <= j < start + i) :: buf[j] == before[j]
    {
      ghost var now := buf[..];
      var val := buf[start + i];
      buf[start + i] := (val << 4) | carry;
      carry := (val & 0xF0) >> 4;
      ByteDone(before, now, buf[..], start, len, 0x0F, 4, i);
    }
  }

  method BitShiftRight(buf: array<bv8>, start: nat, len: nat, shift: nat)
    requires start + len <= buf.Length && 1 <= shift <= 7
    modifies buf
    ensures buf[start..start + len] == Shifted(old(buf[start..start + len]), 0, shift)
    ensures buf[..start] == old(buf[..start]) && buf[start + len..] == old(buf[start + len..])
  {
    ghost var before := buf[..];
    var carry: bv8 := 0;
    for i := 0 to len
      invariant carry == if i == 0 then 0 else Down(before[start + i - 1], 8 - shift)
      invariant buf[start..start + i] == Shifted(before[start..start + len], 0, shift)[..i]
      invariant forall j | 0 <= j < buf.Length && !(start <= j < start + i) :: buf[j] == before[j]
    {
      ghost var now := buf[..];
      var val := buf[start + i];
      buf[start + i] := Up(val, shift) | carry;
      carry := Down(val, 8 - shift);
      ByteDone(before, now, buf[..], start, len, 0, shift, i);
    }
  }

  // ----- The shifts on pixels -----

  lemma {:induction false} NibbleMoved(s: seq<bv8>, q: nat)
    requires q < 2 * |s|
    ensures NibbleAt(Shifted(s, 0x0F, 4), q) == if q == 0 then 15 else NibbleAt(s, q - 1)
  {
  }

  lemma {:induction false} ShiftedByteBit(s: seq<bv8>, carry: bv8, shift: nat, b: nat, n: nat)
    requires 1 <= shift <= 7 && b < |s| && n < 8 && (b == 0 && n >= shift ==> !BitOf(carry, n))
    ensures n >= shift ==> BitOf(ShiftedByteAt(s, carry, shift, b), n) == BitOf(s[b], n - shift)
    ensures n < shift && b > 0 ==> BitOf(ShiftedByteAt(s, carry, shift, b), n) == BitOf(s[b - 1], 8 + n - shift)
  {
    if b > 0 {
      ShiftedBit(s[b], s[b - 1], shift, n);
    } else {
      BitOfOr(Up(s[0], shift), carry, n);
      BitOfUp(s[0], shift, n);
    }
  }

  /** The higher bits of a byte come from the byte itself. */
  lemma {:induction false} BitFromByte(s: seq<bv8>, carry: bv8, shift: nat, b: nat, n: nat)
    requires 1 <= shift <= n < 8 && b < |s| && (b > 0 || !BitOf(carry, n))
    ensures BitAt(Shifted(s, carry, shift), 8 * b + n) == BitAt(s, 8 * b + n - shift)
  {
    BitAtIs(Shifted(s, carry, shift), b, n);
    BitAtIs(s, b, n - shift);
    ShiftedByteBit(s, carry, shift, b, n);
  }

  /** The lower bits come from the byte before. */
  lemma {:induction false} BitFromBefore(s: seq<bv8>, carry: bv8, shift: nat, b: nat, n: nat)
    requires 0 <= n < shift <= 7 && 1 <= b < |s|
    ensures BitAt(Shifted(s, carry, shift), 8 * b + n) == BitAt(s, 8 * b + n - shift)
  {
    BitAtIs(Shifted(s, carry, shift), b, n);
    BitAtIs(s, b - 1, 8 + n - shift);
    ShiftedByteBit(s, carry, shift, b, n);
  }

  /** The first bits come from the carry. */
  lemma {:induction false} BitFromCarry(s: seq<bv8>, carry: bv8, shift: nat, n: nat)
    requires 0 <= n < shift <= 7 && s != []
    ensures BitAt(Shifted(s, carry, shift), n) == BitOf(carry, n)
  {
    BitAtIs(Shifted(s, carry, shift), 0, n);
    BitOfOr(Up(s[0], shift), carry, n);
    BitOfUp(s[0], shift, n);
  }

  lemma {:induction false} MovedBit(s: seq<bv8>, carry: bv8, shift: nat, q: nat)
    requires 1 <= shift <= 7 && q < 8 * |s| && (q < 8 && q >= shift ==> !BitOf(carry, q))
    ensures BitAt(Shifted(s, carry, shift), q) == if q < shift then BitOf(carry, q) else BitAt(s, q - shift)
  {
    if q < shift {
      BitFromCarry(s, carry, shift, q);
    } else if q % 8 < shift {
      BitFromBefore(s, carry, shift, q / 8, q % 8);
    } else {
      BitFromByte(s, carry, shift, q / 8, q % 8);
    }
  }

  lemma {:induction false} BitMoved(s: seq<bv8>, shift: nat, q: nat)
    requires 1 <= shift <= 7 && q < 8 * |s|
    ensures BitAt(Shifted(s, 0, shift), q) == if q < shift then false else BitAt(s, q - shift)
  {
    if q < 8 {
      BitOfZero(q);
    }
    MovedBit(s, 0, shift, q);
  }

  // ----- The shifts as arithmetic -----

  function BitList(s: seq<bv8>): seq<bool>
  {
    seq(8 * |s|, p requires 0 <= p < 8 * |s| => BitAt(s, p))
  }

  /** Bits as a number, least significant bit first. */
  function Value(bits: seq<bool>): nat
  {
    if bits == [] then 0 else (if bits[0] then 1 else 0) + 2 * Value(bits[1..])
  }

  lemma {:induction false} ValueOfRepeat(bit: bool, n: nat, rest: seq<bool>)
    ensures Value(seq(n, i => bit) + rest)
         == (if bit then Arith.TwoTo(n) - 1 else 0) + Arith.TwoTo(n) * Value(rest)
  {
    var all := seq(n, i => bit) + rest;
    if n == 0 {
      assert all == rest;
    } else {
      ValueOfRepeat(bit, n - 1, rest);
      assert all[0] == bit && all[1..] == seq(n - 1, i => bit) + rest;
      assert Value(all) == (if bit then 1 else 0) + 2 * Value(all[1..]);
      Doubled(Arith.TwoTo(n - 1), Value(rest));
    }
  }

  lemma {:induction false} Doubled(t: nat, v: nat)
    ensures 2 * t * v == 2 * (t * v)
  {
  }

  lemma {:induction false} ValueSplit(bits: seq<bool>, m: nat)
    requires m <= |bits|
    ensures Value(bits) == Value(bits[..m]) + Arith.TwoTo(m) * Value(bits[m..])
    ensures Value(bits[..m]) < Arith.TwoTo(m)
  {
    if m == 0 {
      assert bits[0..] == bits;
    } else {
      ValueSplit(bits[1..], m - 1);
      assert bits[..m][1..] == bits[1..][..m - 1] && bits[1..][m - 1..] == bits[m..];
      Doubled(Arith.TwoTo(m - 1), Value(bits[m..]));
    }
  }

  lemma {:induction false} TwoToSum(a: nat, b: nat)
    ensures Arith.TwoTo(a + b) == Arith.TwoTo(a) * Arith.TwoTo(b) && Arith.TwoTo(b) >= 1
  {
    if a == 0 {
      if b > 0 {
        TwoToSum(0, b - 1);
      }
    } else {
      TwoToSum(a - 1, b);
      Doubled(Arith.TwoTo(a - 1), Arith.TwoTo(b));
    }
  }

  /** A number of k + m bits moved up by k, a number below 2^k entering: the higher bits leave. */
  lemma {:induction false} MovedUp(low: nat, high: nat, k: nat, m: nat, entering: nat)
    requires low < Arith.TwoTo(m) && entering < Arith.TwoTo(k)
    ensures entering + Arith.TwoTo(k) * low < Arith.TwoTo(k + m)
    ensures entering + Arith.TwoTo(k) * (low + Arith.TwoTo(m) * high)
         == high * Arith.TwoTo(k + m) + (entering + Arith.TwoTo(k) * low)
  {
    TwoToSum(k, m);
    var p, q := Arith.TwoTo(k), Arith.TwoTo(m);
    Regroup(p, q, low, high);
    Arith.NotBelow(low, q, p);
    Commutes(low, p);
    Commutes(q, p);
  }

  lemma {:induction false} Commutes(a: int, b: int)
    ensures a * b == b * a
  {
  }

  lemma {:induction false} Regroup(p: nat, q: nat, low: nat, high: nat)
    ensures p * (low + q * high) == high * (p * q) + p * low
  {
    assert p * (low + q * high) == p * low + p * (q * high);
    assert p * (q * high) == p * q * high;
  }

  /** What enters when a number of bits moves up by `shift` with equal bits entering. */
  function Entering(bit: bool, shift: nat): int
  {
    if bit then Arith.TwoTo(shift) - 1 else 0
  }

  lemma {:induction false} MovedValue(bits: seq<bool>, moved: seq<bool>, shift: nat, bit: bool)
    requires shift <= |bits| && moved == seq(shift, i => bit) + bits[..|bits| - shift]
    ensures 0 <= Value(moved) < Arith.TwoTo(|bits|)
    ensures Entering(bit, shift) + Arith.TwoTo(shift) * Value(bits)
         == Value(bits[|bits| - shift..]) * Arith.TwoTo(|bits|) + Value(moved)
  {
    var m := |bits| - shift;
    ValueOfRepeat(bit, shift, bits[..m]);
    ValueSplit(bits, m);
    TwoToSum(0, shift);
    MovedUp(Value(bits[..m]), Value(bits[m..]), shift, m, Entering(bit, shift));
  }

  lemma {:induction false} BitsMoved(s: seq<bv8>, shift: nat)
    requires 1 <= shift <= 7 && s != []
    ensures BitList(Shifted(s, 0, shift)) == seq(shift, i => false) + BitList(s)[..8 * |s| - shift]
  {
    forall p | 0 <= p < 8 * |s|
      ensures BitAt(Shifted(s, 0, shift), p) == if p < shift then false else BitAt(s, p - shift)
    {
      BitMoved(s, shift, p);
    }
  }

  lemma {:induction false} NibbleBitsMoved(s: seq<bv8>)
    requires s != []
    ensures BitList(Shifted(s, 0x0F, 4)) == seq(4, i => true) + BitList(s)[..8 * |s| - 4]
  {
    forall p | 0 <= p < 8 * |s|
      ensures BitAt(Shifted(s, 0x0F, 4), p) == if p < 4 then true else BitAt(s, p - 4)
    {
      NibbleBitMoved(s, p);
    }
  }

  lemma {:induction false} NibbleBitMoved(s: seq<bv8>, p: nat)
    requires p < 8 * |s|
    ensures BitAt(Shifted(s, 0x0F, 4), p) == if p < 4 then true else BitAt(s, p - 4)
  {
    if p < 8 {
      LowNibbleSet(p);
    }
    MovedBit(s, 0x0F, 4, p);
  }

  /** The bit shift multiplies by 2^shift, modulo 256^n for n bytes. */
  lemma {:induction false} BitShiftIsArithmetic(s: seq<bv8>, shift: nat)
    requires 1 <= shift <= 7
    ensures Arith.TwoTo(8 * |s|) > 0
    ensures Value(BitList(Shifted(s, 0, shift))) == Arith.TwoTo(shift) * Value(BitList(s)) % Arith.TwoTo(8 * |s|)
  {
    if s != [] {
      var bits, moved := BitList(s), BitList(Shifted(s, 0, shift));
      BitsMoved(s, shift);
      MovedValue(bits, moved, shift, false);
      Arith.Divided(Value(bits[|bits| - shift..]), Value(moved), Arith.TwoTo(|bits|));
    }
  }

  /** The nibble shift multiplies by 16 and adds 15, modulo 256^n for n bytes. */
  lemma {:induction false} NibbleShiftIsArithmetic(s: seq<bv8>)
    ensures Arith.TwoTo(8 * |s|) > 0
    ensures Value(BitList(Shifted(s, 0x0F, 4))) == (16 * Value(BitList(s)) + 15) % Arith.TwoTo(8 * |s|)
  {
    if s != [] {
      var bits, moved := BitList(s), BitList(Shifted(s, 0x0F, 4));
      NibbleBitsMoved(s);
      MovedValue(bits, moved, 4, true);
      assert Arith.TwoTo(4) == 16;
      Arith.Divided(Value(bits[|bits| - 4..]), Value(moved), Arith.TwoTo(|bits|));
    }
  }

  lemma {:induction false} LowNibbleSet(n: nat)
    requires n < 8
    ensures BitOf(0x0F, n) <==> n < 4
  {
    assert n == 0 || n == 1 || n == 2 || n == 3 || n == 4 || n == 5 || n == 6 || n == 7;
  }
}
