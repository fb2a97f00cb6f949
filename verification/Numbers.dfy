/** Two independent digit generators and the numbers their texts stand for. */
module Numbers {
  import opened Bytes
  import opened Options
  import Arith

  const ULONG := 0x1_0000_0000
  const MIN_LONG := -0x8000_0000
  const MINUS: Byte := 45

  // ----- Positional notation -----

  /** Quotient and last digit, by repeated subtraction. */
  function Divided(n: nat, base: nat): (d: (nat, nat))
    requires base >= 2
    ensures d.1 < base && (d.0 == 0 <==> n < base) && 2 * d.0 <= n
  {
    if n < base then (0, n) else var d := Divided(n - base, base); (d.0 + 1, d.1)
  }

  function Quotient(n: nat, base: nat): nat
    requires base >= 2
  {
    Divided(n, base).0
  }

  function LastDigit(n: nat, base: nat): (d: nat)
    requires base >= 2
    ensures d < base
  {
    Divided(n, base).1
  }

  lemma {:induction false} DividedIs(n: nat, base: nat)
    requires base >= 2
    ensures n == Quotient(n, base) * base + LastDigit(n, base)
  {
    if n >= base {
      DividedIs(n - base, base);
      Arith.OneMore(base, Quotient(n - base, base));
    }
  }

  /** What the loops compute with the division operator. */
  lemma {:induction false} QuotientIs(n: nat, base: nat)
    requires base >= 2
    ensures n / base == Quotient(n, base) && n - n / base * base == LastDigit(n, base)
  {
    DividedIs(n, base);
    Arith.Divided(Quotient(n, base), LastDigit(n, base), base);
  }

  /** The digits of n, most significant first. */
  function Digits(n: nat, base: nat): (d: seq<nat>)
    requires base >= 2
    ensures |d| >= 1 && forall i | 0 <= i < |d| :: d[i] < base
  {
    if n < base then [n] else Digits(Quotient(n, base), base) + [LastDigit(n, base)]
  }

  function Value(d: seq<nat>, base: nat): nat
  {
    if d == [] then 0 else Value(d[..|d| - 1], base) * base + d[|d| - 1]
  }

  lemma {:induction false} ValueOfMore(d: seq<nat>, last: nat, base: nat)
    ensures Value(d + [last], base) == Value(d, base) * base + last
  {
    assert (d + [last])[..|d|] == d;
  }

  lemma {:induction false} DigitsHaveValue(n: nat, base: nat)
    requires base >= 2
    ensures Value(Digits(n, base), base) == n
  {
    if n < base {
      assert Value([n][..0], base) == 0;
    } else {
      DigitsHaveValue(Quotient(n, base), base);
      DividedIs(n, base);
      ValueOfMore(Digits(Quotient(n, base), base), LastDigit(n, base), base);
    }
  }

  lemma {:induction false} NoLeadingZero(n: nat, base: nat)
    requires base >= 2
    ensures Digits(n, base)[0] == 0 <==> n == 0
  {
    if n >= base {
      NoLeadingZero(Quotient(n, base), base);
      assert Digits(n, base)[0] == Digits(Quotient(n, base), base)[0];
    }
  }

  /** No other numeral without leading zeros has the same value. */
  lemma {:induction false} DigitsAreUnique(d: seq<nat>, base: nat)
    requires base >= 2 && d != [] && (forall i | 0 <= i < |d| :: d[i] < base) && (|d| > 1 ==> d[0] != 0)
    ensures d == Digits(Value(d, base), base)
  {
    var most, last := d[..|d| - 1], d[|d| - 1];
    if |d| == 1 {
      assert Value(most, base) == 0;
    } else {
      DigitsAreUnique(most, base);
      NotZero(most, base);
      var v := Value(most, base);
      Arith.AtLeastOnce(v, base);
      var n := v * base + last;
      DividedIs(n, base);
      Arith.SameQuotient(v, Quotient(n, base), last, LastDigit(n, base), base);
      assert d == most + [last];
    }
  }

  lemma {:induction false} NotZero(d: seq<nat>, base: nat)
    requires base >= 2 && d != [] && d[0] != 0
    ensures Value(d, base) >= 1
  {
    if |d| > 1 {
      NotZero(d[..|d| - 1], base);
      Arith.AtLeastOnce(Value(d[..|d| - 1], base), base);
    }
  }

  lemma {:induction false} DigitsFit(n: nat, base: nat, k: nat)
    requires base >= 2 && k >= 1 && n < Arith.TwoTo(k)
    ensures |Digits(n, base)| <= k
  {
    if n >= base {
      DigitsFit(Quotient(n, base), base, k - 1);
    }
  }

  lemma {:induction false} AtMost32Digits(n: nat, base: nat)
    requires n < ULONG && base >= 2
    ensures |Digits(n, base)| <= 32
  {
    assert Arith.TwoTo(8) == 256;
    assert Arith.TwoTo(16) == 65536;
    assert Arith.TwoTo(24) == 0x100_0000;
    assert Arith.TwoTo(32) == ULONG;
    DigitsFit(n, base, 32);
  }

  // ----- Digit by digit -----

  function Power(base: nat, i: nat): nat { if i == 0 then 1 else Power(base, i - 1) * base }

  lemma {:induction false} PowerIsPositive(base: nat, i: nat)
    requires base >= 1
    ensures Power(base, i) >= 1
  {
    if i > 0 {
      PowerIsPositive(base, i - 1);
      Arith.AtLeastOnce(Power(base, i - 1), base);
    }
  }

  /** Dividing twice is dividing by the product. */
  lemma {:induction false} DividedTwice(n: nat, base: nat, p: nat)
    requires base >= 1 && p >= 1
    ensures p * base >= 1 && n / base / p == n / (p * base)
  {
    var q, r := n / base, n % base;
    var a, b := q / p, q % p;
    Arith.Remainder(n, base);
    Arith.Remainder(q, p);
    Arith.Sum(a * p, b, base);
    Arith.Swap(a, p, base);
    Arith.NotBelow(b, p, base);
    assert n == a * (p * base) + (b * base + r) by {
      assert a * p * base == a * (p * base);
    }
    Arith.Divided(a, b * base + r, p * base);
  }

  /** The digit at place i, counted from the last one, is that of the quotient by the i-th power of the base. */
  lemma {:induction false} DigitAt(n: nat, base: nat, i: nat)
    requires base >= 2 && i < |Digits(n, base)|
    ensures Power(base, i) >= 1
    ensures Digits(n, base)[|Digits(n, base)| - 1 - i] == n / Power(base, i) % base
  {
    PowerIsPositive(base, i);
    QuotientIs(n, base);
    Arith.Remainder(n, base);
    if i > 0 {
      PowerIsPositive(base, i - 1);
      DigitAt(Quotient(n, base), base, i - 1);
      DividedTwice(n, base, Power(base, i - 1));
    }
  }

  /** There are just as many digits as it takes. */
  lemma {:induction false} DigitCount(n: nat, base: nat)
    requires base >= 2
    ensures var k := |Digits(n, base)|; n < Power(base, k) && (k > 1 ==> Power(base, k - 1) <= n)
  {
    DividedIs(n, base);
    if n >= base {
      var q, k := Quotient(n, base), |Digits(n, base)|;
      DigitCount(q, base);
      Arith.NotBelow(q, Power(base, k - 1), base);
      if k > 2 {
        Arith.Monotone(Power(base, k - 2), q, base);
      }
    }
  }

  // ----- Digits as characters -----

  function LowerChar(d: nat): Byte
    requires d < 16
  {
    if d < 10 then 48 + d else 97 + d - 10
  }

  /** The character type has 8 bits. */
  function UpperChar(d: nat): Byte
    requires d < 256
  {
    if d < 10 then d + 48 else (d + 65 - 10) % 256
  }

  function Lowercase(c: Byte): Byte { if 65 <= c <= 90 then c + 32 else c }

  function DigitOf(c: Byte): int
  {
    if 48 <= c <= 57 then c - 48 else if 97 <= c <= 102 then c - 97 + 10 else -1
  }

  function LowerText(d: seq<nat>): (t: seq<Byte>)
    requires forall i | 0 <= i < |d| :: d[i] < 16
    ensures |t| == |d|
  {
    seq(|d|, i requires 0 <= i < |d| => LowerChar(d[i]))
  }

  function UpperText(d: seq<nat>): (t: seq<Byte>)
    requires forall i | 0 <= i < |d| :: d[i] < 256
    ensures |t| == |d|
  {
    seq(|d|, i requires 0 <= i < |d| => UpperChar(d[i]))
  }

  /** The text of an unsigned number; empty for a base that is not supported. */
  function UnsignedText(n: nat, base: int): seq<Byte>
  {
    if base < 2 || base > 16 then [] else LowerText(Digits(n, base))
  }

  function SignedText(v: int, base: int): seq<Byte>
  {
    if base < 2 || base > 16 then []
    else if v < 0 then [MINUS] + UnsignedText(0 - v, base) else UnsignedText(v, base)
  }

  lemma {:induction false} LowerCharIs(d: nat)
    requires d < 16
    ensures LowerChar(d) == "0123456789abcdef"[d] as int
  {
    assert d in {0, 1, 2, 3, 4, 5, 6, 7, 8, 9, 10, 11, 12, 13, 14, 15};
  }

  /** The text in numbers: its characters, from the last one, and the sign. */
  lemma {:induction false} TextInNumbers(n: nat, base: int, i: nat)
    requires 2 <= base <= 16 && i < |UnsignedText(n, base)|
    ensures Power(base, i) >= 1
    ensures UnsignedText(n, base)[|UnsignedText(n, base)| - 1 - i]
         == "0123456789abcdef"[n / Power(base, i) % base] as int
  {
    DigitAt(n, base, i);
    LowerCharIs(n / Power(base, i) % base);
  }

  lemma {:induction false} SignInNumbers(v: int, base: int)
    requires 2 <= base <= 16
    ensures v < 0 ==> SignedText(v, base) == ['-' as int] + UnsignedText(-v, base)
    ensures v >= 0 ==> SignedText(v, base) == UnsignedText(v, base)
  {
  }

  /** The printed text, with letters that go on behind Z in bases above 36. */
  lemma {:induction false} PrintedInNumbers(n: nat, base: nat, i: nat)
    requires 2 <= base < 256 && i < |Digits(n, base)|
    ensures Power(base, i) >= 1
    ensures var d := n / Power(base, i) % base;
      UpperText(Digits(n, base))[|Digits(n, base)| - 1 - i]
      == if d < 10 then '0' as int + d else ('A' as int + (d - 10)) % 256
  {
    DigitAt(n, base, i);
  }

  // ----- Reading back -----

  predicate IsNumeral(t: seq<Byte>, base: int)
  {
    t != [] && forall i | 0 <= i < |t| :: 0 <= DigitOf(t[i]) < base
  }

  function DigitsOf(t: seq<Byte>): seq<nat>
    requires forall i | 0 <= i < |t| :: DigitOf(t[i]) >= 0
  {
    seq(|t|, i requires 0 <= i < |t| => DigitOf(t[i]))
  }

  function Parse(t: seq<Byte>, base: int): Option<int>
    requires base >= 2
  {
    if IsNumeral(t, base) then Some(Value(DigitsOf(t), base))
    else if t != [] && t[0] == MINUS && IsNumeral(t[1..], base) then Some(0 - Value(DigitsOf(t[1..]), base))
    else None
  }

  lemma {:induction false} LowerTextParses(d: seq<nat>, base: int)
    requires 2 <= base <= 16 && d != [] && forall i | 0 <= i < |d| :: d[i] < base
    ensures IsNumeral(LowerText(d), base) && DigitsOf(LowerText(d)) == d
  {
  }

  lemma {:induction false} UnsignedTextIsNumeral(n: nat, base: int)
    requires 2 <= base <= 16
    ensures IsNumeral(UnsignedText(n, base), base) && Value(DigitsOf(UnsignedText(n, base)), base) == n
  {
    LowerTextParses(Digits(n, base), base);
    DigitsHaveValue(n, base);
  }

  lemma {:induction false} UnsignedRoundTrip(n: nat, base: int)
    requires 2 <= base <= 16
    ensures Parse(UnsignedText(n, base), base) == Some(n)
  {
    UnsignedTextIsNumeral(n, base);
  }

  lemma {:induction false} NegativeParses(t: seq<Byte>, base: int)
    requires base >= 2 && IsNumeral(t, base)
    ensures Parse([MINUS] + t, base) == Some(0 - Value(DigitsOf(t), base))
  {
    assert ([MINUS] + t)[1..] == t;
    assert DigitOf(([MINUS] + t)[0]) < 0;
  }

  lemma {:induction false} NegativeRoundTrip(n: nat, base: int)
    requires 2 <= base <= 16
    ensures Parse([MINUS] + UnsignedText(n, base), base) == Some(0 - n)
  {
    UnsignedTextIsNumeral(n, base);
    NegativeParses(UnsignedText(n, base), base);
  }

  lemma {:induction false} SignedRoundTrip(v: int, base: int)
    requires 2 <= base <= 16
    ensures Parse(SignedText(v, base), base) == Some(v)
  {
    var t := SignedText(v, base);
    if v < 0 {
      var n: nat := 0 - v;
      var u := UnsignedText(n, base);
      assert t == [MINUS] + u;
      NegativeRoundTrip(n, base);
    } else {
      UnsignedRoundTrip(v, base);
    }
  }

  /** The two generators agree up to the case of the letters. */
  lemma {:induction false} SameDigits(n: nat, base: int)
    requires 2 <= base <= 16
    ensures var t, u := UpperText(Digits(n, base)), UnsignedText(n, base);
            |t| == |u| && forall i | 0 <= i < |t| :: Lowercase(t[i]) == u[i]
  {
  }

  // ----- The generators -----

  function Reversed(s: seq<Byte>): (r: seq<Byte>)
    ensures |r| == |s| && forall i | 0 <= i < |s| :: r[i] == s[|s| - 1 - i]
  {
    seq(|s|, i requires 0 <= i < |s| => s[|s| - 1 - i])
  }

  lemma {:induction false} ReversedWithSign(s: seq<Byte>)
    ensures Reversed(s + [MINUS]) == [MINUS] + Reversed(s)
  {
  }

  lemma {:induction false} ReversedPart(before: seq<Byte>, now: seq<Byte>, begin: nat, end: nat)
    requires begin <= end <= |before| == |now|
    requires forall k | begin <= k < end :: now[k] == before[begin + end - 1 - k]
    requires forall k | 0 <= k < begin || end <= k < |now| :: now[k] == before[k]
    ensures now == before[..begin] + Reversed(before[begin..end]) + before[end..]
  {
  }

  method Reverse(a: array<Byte>, begin: nat, end: nat)
    requires begin <= end <= a.Length
    modifies a
    ensures a[..] == old(a[..begin] + Reversed(a[begin..end]) + a[end..])
  {
    var front: int, back: int := begin, end - 1;
    while front < back
      invariant begin <= front <= back + 2 && front - begin == end - 1 - back
      invariant forall k | 0 <= k < a.Length ::
                  a[k] == if begin <= k < front || back < k < end then old(a[begin + end - 1 - k]) else old(a[k])
    {
      var tmp := a[back];
      a[back] := a[front];
      a[front] := tmp;
      front := front + 1;
      back := back - 1;
    }
    ReversedPart(old(a[..]), a[..], begin, end);
  }

  /** One division of either loop, the remainder being computed from the quotient. */
  method Divide(n: nat, base: nat) returns (quotient: nat, digit: nat)
    requires base >= 2
    ensures quotient == Quotient(n, base) && digit == LastDigit(n, base)
  {
    QuotientIs(n, base);
    quotient := n / base;
    digit := n - quotient * base;
  }

  /** Writes the digits, least significant first; those of the quotient are still to come. */
  method WriteDigits(value: nat, result: array<Byte>, base: nat) returns (out: nat)
    requires 2 <= base <= 16 && |Digits(value, base)| <= result.Length
    modifies result
    ensures var digits := Digits(value, base);
            && out == |digits|
            && (forall k | 0 <= k < out :: result[k] == LowerChar(digits[|digits| - 1 - k]))
            && (forall k | out <= k < result.Length :: result[k] == old(result[k]))
  {
    ghost var digits := Digits(value, base);
    var quotient: nat := value;
    out := 0;
    while true
      invariant out < |digits| && digits[..|digits| - out] == Digits(quotient, base)
      invariant forall k | 0 <= k < out :: result[k] == LowerChar(digits[|digits| - 1 - k])
      invariant forall k | out <= k < result.Length :: result[k] == old(result[k])
      decreases quotient
    {
      var tmp, digit := Divide(quotient, base);
      NextDigit(digits, quotient, base, out);
      result[out] := LowerChar(digit);
      out := out + 1;
      if tmp == 0 {
        break;
      }
      quotient := tmp;
    }
  }

  lemma {:induction false} WrittenReversed(written: seq<Byte>, digits: seq<nat>)
    requires |written| == |digits| && forall i | 0 <= i < |digits| :: digits[i] < 16
    requires forall k | 0 <= k < |digits| :: written[k] == LowerChar(digits[|digits| - 1 - k])
    ensures Reversed(written) == LowerText(digits)
  {
  }

  lemma {:induction false} NextDigit(digits: seq<nat>, q: nat, base: nat, k: nat)
    requires base >= 2 && k < |digits| && digits[..|digits| - k] == Digits(q, base)
    ensures digits[|digits| - 1 - k] == LastDigit(q, base)
    ensures if Quotient(q, base) == 0 then k == |digits| - 1
            else k + 1 < |digits| && digits[..|digits| - k - 1] == Digits(Quotient(q, base), base)
  {
    var d := digits[..|digits| - k];
    assert d[|d| - 1] == digits[|digits| - 1 - k];
    if q >= base {
      assert digits[..|digits| - k - 1] == d[..|d| - 1];
    }
  }

  method WriteReversed(value: nat, result: array<Byte>, base: nat) returns (out: nat)
    requires 2 <= base <= 16 && |UnsignedText(value, base)| <= result.Length
    modifies result
    ensures out == |UnsignedText(value, base)| && Reversed(result[..out]) == UnsignedText(value, base)
    ensures forall k | out <= k < result.Length :: result[k] == old(result[k])
  {
    out := WriteDigits(value, result, base);
    WrittenReversed(result[..out], Digits(value, base));
  }

  lemma {:induction false} FrontIs(a: seq<Byte>, front: seq<Byte>, rest: seq<Byte>)
    requires a == [] + front + rest
    ensures a[..|front|] == front && a[|front|..] == rest
  {
  }

  /** Reverses what has been written and terminates it. */
  method Finish(result: array<Byte>, out: nat, ghost text: seq<Byte>)
    requires out < result.Length && Reversed(result[..out]) == text
    modifies result
    ensures result[..|text| + 1] == text + [0]
    ensures forall k | |text| < k < result.Length :: result[k] == old(result[k])
  {
    ghost var written, rest := result[..out], result[out..];
    Reverse(result, 0, out);
    FrontIs(result[..], text, rest);
    result[out] := 0;
  }

  method Ultoa(value: nat, result: array<Byte>, base: int)
    requires value < ULONG && result.Length > |UnsignedText(value, base)|
    modifies result
    ensures result[..|UnsignedText(value, base)| + 1] == UnsignedText(value, base) + [0]
    ensures forall k | |UnsignedText(value, base)| < k < result.Length :: result[k] == old(result[k])
  {
    if base < 2 || base > 16 {
      result[0] := 0;
      assert result[..1] == [] + [0];
      return;
    }
    var out := WriteReversed(value, result, base);
    Finish(result, out, UnsignedText(value, base));
  }

  /** The smallest long is left out: its absolute value does not fit. */
  method Ltoa(value: int, result: array<Byte>, base: int)
    requires MIN_LONG < value < -MIN_LONG && result.Length > |SignedText(value, base)|
    modifies result
    ensures result[..|SignedText(value, base)| + 1] == SignedText(value, base) + [0]
    ensures forall k | |SignedText(value, base)| < k < result.Length :: result[k] == old(result[k])
  {
    if base < 2 || base > 16 {
      result[0] := 0;
      assert result[..1] == [] + [0];
      return;
    }
    var out := WriteSigned(value, result, base, SignedText(value, base));
    Finish(result, out, SignedText(value, base));
  }

  /** The digits of the absolute value and the sign, still in reverse. */
  method WriteSigned(value: int, result: array<Byte>, base: int, ghost text: seq<Byte>) returns (out: nat)
    requires 2 <= base <= 16 && text == SignedText(value, base) && |text| <= result.Length
    modifies result
    ensures out == |text| && Reversed(result[..out]) == text
    ensures forall k | out <= k < result.Length :: result[k] == old(result[k])
  {
    var magnitude := Arith.Abs(value);
    ghost var digits := UnsignedText(magnitude, base);
    SignedIs(value, base, magnitude, digits);
    out := WriteReversed(magnitude, result, base);
    if value < 0 {
      AppendSign(result, out, digits);
      out := out + 1;
    }
  }

  lemma {:induction false} SignedIs(value: int, base: int, magnitude: nat, digits: seq<Byte>)
    requires 2 <= base <= 16 && magnitude == Arith.Abs(value) && digits == UnsignedText(magnitude, base)
    ensures SignedText(value, base) == if value < 0 then [MINUS] + digits else digits
  {
  }

  /** Applies the negative sign, which the reversal will bring to the front. */
  method AppendSign(result: array<Byte>, out: nat, ghost digits: seq<Byte>)
    requires out < result.Length && Reversed(result[..out]) == digits
    modifies result
    ensures Reversed(result[..out + 1]) == [MINUS] + digits
    ensures forall k | out < k < result.Length :: result[k] == old(result[k])
  {
    ghost var written := result[..out];
    result[out] := MINUS;
    assert result[..out + 1] == written + [MINUS];
    ReversedWithSign(written);
  }

  lemma {:induction false} FilledIs(s: seq<Byte>, str: nat, digits: seq<nat>)
    requires str <= 32 < |s| && |digits| == 32 - str && forall i | 0 <= i < |digits| :: digits[i] < 256
    requires forall k | str <= k < 32 :: s[k] == UpperChar(digits[|digits| + k - 32])
    requires |s| == 33 && s[32] == 0
    ensures s[str..] == UpperText(digits) + [0]
  {
  }

  method NextChar(buf: array<Byte>, n: nat, base: nat, str: nat) returns (quotient: nat, at: nat)
    requires 0 < str <= buf.Length && 2 <= base < 256
    modifies buf
    ensures quotient == Quotient(n, base) && at == str - 1 && buf[at] == UpperChar(LastDigit(n, base))
    ensures forall k | 0 <= k < buf.Length && k != at :: buf[k] == old(buf[k])
  {
    var c;
    quotient, c := Divide(n, base);
    at := str - 1;
    buf[at] := if c < 10 then c + 48 else (c + 65 - 10) % 256;
  }

  method FillBackwards(buf: array<Byte>, n0: nat, base: nat) returns (str: nat)
    requires buf.Length == 33 && n0 < ULONG && 2 <= base < 256
    modifies buf
    ensures str <= 32 && buf[str..] == UpperText(Digits(n0, base)) + [0]
  {
    str := 32;
    buf[str] := 0;
    var n: nat := n0;
    ghost var digits := Digits(n0, base);
    AtMost32Digits(n0, base);
    while true
      invariant str <= 32 && 32 - str < |digits| <= 32 && digits[..|digits| - (32 - str)] == Digits(n, base)
      invariant buf[32] == 0 && forall k | str <= k < 32 :: buf[k] == UpperChar(digits[|digits| + k - 32])
      decreases n
    {
      NextDigit(digits, n, base, 32 - str);
      n, str := NextChar(buf, n, base, str);
      if n == 0 {
        break;
      }
    }
    FilledIs(buf[..], str, digits);
  }

  /** Fills its buffer of 33 bytes from the end, never a byte before it, in any base up to 255, and writes what it
      then holds as a C string. */
  method PrintNumber(n0: nat, base0: nat) returns (text: seq<Byte>)
    requires n0 < ULONG && base0 < 256
    ensures text == UpToNul(UpperText(Digits(n0, if base0 < 2 then 10 else base0)))
  {
    var buf := new Byte[33];
    var base := base0;
    if base < 2 {
      base := 10;
    }
    var str := FillBackwards(buf, n0, base);
    text := Written(buf[str..], UpperText(Digits(n0, base)));
  }

  /** What is written of a buffer that holds some characters and a terminator. */
  method Written(buffer: seq<Byte>, ghost chars: seq<Byte>) returns (text: seq<Byte>)
    requires buffer == chars + [0]
    ensures text == UpToNul(chars)
  {
    CutAtNul(chars, []);
    assert chars + [0] + [] == buffer;
    assert buffer[|chars|] == 0;
    var n := StrLen(buffer);
    text := buffer[..n];
  }

  // ----- When all digits are printed -----

  /** The character of digit 201 is the terminator. */
  lemma {:induction false} NulIsDigit201(d: nat)
    requires d < 256
    ensures UpperChar(d) == 0 <==> d == 201
  {
  }

  lemma {:induction false} CutMeansNul(s: seq<Byte>)
    ensures UpToNul(s) == s <==> NoNul(s)
  {
    if NoNul(s) {
      WholeWithoutNul(s);
    }
  }

  /** The digits are printed whole if and only if none of them is 201. */
  lemma {:induction false} PrintedWhole(d: seq<nat>)
    requires forall i | 0 <= i < |d| :: d[i] < 256
    ensures UpToNul(UpperText(d)) == UpperText(d) <==> 201 !in d
  {
    CutMeansNul(UpperText(d));
    forall i | 0 <= i < |d|
      ensures UpperText(d)[i] == 0 <==> d[i] == 201
    {
      NulIsDigit201(d[i]);
    }
  }

  /** So every number is printed whole exactly in the bases up to 201. */
  lemma {:induction false} BasesPrintedWhole(base: nat)
    requires 2 <= base < 256
    ensures (forall n: nat | n < ULONG :: UpToNul(UpperText(Digits(n, base))) == UpperText(Digits(n, base)))
       <==> base <= 201
  {
    forall n: nat | n < ULONG && base <= 201
      ensures UpToNul(UpperText(Digits(n, base))) == UpperText(Digits(n, base))
    {
      PrintedWhole(Digits(n, base));
    }
    if base > 201 {
      PrintedWhole([201]);
      assert Digits(201, base) == [201];
    }
  }

  /** In a base above 201 the number 201 prints nothing. */
  lemma {:induction false} PrintsNothing(base: nat)
    requires 201 < base < 256
    ensures Digits(201, base) == [201] && UpToNul(UpperText(Digits(201, base))) == []
  {
    assert UpperText([201]) == [0];
  }
}
