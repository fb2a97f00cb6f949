/** Replacing from the right, as the string class does for a replacement longer than the pattern: the text already
    replaced is searched again, and when that makes no difference. */
module ReplaceRight {
  import Arith
  import opened Bytes

  /** Where the pattern last occurs up to position `last`, or -1. */
  function LastFind(s: seq<Byte>, last: int, pat: seq<Byte>): (i: int)
    requires -1 <= last < |s|
    ensures -1 <= i <= last
    ensures i >= 0 ==> Occurs(s, i, pat)
    decreases last + 1
  {
    if last < 0 then -1 else if Occurs(s, last, pat) then last else LastFind(s, last - 1, pat)
  }

  lemma {:induction false} LastFindIsLast(s: seq<Byte>, last: int, pat: seq<Byte>, k: nat)
    requires k <= last < |s| && Occurs(s, k, pat)
    ensures k <= LastFind(s, last, pat)
    decreases last
  {
    if k < last && !Occurs(s, last, pat) {
      LastFindIsLast(s, last - 1, pat, k);
    }
  }

  lemma {:induction false} LongNotFound(s: seq<Byte>, last: int, pat: seq<Byte>)
    requires -1 <= last < |s| < |pat|
    ensures LastFind(s, last, pat) == -1
    decreases last + 1
  {
    if last >= 0 {
      LongNotFound(s, last - 1, pat);
    }
  }

  function ReplacedAt(s: seq<Byte>, i: nat, pat: seq<Byte>, rep: seq<Byte>): (r: seq<Byte>)
    requires i + |pat| <= |s|
    ensures |r| == |s| + |rep| - |pat|
  {
    s[..i] + rep + s[i + |pat|..]
  }

  /** The last occurrence up to `last` replaced, then the last one before it in the text that results, and so on. */
  function RightReplaced(s: seq<Byte>, last: int, pat: seq<Byte>, rep: seq<Byte>): (r: seq<Byte>)
    requires pat != [] && |pat| <= |rep| && -1 <= last < |s|
    ensures |r| >= |s|
    decreases last + 1
  {
    var i := LastFind(s, last, pat);
    if i < 0 then s else RightReplaced(ReplacedAt(s, i, pat, rep), i - 1, pat, rep)
  }

  /** The pattern without its first k characters starts y. */
  predicate RestStarts(pat: seq<Byte>, k: int, y: seq<Byte>)
  {
    0 < k < |pat| && pat[k..] <= y
  }

  lemma {:induction false} RestIsInside(pat: seq<Byte>, k: int, y: seq<Byte>)
    requires RestStarts(pat, k, y)
    ensures 0 < k < |pat|
  {
  }

  /** No rest of the pattern starts y. */
  predicate Unlinked(pat: seq<Byte>, y: seq<Byte>)
  {
    forall k | 0 < k < |pat| :: !RestStarts(pat, k, y)
  }

  /** No rest of the pattern starts the pattern again or starts the replacement. */
  predicate Separate(pat: seq<Byte>, rep: seq<Byte>) { Unlinked(pat, pat) && Unlinked(pat, rep) }

  /** An occurrence that reaches into a place where y stands makes a rest of the pattern start y. */
  lemma {:induction false} Crossed(p: seq<Byte>, x: seq<Byte>, pat: seq<Byte>, y: seq<Byte>, k: nat)
    requires k < |p| < k + |pat| && |pat| <= |y| && y <= x && Occurs(p + x, k, pat)
    ensures RestStarts(pat, |p| - k, y)
  {
    var j := |p| - k;
    forall m | 0 <= m < |pat| - j
      ensures pat[j + m] == y[m]
    {
      assert pat[j + m] == (p + x)[k..k + |pat|][j + m] == (p + x)[|p| + m];
    }
  }

  /** What follows is not looked at, if it starts with a text that no rest of the pattern starts. */
  lemma {:induction false} OccursBefore(p: seq<Byte>, x: seq<Byte>, pat: seq<Byte>, y: seq<Byte>, k: nat)
    requires Unlinked(pat, y) && |pat| <= |y| && y <= x && k < |p|
    ensures Occurs(p + x, k, pat) <==> Occurs(p, k, pat)
  {
    if k + |pat| > |p| {
      if Occurs(p + x, k, pat) {
        Crossed(p, x, pat, y, k);
      }
    } else {
      assert (p + x)[k..k + |pat|] == p[k..k + |pat|];
    }
  }

  lemma {:induction false} LastFindBefore(p: seq<Byte>, x: seq<Byte>, last: int, pat: seq<Byte>, y: seq<Byte>)
    requires Unlinked(pat, y) && |pat| <= |y| && y <= x && -1 <= last < |p|
    ensures LastFind(p + x, last, pat) == LastFind(p, last, pat)
    decreases last + 1
  {
    if last >= 0 {
      OccursBefore(p, x, pat, y, last);
      LastFindBefore(p, x, last - 1, pat, y);
    }
  }

  lemma {:induction false} AtInFront(p: seq<Byte>, x: seq<Byte>, j: nat, pat: seq<Byte>, rep: seq<Byte>)
    requires j + |pat| <= |p|
    ensures ReplacedAt(p + x, j, pat, rep) == p[..j] + (rep + p[j + |pat|..] + x)
    ensures ReplacedAt(p, j, pat, rep) == p[..j] + (rep + p[j + |pat|..])
  {
    assert (p + x)[..j] == p[..j] && (p + x)[j + |pat|..] == p[j + |pat|..] + x;
  }

  lemma {:induction false} NothingAfter(p: seq<Byte>, b: seq<Byte>, pat: seq<Byte>, rep: seq<Byte>)
    requires pat != [] && forall k: nat | |p| < k :: !Occurs(p + pat + b, k, pat)
    ensures Replaced(p + pat + b, |p| + |pat|, pat, rep) == b
  {
    assert (p + pat + b)[|p| + |pat|..] == b;
  }

  lemma {:induction false} FindBefore(p: seq<Byte>, b: seq<Byte>, r: nat, pat: seq<Byte>)
    requires pat != [] && Unlinked(pat, pat) && r <= |p|
    ensures Find(p + pat + b, r, pat) == if Find(p, r, pat) < 0 then |p| else Find(p, r, pat)
    decreases |p| - r
  {
    var s := p + pat + b;
    Arith.Associate(p, pat, b);
    if r < |p| {
      OccursBefore(p, pat + b, pat, pat, r);
      FindBefore(p, b, r + 1, pat);
    } else {
      assert s[|p|..|p| + |pat|] == pat;
    }
  }

  /** Replacing from the right does not look into what it has replaced. */
  lemma {:induction false} RightReplacedBefore(p: seq<Byte>, x: seq<Byte>, pat: seq<Byte>, rep: seq<Byte>)
    requires pat != [] && |pat| <= |rep| && Unlinked(pat, rep) && rep <= x
    ensures RightReplaced(p + x, |p| - 1, pat, rep) == RightReplaced(p, |p| - 1, pat, rep) + x
    decreases |p|
  {
    var j := LastFind(p, |p| - 1, pat);
    LastFindBefore(p, x, |p| - 1, pat, rep);
    if j >= 0 {
      var front, back := p[..j], rep + p[j + |pat|..];
      AtInFront(p, x, j, pat, rep);
      RightReplacedBefore(front, back, pat, rep);
      RightReplacedBefore(front, back + x, pat, rep);
      Arith.Associate(RightReplaced(front, j - 1, pat, rep), back, x);
    }
  }

  /** From the left, the text before the last occurrence is replaced as if it stood alone. */
  lemma {:induction false} ReplacedBefore(p: seq<Byte>, b: seq<Byte>, r: nat, pat: seq<Byte>, rep: seq<Byte>)
    requires pat != [] && |pat| <= |rep| && Separate(pat, rep) && r <= |p|
    requires forall k: nat | |p| < k :: !Occurs(p + pat + b, k, pat)
    ensures Replaced(p + pat + b, r, pat, rep) == Replaced(p, r, pat, rep) + rep + b
    decreases |p| - r
  {
    FindBefore(p, b, r, pat);
    var i := Find(p, r, pat);
    if i >= 0 {
      ReplacedBefore(p, b, i + |pat|, pat, rep);
      ReplacedOneBefore(p, b, p + pat + b, r, i, pat, rep, Replaced(p, i + |pat|, pat, rep));
    } else {
      NothingAfter(p, b, pat, rep);
      SameFront(p, pat + b, r, |p|);
      Arith.Associate(p, pat, b);
    }
  }

  lemma {:induction false} ReplacedOneBefore(p: seq<Byte>, b: seq<Byte>, s: seq<Byte>, r: nat, i: nat, pat: seq<Byte>,
                                             rep: seq<Byte>, q: seq<Byte>)
    requires pat != [] && r <= |p| && s == p + pat + b && i == Find(p, r, pat) == Find(s, r, pat)
    requires q == Replaced(p, i + |pat|, pat, rep) && Replaced(s, i + |pat|, pat, rep) == q + rep + b
    ensures Replaced(s, r, pat, rep) == Replaced(p, r, pat, rep) + rep + b
  {
    Arith.Associate(p, pat, b);
    SameFront(p, pat + b, r, i);
    ReplacedFirst(s, r, i, pat, rep);
    ReplacedFirst(p, r, i, pat, rep);
    Regrouped(p[r..i] + rep, q, rep, b);
  }

  lemma {:induction false} ReplacedFirst(s: seq<Byte>, r: nat, i: nat, pat: seq<Byte>, rep: seq<Byte>)
    requires pat != [] && r <= |s| && i == Find(s, r, pat)
    ensures Replaced(s, r, pat, rep) == s[r..i] + rep + Replaced(s, i + |pat|, pat, rep)
  {
  }

  lemma {:induction false} SameFront(p: seq<Byte>, x: seq<Byte>, r: nat, i: nat)
    requires r <= i <= |p|
    ensures (p + x)[r..i] == p[r..i] && (i == |p| ==> (p + x)[r..i] == p[r..])
  {
  }

  lemma {:induction false} Regrouped(a: seq<Byte>, q: seq<Byte>, rep: seq<Byte>, b: seq<Byte>)
    ensures a + (q + rep + b) == a + q + rep + b
  {
  }

  lemma {:induction false} NotFound(s: seq<Byte>, pat: seq<Byte>)
    requires pat != [] && LastFind(s, |s| - 1, pat) < 0
    ensures Find(s, 0, pat) < 0
  {
    var i := Find(s, 0, pat);
    if i >= 0 {
      LastFindIsLast(s, |s| - 1, pat, i);
    }
  }

  lemma {:induction false} PartsAround(s: seq<Byte>, i: nat, pat: seq<Byte>)
    requires Occurs(s, i, pat)
    ensures s == s[..i] + pat + s[i + |pat|..]
  {
  }

  /** The last occurrence is replaced first, and the text before it as if it stood alone. */
  lemma {:induction false} RightSplits(s: seq<Byte>, i: nat, p: seq<Byte>, b: seq<Byte>, pat: seq<Byte>, rep: seq<Byte>)
    requires pat != [] && |pat| <= |rep| && Unlinked(pat, rep) && i == LastFind(s, |s| - 1, pat)
    requires p == s[..i] && b == s[i + |pat|..]
    ensures RightReplaced(s, |s| - 1, pat, rep) == RightReplaced(p, i - 1, pat, rep) + (rep + b)
  {
    Arith.Associate(p, rep, b);
    RightReplacedBefore(p, rep + b, pat, rep);
  }

  /** With a separate pattern and replacement, replacing from the right gives the replacement from the left. */
  lemma {:induction false} RightIsLeft(s: seq<Byte>, pat: seq<Byte>, rep: seq<Byte>)
    requires pat != [] && |pat| <= |rep| && Separate(pat, rep)
    ensures RightReplaced(s, |s| - 1, pat, rep) == Replaced(s, 0, pat, rep)
    decreases |s|
  {
    var i := LastFind(s, |s| - 1, pat);
    if i < 0 {
      NotFound(s, pat);
    } else {
      var p, b := s[..i], s[i + |pat|..];
      PartsAround(s, i, pat);
      NoneLater(s, pat, i);
      ReplacedBefore(p, b, 0, pat, rep);
      RightIsLeft(p, pat, rep);
      RightSplits(s, i, p, b, pat, rep);
      Arith.Associate(Replaced(p, 0, pat, rep), rep, b);
    }
  }

  lemma {:induction false} NoneLater(s: seq<Byte>, pat: seq<Byte>, i: nat)
    requires pat != [] && i == LastFind(s, |s| - 1, pat)
    ensures forall k: nat | i < k :: !Occurs(s, k, pat)
  {
    forall k: nat | i < k
      ensures !Occurs(s, k, pat)
    {
      if Occurs(s, k, pat) {
        LastFindIsLast(s, |s| - 1, pat, k);
      }
    }
  }

  // ----- What the loops of the string class keep -----

  /** Going from one occurrence to the next from the left passes over no other. */
  lemma {:induction false} LastFindPasses(s: seq<Byte>, from: nat, i: nat, pat: seq<Byte>, last: int)
    requires from <= i <= |s| && from - 1 <= last < i && last < |s|
    requires forall k | from <= k < i :: !Occurs(s, k, pat)
    ensures LastFind(s, last, pat) == LastFind(s, from - 1, pat)
    decreases last - from
  {
    if last >= from {
      LastFindPasses(s, from, i, pat, last - 1);
    }
  }

  lemma {:induction false} NoneBeforeFind(s: seq<Byte>, r: nat, pat: seq<Byte>, k: nat)
    requires r <= k <= |s| && (Find(s, r, pat) < 0 || k < Find(s, r, pat))
    ensures !Occurs(s, k, pat)
  {
    if Occurs(s, k, pat) {
      FindIsFirst(s, r, pat, k);
    }
  }

  /** The turns of the search loop: `found` is the last occurrence before r. */
  lemma {:induction false} FindNext(s: seq<Byte>, r: nat, last: nat, pat: seq<Byte>, found: int)
    requires r <= last < |s| && found == LastFind(s, r - 1, pat)
    ensures var i := Find(s, r, pat);
      if i < 0 || i > last then LastFind(s, last, pat) == found else LastFind(s, i, pat) == i
  {
    var i := Find(s, r, pat);
    if i < 0 || i > last {
      forall k | r <= k < last + 1
        ensures !Occurs(s, k, pat)
      {
        NoneBeforeFind(s, r, pat, k);
      }
      LastFindPasses(s, r, last + 1, pat, last);
    }
  }

  /** Every occurrence replaced makes the text longer; without one it stays as it is. */
  lemma {:induction false} ReplacedGrows(s: seq<Byte>, r: nat, pat: seq<Byte>, rep: seq<Byte>)
    requires pat != [] && |pat| < |rep| && r <= |s|
    ensures |Replaced(s, r, pat, rep)| >= |s| - r
    ensures Find(s, r, pat) >= 0 <==> |Replaced(s, r, pat, rep)| > |s| - r
    decreases |s| - r
  {
    if Find(s, r, pat) >= 0 {
      ReplacedGrows(s, Find(s, r, pat) + |pat|, pat, rep);
    }
  }

  /** The size of the text from r on with every occurrence replaced. */
  function ReplacedSize(s: seq<Byte>, r: nat, pat: seq<Byte>, n: nat): nat
    requires pat != [] && r <= |s|
    decreases |s| - r
  {
    var i := Find(s, r, pat);
    if i < 0 then |s| - r else (i - r) + n + ReplacedSize(s, i + |pat|, pat, n)
  }

  lemma {:induction false} SizeStep(s: seq<Byte>, r: nat, i: nat, next: nat, pat: seq<Byte>, n: nat)
    requires pat != [] && r <= |s| && i == Find(s, r, pat) && next == i + |pat|
    ensures ReplacedSize(s, r, pat, n) == (i - r) + n + ReplacedSize(s, next, pat, n)
  {
  }

  /** Counting up: with what is still to come, the size is the size of the result. */
  ghost predicate Counting(text: seq<Byte>, pat: seq<Byte>, n: nat, r: nat, size: int, result: nat)
    requires pat != []
  {
    r <= |text| && size + ReplacedSize(text, r, pat, n) == result + (|text| - r)
  }

  lemma {:induction false} CountOne(text: seq<Byte>, pat: seq<Byte>, n: nat, r: nat, i: nat, size: int, result: nat)
    requires pat != [] && Counting(text, pat, n, r, size, result) && i == Find(text, r, pat)
    ensures Counting(text, pat, n, i + |pat|, size + n - |pat|, result)
  {
  }

  lemma {:induction false} CountedAll(text: seq<Byte>, pat: seq<Byte>, n: nat, r: nat, size: int, result: nat)
    requires pat != [] && Counting(text, pat, n, r, size, result) && Find(text, r, pat) < 0
    ensures size == result
  {
  }

  lemma {:induction false} SizeOfFirst(s: seq<Byte>, r: nat, i: nat, pat: seq<Byte>, rep: seq<Byte>, rest: seq<Byte>)
    requires pat != [] && r <= |s| && i == Find(s, r, pat) && rest == Replaced(s, i + |pat|, pat, rep)
    ensures |Replaced(s, r, pat, rep)| == (i - r) + |rep| + |rest|
  {
    ReplacedFirst(s, r, i, pat, rep);
    assert |s[r..i] + rep + rest| == (i - r) + |rep| + |rest|;
  }

  lemma {:induction false} SizeOfReplaced(s: seq<Byte>, r: nat, pat: seq<Byte>, rep: seq<Byte>)
    requires pat != [] && r <= |s|
    ensures |Replaced(s, r, pat, rep)| == ReplacedSize(s, r, pat, |rep|)
    decreases |s| - r
  {
    var i := Find(s, r, pat);
    if i >= 0 {
      var next := i + |pat|;
      SizeOfReplaced(s, next, pat, rep);
      SizeOfFirst(s, r, i, pat, rep, Replaced(s, next, pat, rep));
      SizeStep(s, r, i, next, pat, |rep|);
    }
  }

  lemma {:induction false} AtLeast(a: nat, n: nat)
    requires n >= 1
    ensures a <= a * n
  {
    Arith.Distributes(n, 1, a);
    Arith.ProductIsNat(n - 1, a);
  }

  lemma {:induction false} BoundGrows(a: nat, p: nat, c: nat, d: nat, n: nat, x: nat)
    requires p >= 1 && n >= 1 && x <= c * n && d == a + p + c
    ensures a + n + x <= d * n
  {
    Arith.Sum(a + p, c, n);
    Arith.Sum(a, p, n);
    Arith.AtLeastOnce(p, n);
    AtLeast(a, n);
  }

  lemma {:induction false} SizeIsBounded(s: seq<Byte>, r: nat, pat: seq<Byte>, n: nat, d: nat)
    requires pat != [] && r <= |s| && d == |s| - r && n >= 1
    ensures ReplacedSize(s, r, pat, n) <= d * n
    decreases d
  {
    var i := Find(s, r, pat);
    if i >= 0 {
      var next := i + |pat|;
      var rest := ReplacedSize(s, next, pat, n);
      SizeIsBounded(s, next, pat, n, |s| - next);
      BoundGrows(i - r, |pat|, |s| - next, d, n, rest);
    } else {
      AtLeast(d, n);
    }
  }

  /** Texts of strings are short enough for the size of the result to fit 32 bits. */
  lemma {:induction false} SizeFits(s: seq<Byte>, pat: seq<Byte>, rep: seq<Byte>)
    requires pat != [] && rep != [] && |s| < 65535 && |rep| < 65535
    ensures |Replaced(s, 0, pat, rep)| + 16 < 0x1_0000_0000
  {
    SizeOfReplaced(s, 0, pat, rep);
    SizeIsBounded(s, 0, pat, |rep|, |s|);
    Arith.Scaled(|s|, |rep|, 65534);
  }

  /** In the buffer: what follows moved up, the replacement written into the gap. */
  lemma {:induction false} GapFilled(c: seq<Byte>, n: nat, index: nat, k: nat, rep: seq<Byte>)
    requires index + k <= n && k <= |rep| && n + |rep| - k <= |c|
    ensures var d := Spliced(Spliced(c, index + |rep|, c[index + k..n]), index, rep);
      d[..n + |rep| - k] == c[..index] + rep + c[index + k..n]
  {
    var m, tail := index + |rep|, c[index + k..n];
    var b := Spliced(c, m, tail);
    var d := Spliced(b, index, rep);
    SplicedParts(c, m, tail);
    SplicedParts(b, index, rep);
    InTwo(d, b, m, n + |rep| - k);
    InTwo(b, b, m, n + |rep| - k);
    SameStart(b, c, index, m);
    assert b[..n + |rep| - k][m..] == tail;
  }

  lemma {:induction false} InTwo(d: seq<Byte>, b: seq<Byte>, m: nat, n: nat)
    requires m <= n <= |d| == |b| && d[m..] == b[m..]
    ensures d[..n] == d[..m] + b[..n][m..]
  {
    forall i | m <= i < n
      ensures d[i] == b[i]
    {
      assert d[i] == d[m..][i - m];
    }
  }

  lemma {:induction false} SameStart(b: seq<Byte>, c: seq<Byte>, index: nat, m: nat)
    requires index <= m <= |b| == |c| && b[..m] == c[..m]
    ensures b[..index] == c[..index]
  {
    assert b[..index] == b[..m][..index];
  }

  lemma {:induction false} ReplacedAtIs(c: seq<Byte>, n: nat, index: nat, k: nat, pat: seq<Byte>, rep: seq<Byte>)
    requires index + k <= n <= |c| && k == |pat|
    ensures ReplacedAt(c[..n], index, pat, rep) == c[..index] + rep + c[index + k..n]
  {
    assert c[..n][..index] == c[..index] && c[..n][index + k..] == c[index + k..n];
  }

  lemma {:induction false} ReplacedAtHasNoNul(s: seq<Byte>, i: nat, pat: seq<Byte>, rep: seq<Byte>)
    requires i + |pat| <= |s| && NoNul(s) && NoNul(rep)
    ensures NoNul(ReplacedAt(s, i, pat, rep))
  {
    NoNulPart(s, 0, i);
    NoNulPart(s, i + |pat|, |s|);
    NoNulTogether(s[..i], rep);
    NoNulTogether(s[..i] + rep, s[i + |pat|..]);
  }

  // ----- The condition is exact -----

  lemma {:induction false} OccursAtStart(s: seq<Byte>, pat: seq<Byte>)
    requires |pat| <= |s| && forall m | 0 <= m < |pat| :: s[m] == pat[m]
    ensures Occurs(s, 0, pat)
  {
    assert s[0..|pat|] == pat;
  }

  /** Before an occurrence, the first k characters of the pattern once more; and the same after the replacement. */
  lemma {:induction false} TextOfLink(pat: seq<Byte>, k: nat, s: seq<Byte>)
    requires 0 < k < |pat| && s == pat[..k] + pat
    ensures Occurs(s, k, pat) && LastFind(s, |s| - 1, pat) == k
  {
    assert s[k..k + |pat|] == pat;
    LastFindIsLast(s, |s| - 1, pat, k);
  }

  lemma {:induction false} RightOfLink(pat: seq<Byte>, rep: seq<Byte>, k: nat, s: seq<Byte>)
    requires 0 < k < |pat| < |rep| && s == pat[..k] + pat
    ensures RightReplaced(s, |s| - 1, pat, rep) == RightReplaced(pat[..k] + rep, k - 1, pat, rep)
    ensures RightReplaced(s, |s| - 1, pat, rep) == pat[..k] + rep
            || |RightReplaced(s, |s| - 1, pat, rep)| > k + |rep|
    ensures Occurs(pat[..k] + rep, 0, pat) ==> |RightReplaced(s, |s| - 1, pat, rep)| > k + |rep|
  {
    TextOfLink(pat, k, s);
    assert ReplacedAt(s, k, pat, rep) == pat[..k] + rep;
    var t := pat[..k] + rep;
    if Occurs(t, 0, pat) {
      LastFindIsLast(t, k - 1, pat, 0);
    }
  }

  /** The pattern overlaps itself: from the left the first of two overlapping occurrences is replaced. */
  lemma {:induction false} LeftOfOverlap(pat: seq<Byte>, rep: seq<Byte>, k: nat, s: seq<Byte>)
    requires RestStarts(pat, k, pat) && s == pat[..k] + pat
    ensures Replaced(s, 0, pat, rep) == rep + s[|pat|..]
  {
    forall m | 0 <= m < |pat|
      ensures s[m] == pat[m]
    {
      if m >= k {
        assert pat[k..][m - k] == pat[m - k];
      }
    }
    OccursAtStart(s, pat);
    assert Find(s, 0, pat) == 0;
    TooShort(s, |pat|, pat);
    assert s[0..0] + rep == rep;
  }

  lemma {:induction false} TooShort(s: seq<Byte>, r: nat, pat: seq<Byte>)
    requires r <= |s| < r + |pat|
    ensures Find(s, r, pat) == -1
  {
    var i := Find(s, r, pat);
  }

  lemma {:induction false} OverlapDiffers(pat: seq<Byte>, rep: seq<Byte>, k: nat, s: seq<Byte>)
    requires RestStarts(pat, k, pat) && |pat| < |rep| && s == pat[..k] + pat
    ensures RightReplaced(s, |s| - 1, pat, rep) != Replaced(s, 0, pat, rep)
  {
    LeftOfOverlap(pat, rep, k, s);
    RightOfLink(pat, rep, k, s);
    var t := pat[..k] + rep;
    if t == rep + s[|pat|..] {
      forall m | 0 <= m < |pat|
        ensures t[m] == pat[m]
      {
        Periodic(pat, rep, k, t, s[|pat|..], m);
      }
      OccursAtStart(t, pat);
    }
  }

  lemma {:induction false} Periodic(pat: seq<Byte>, rep: seq<Byte>, k: nat, t: seq<Byte>, tail: seq<Byte>, m: nat)
    requires RestStarts(pat, k, pat) && |pat| < |rep| && t == pat[..k] + rep == rep + tail && m < |pat|
    ensures t[m] == pat[m]
  {
    if m >= k {
      Periodic(pat, rep, k, t, tail, m - k);
      assert t[m] == rep[m - k] == t[m - k];
      assert pat[k..][m - k] == pat[m - k];
    }
  }

  /** From the left only one of the occurrences in this text is replaced. */
  lemma {:induction false} LeftOfLink(pat: seq<Byte>, rep: seq<Byte>, k: nat, s: seq<Byte>)
    requires 0 < k < |pat| && s == pat[..k] + pat
    ensures |Replaced(s, 0, pat, rep)| == k + |rep|
  {
    TextOfLink(pat, k, s);
    FindIsFirst(s, 0, pat, k);
    var i := Find(s, 0, pat);
    ReplacedFirst(s, 0, i, pat, rep);
    TooShort(s, i + |pat|, pat);
  }

  /** A rest of the pattern starts the replacement: from the right a new occurrence comes about and is replaced too. */
  lemma {:induction false} LinkOutgrows(pat: seq<Byte>, rep: seq<Byte>, k: nat, s: seq<Byte>)
    requires RestStarts(pat, k, rep) && |pat| < |rep| && s == pat[..k] + pat
    ensures |RightReplaced(s, |s| - 1, pat, rep)| > |Replaced(s, 0, pat, rep)|
  {
    var t := pat[..k] + rep;
    forall m | 0 <= m < |pat|
      ensures t[m] == pat[m]
    {
      if m >= k {
        assert pat[k..][m - k] == rep[m - k];
      }
    }
    OccursAtStart(t, pat);
    RightOfLink(pat, rep, k, s);
    LeftOfLink(pat, rep, k, s);
  }

  /** Exactly for a separate pattern and replacement every text gets the replacement from the left. */
  lemma {:induction false} SeparateDecides(pat: seq<Byte>, rep: seq<Byte>)
    requires pat != [] && |pat| < |rep|
    ensures (forall s: seq<Byte> :: RightReplaced(s, |s| - 1, pat, rep) == Replaced(s, 0, pat, rep))
       <==> Separate(pat, rep)
  {
    if Separate(pat, rep) {
      forall s: seq<Byte>
        ensures RightReplaced(s, |s| - 1, pat, rep) == Replaced(s, 0, pat, rep)
      {
        RightIsLeft(s, pat, rep);
      }
    } else {
      var s := Differing(pat, rep);
      assert RightReplaced(s, |s| - 1, pat, rep) != Replaced(s, 0, pat, rep);
    }
  }

  lemma {:induction false} LinkText(pat: seq<Byte>, k: nat) returns (s: seq<Byte>)
    requires k < |pat|
    ensures s == pat[..k] + pat && (NoNul(pat) ==> NoNul(s))
  {
    s := pat[..k] + pat;
    if NoNul(pat) {
      NoNulPart(pat, 0, k);
      NoNulTogether(pat[..k], pat);
    }
  }

  /** A rest of the pattern that starts it again or starts the replacement. */
  lemma {:induction false} Linking(pat: seq<Byte>, y: seq<Byte>) returns (k: nat)
    requires !Unlinked(pat, y)
    ensures RestStarts(pat, k, y) && k < |pat|
  {
    k :| RestStarts(pat, k, y);
    RestIsInside(pat, k, y);
  }

  /** A text without a NUL that outgrows the size counted from the left. */
  lemma {:induction false} Outgrowing(pat: seq<Byte>, rep: seq<Byte>) returns (s: seq<Byte>)
    requires pat != [] && |pat| < |rep| && !Unlinked(pat, rep)
    ensures |RightReplaced(s, |s| - 1, pat, rep)| > |Replaced(s, 0, pat, rep)|
    ensures NoNul(pat) ==> NoNul(s)
  {
    var k := Linking(pat, rep);
    s := LinkText(pat, k);
    LinkOutgrows(pat, rep, k, s);
  }

  /** Otherwise there is a text without a NUL that does not. */
  lemma {:induction false} Differing(pat: seq<Byte>, rep: seq<Byte>) returns (s: seq<Byte>)
    requires pat != [] && |pat| < |rep| && !Separate(pat, rep)
    ensures RightReplaced(s, |s| - 1, pat, rep) != Replaced(s, 0, pat, rep)
    ensures NoNul(pat) ==> NoNul(s)
  {
    if !Unlinked(pat, pat) {
      var k := Linking(pat, pat);
      s := LinkText(pat, k);
      OverlapDiffers(pat, rep, k, s);
    } else {
      s := Outgrowing(pat, rep);
    }
  }

  // ----- The size counted from the left -----

  lemma {:induction false} SizeAtLeast(s: seq<Byte>, r: nat, pat: seq<Byte>, n: nat)
    requires pat != [] && r <= |s| && |pat| <= n
    ensures ReplacedSize(s, r, pat, n) >= |s| - r
    decreases |s| - r
  {
    var i := Find(s, r, pat);
    if i >= 0 {
      SizeAtLeast(s, i + |pat|, pat, n);
    }
  }

  /** An occurrence that lies in the front is found whatever follows. */
  lemma {:induction false} FindInFront(p: seq<Byte>, x: seq<Byte>, r: nat, pat: seq<Byte>)
    requires r <= |p| && Find(p, r, pat) >= 0
    ensures Find(p + x, r, pat) == Find(p, r, pat)
  {
    var s, f: nat := p + x, Find(p, r, pat);
    OccursInFront(p, x, pat, f);
    FindIsFirst(s, r, pat, f);
    var g: nat := Find(s, r, pat);
    OccursInFront(p, x, pat, g);
    FindIsFirst(p, r, pat, g);
  }

  lemma {:induction false} OccursInFront(p: seq<Byte>, x: seq<Byte>, pat: seq<Byte>, k: nat)
    requires k + |pat| <= |p|
    ensures Occurs(p + x, k, pat) <==> Occurs(p, k, pat)
  {
    assert (p + x)[k..k + |pat|] == p[k..k + |pat|];
  }

  lemma {:induction false} SizeFromFirst(s: seq<Byte>, r: nat, pat: seq<Byte>, n: nat, k: nat)
    requires pat != [] && |pat| <= n && r <= k <= |s| && Occurs(s, k, pat)
    ensures ReplacedSize(s, r, pat, n) >= |s| - r + n - |pat|
  {
    FindIsFirst(s, r, pat, k);
    var g: nat := Find(s, r, pat);
    SizeAtLeast(s, g + |pat|, pat, n);
  }

  lemma {:induction false} OccursBehind(p: seq<Byte>, pat: seq<Byte>, b: seq<Byte>)
    ensures Occurs(p + (pat + b), |p|, pat)
  {
    assert (p + (pat + b))[|p|..|p| + |pat|] == pat;
  }

  /** From the left, the occurrences before one and that one count at least as before it and one more. */
  lemma {:induction false} SizeSplits(p: seq<Byte>, b: seq<Byte>, x: seq<Byte>, r: nat, pat: seq<Byte>, n: nat)
    requires pat != [] && |pat| <= n && r <= |p| && x == pat + b
    ensures ReplacedSize(p + x, r, pat, n) >= ReplacedSize(p, r, pat, n) + n + |b|
    decreases |p| - r
  {
    if Find(p, r, pat) >= 0 {
      var f: nat := Find(p, r, pat);
      var next := f + |pat|;
      FindInFront(p, x, r, pat);
      SizeSplits(p, b, x, next, pat, n);
      SizeStep(p, r, f, next, pat, n);
      SizeStep(p + x, r, f, next, pat, n);
    } else {
      OccursBehind(p, pat, b);
      SizeFromFirst(p + x, r, pat, n, |p|);
    }
  }

  /** If no rest of the pattern starts the replacement, the result from the right never outgrows that size. */
  lemma {:induction false} NeverOutgrows(s: seq<Byte>, pat: seq<Byte>, rep: seq<Byte>)
    requires pat != [] && |pat| <= |rep| && Unlinked(pat, rep)
    ensures |RightReplaced(s, |s| - 1, pat, rep)| <= |Replaced(s, 0, pat, rep)|
    decreases |s|
  {
    var i := LastFind(s, |s| - 1, pat);
    if i < 0 {
      NotFound(s, pat);
    } else {
      var p, b := s[..i], s[i + |pat|..];
      PartsAround(s, i, pat);
      Arith.Associate(p, pat, b);
      RightSplits(s, i, p, b, pat, rep);
      NeverOutgrows(p, pat, rep);
      SizeSplits(p, b, pat + b, 0, pat, |rep|);
      SizeOfReplaced(s, 0, pat, rep);
      SizeOfReplaced(p, 0, pat, rep);
    }
  }

  /** The size counted from the left is enough for every text if and only if no rest of the pattern starts the
      replacement; a pattern that overlaps itself changes the result without outgrowing it. */
  lemma {:induction false} UnlinkedDecides(pat: seq<Byte>, rep: seq<Byte>)
    requires pat != [] && |pat| < |rep|
    ensures (forall s: seq<Byte> :: |RightReplaced(s, |s| - 1, pat, rep)| <= |Replaced(s, 0, pat, rep)|)
       <==> Unlinked(pat, rep)
  {
    if Unlinked(pat, rep) {
      forall s: seq<Byte>
        ensures |RightReplaced(s, |s| - 1, pat, rep)| <= |Replaced(s, 0, pat, rep)|
      {
        NeverOutgrows(s, pat, rep);
      }
    } else {
      var s := Outgrowing(pat, rep);
      assert |RightReplaced(s, |s| - 1, pat, rep)| > |Replaced(s, 0, pat, rep)|;
    }
  }

  // ----- What the string class makes of a text -----

  /** Every occurrence replaced, from the left unless the replacement is longer than the pattern. */
  function Outcome(s: seq<Byte>, pat: seq<Byte>, rep: seq<Byte>): seq<Byte>
  {
    if pat == [] then s
    else if |rep| <= |pat| then Replaced(s, 0, pat, rep)
    else RightReplaced(s, |s| - 1, pat, rep)
  }

  lemma {:induction false} NothingFound(s: seq<Byte>, pat: seq<Byte>, rep: seq<Byte>)
    requires pat != [] && |pat| <= |rep| && Find(s, 0, pat) < 0
    ensures RightReplaced(s, |s| - 1, pat, rep) == s
  {
    var i := LastFind(s, |s| - 1, pat);
    if i >= 0 {
      FindIsFirst(s, 0, pat, i);
    }
  }

  lemma {:induction false} StartCounting(s: seq<Byte>, pat: seq<Byte>, rep: seq<Byte>)
    requires pat != []
    ensures Counting(s, pat, |rep|, 0, |s|, |Replaced(s, 0, pat, rep)|)
  {
    SizeOfReplaced(s, 0, pat, rep);
  }

  /** What the size counted from the left is good for. */
  lemma {:induction false} Counted(s: seq<Byte>, pat: seq<Byte>, rep: seq<Byte>, size: nat)
    requires pat != [] && |pat| < |rep| < 65535 && |s| < 65535 && Unlinked(pat, rep)
    requires size == |Replaced(s, 0, pat, rep)|
    ensures |RightReplaced(s, |s| - 1, pat, rep)| <= size && size + 16 < 0x1_0000_0000
    ensures size == |s| ==> RightReplaced(s, |s| - 1, pat, rep) == s
  {
    SizeFits(s, pat, rep);
    NeverOutgrows(s, pat, rep);
    ReplacedGrows(s, 0, pat, rep);
    if size == |s| {
      NothingFound(s, pat, rep);
    }
  }

  lemma {:induction false} RightReplacedHasNoNul(s: seq<Byte>, last: int, pat: seq<Byte>, rep: seq<Byte>)
    requires pat != [] && |pat| <= |rep| && -1 <= last < |s| && NoNul(s) && NoNul(rep)
    ensures NoNul(RightReplaced(s, last, pat, rep))
    decreases last + 1
  {
    var i := LastFind(s, last, pat);
    if i >= 0 {
      ReplacedAtHasNoNul(s, i, pat, rep);
      RightReplacedHasNoNul(ReplacedAt(s, i, pat, rep), i - 1, pat, rep);
    }
  }

  lemma {:induction false} OutcomeHasNoNul(s: seq<Byte>, pat: seq<Byte>, rep: seq<Byte>)
    requires NoNul(s) && NoNul(rep)
    ensures NoNul(Outcome(s, pat, rep))
  {
    if pat == [] {
    } else if |rep| <= |pat| {
      ReplacedHasNoNul(s, 0, pat, rep);
    } else {
      RightReplacedHasNoNul(s, |s| - 1, pat, rep);
    }
  }

  lemma {:induction false} OutcomeOfEmpty(s: seq<Byte>, pat: seq<Byte>, rep: seq<Byte>)
    requires s == []
    ensures Outcome(s, pat, rep) == []
  {
    if pat != [] {
      assert Find(s, 0, pat) == -1;
    }
  }

  /** The replacement from the left, unless a longer replacement is not separate from its pattern. */
  lemma {:induction false} OutcomeFromLeft(s: seq<Byte>, pat: seq<Byte>, rep: seq<Byte>)
    requires pat != [] && (|pat| < |rep| ==> Separate(pat, rep))
    ensures Outcome(s, pat, rep) == Replaced(s, 0, pat, rep)
  {
    if |pat| < |rep| {
      RightIsLeft(s, pat, rep);
    }
  }
}
