/** Bytes and NUL-terminated strings. */
module Bytes {
  import Arith

  type Byte = b: int | 0 <= b < 256

  predicate NoNul(s: seq<Byte>) { forall i | 0 <= i < |s| :: s[i] != 0 }

  /** What C takes s for: everything before the first NUL. */
  function UpToNul(s: seq<Byte>): (r: seq<Byte>)
    ensures r <= s && NoNul(r) && (|r| < |s| ==> s[|r|] == 0)
  {
    if s == [] || s[0] == 0 then [] else [s[0]] + UpToNul(s[1..])
  }

  lemma {:induction false} WholeWithoutNul(s: seq<Byte>)
    requires NoNul(s)
    ensures UpToNul(s) == s
  {
    if s != [] {
      WholeWithoutNul(s[1..]);
    }
  }

  lemma {:induction false} FirstNul(s: seq<Byte>, n: nat)
    requires n < |s| && NoNul(s[..n]) && s[n] == 0
    ensures UpToNul(s) == s[..n]
  {
    if n > 0 {
      assert s[0] == s[..n][0];
      assert s[1..][..n - 1] == s[..n][1..];
      FirstNul(s[1..], n - 1);
    }
  }

  lemma {:induction false} NulAhead(s: seq<Byte>, k: nat)
    requires k < |s| && s[k] == 0
    ensures |UpToNul(s)| <= k
  {
  }

  /** The part of a text between two positions in either order, clamped to the text, up to a NUL. */
  function Between(s: seq<Byte>, a: nat, b: nat): seq<Byte>
  {
    var left, right := if a < b then a else b, if a < b then b else a;
    if left >= |s| then [] else UpToNul(s[left..if right < |s| then right else |s|])
  }

  lemma {:induction false} BetweenIs(s: seq<Byte>, a: nat, b: nat, left: nat, right: nat)
    requires if a > b then left == b && right == a else left == a && right == b
    ensures left >= |s| ==> Between(s, a, b) == []
    ensures left < |s| ==> Between(s, a, b) == UpToNul(s[left..if right > |s| then |s| else right])
  {
  }

  /** In numbers: the positions may come in either order and are clamped to the text; what is between them is cut off
      at its first NUL, if there is one. */
  lemma {:induction false} BetweenInNumbers(s: seq<Byte>, a: nat, b: nat)
    requires a <= b
    ensures Between(s, b, a) == Between(s, a, b)
    ensures var part := if a >= |s| then [] else s[a..if b < |s| then b else |s|];
      var n := |Between(s, a, b)|;
      && n <= |part| && Between(s, a, b) == part[..n]
      && (forall k | 0 <= k < n :: part[k] != 0) && (n < |part| ==> part[n] == 0)
  {
  }

  /** The length of the C string in a buffer that holds a NUL. */
  method StrLen(buffer: seq<Byte>) returns (n: nat)
    requires 0 in buffer
    ensures n < |buffer| && buffer[n] == 0 && UpToNul(buffer) == buffer[..n]
  {
    ghost var nul :| 0 <= nul < |buffer| && buffer[nul] == 0;
    n := 0;
    while buffer[n] != 0
      invariant n <= nul && NoNul(buffer[..n])
      decreases nul - n
    {
      n := n + 1;
    }
    FirstNul(buffer, n);
  }

  /** Only what comes before a NUL counts. */
  lemma {:induction false} CutAtNul(s: seq<Byte>, rest: seq<Byte>)
    ensures UpToNul(s + [0] + rest) == UpToNul(s)
  {
    if s == [] {
      assert ([] + [0] + rest)[0] == 0;
    } else {
      assert (s + [0] + rest)[1..] == s[1..] + [0] + rest;
      CutAtNul(s[1..], rest);
    }
  }

  /** c with the bytes written over it from `at` on. */
  function Spliced(c: seq<Byte>, at: nat, bytes: seq<Byte>): (s: seq<Byte>)
    requires at + |bytes| <= |c|
    ensures |s| == |c|
    decreases |bytes|
  {
    if bytes == [] then c else Spliced(c[at := bytes[0]], at + 1, bytes[1..])
  }

  lemma {:induction false} SplicedIs(c: seq<Byte>, at: nat, bytes: seq<Byte>)
    requires at + |bytes| <= |c|
    ensures Spliced(c, at, bytes) == c[..at] + bytes + c[at + |bytes|..]
    decreases |bytes|
  {
    if bytes != [] {
      SplicedIs(c[at := bytes[0]], at + 1, bytes[1..]);
    }
  }

  lemma {:induction false} SplicedParts(c: seq<Byte>, at: nat, bytes: seq<Byte>)
    requires at + |bytes| <= |c|
    ensures var s := Spliced(c, at, bytes);
            && s[..at] == c[..at] && s[..at + |bytes|] == c[..at] + bytes
            && s[at + |bytes|..] == c[at + |bytes|..]
  {
    SplicedIs(c, at, bytes);
  }

  lemma {:induction false} PartOfPrefix(c: seq<Byte>, n: nat, left: nat, right: nat)
    requires left <= right <= n <= |c|
    ensures c[..n][left..right] == c[left..right]
  {
  }

  lemma {:induction false} AroundGap(c: seq<Byte>, n: nat, index: nat, count: nat)
    requires index + count <= n <= |c|
    ensures c[..index] + c[index + count..n] == c[..n][..index] + c[..n][index + count..]
  {
  }

  lemma {:induction false} CutOffPart(c: seq<Byte>, left: nat, right: nat)
    requires left <= right < |c|
    ensures UpToNul(c[right := 0][left..]) == UpToNul(c[left..right])
  {
    assert c[right := 0][left..] == c[left..right] + [0] + c[right + 1..];
    CutAtNul(c[left..right], c[right + 1..]);
  }

  // ----- Trimming -----

  predicate IsSpace(c: Byte) { c == 32 || 9 <= c <= 13 }

  /** Only spaces from `at` up to `end`. */
  predicate Spaces(s: seq<Byte>, at: nat, end: nat)
  {
    forall k | at <= k < end && k < |s| :: IsSpace(s[k])
  }

  function Trimmed(s: seq<Byte>): seq<Byte>
  {
    if s != [] && IsSpace(s[0]) then Trimmed(s[1..])
    else if s != [] && IsSpace(s[|s| - 1]) then Trimmed(s[..|s| - 1])
    else s
  }

  lemma {:induction false} TrimmedFront(s: seq<Byte>, begin: nat, end: nat)
    requires 0 < begin <= end <= |s| && Spaces(s, 0, begin) && Spaces(s, end, |s|)
    ensures Trimmed(s) == Trimmed(s[1..]) && s[1..][begin - 1..end - 1] == s[begin..end]
    ensures Spaces(s[1..], 0, begin - 1) && Spaces(s[1..], end - 1, |s| - 1)
  {
  }

  lemma {:induction false} TrimmedBack(s: seq<Byte>, end: nat)
    requires 0 < end < |s| && Spaces(s, end, |s|) && !IsSpace(s[0])
    ensures Trimmed(s) == Trimmed(s[..|s| - 1]) && s[..|s| - 1][..end] == s[..end]
    ensures Spaces(s[..|s| - 1], end, |s| - 1)
  {
  }

  lemma {:induction false} TrimmedAllSpace(s: seq<Byte>)
    requires Spaces(s, 0, |s|)
    ensures Trimmed(s) == []
  {
    if s != [] {
      TrimmedAllSpace(s[1..]);
    }
  }

  lemma {:induction false} TrimmedAtEnd(s: seq<Byte>, end: nat)
    requires 0 < end <= |s| && Spaces(s, end, |s|) && !IsSpace(s[0]) && !IsSpace(s[end - 1])
    ensures Trimmed(s) == s[..end]
    decreases |s|
  {
    if end < |s| {
      TrimmedBack(s, end);
      TrimmedAtEnd(s[..|s| - 1], end);
    }
  }

  /** What is left starts and ends with no space and had only spaces around it. */
  lemma {:induction false} TrimmedIs(s: seq<Byte>, begin: nat, end: nat)
    requires begin <= end <= |s| && Spaces(s, 0, begin) && Spaces(s, end, |s|)
    requires begin < end ==> !IsSpace(s[begin]) && !IsSpace(s[end - 1])
    ensures Trimmed(s) == s[begin..end]
    decreases |s|
  {
    if begin > 0 {
      TrimmedFront(s, begin, end);
      TrimmedIs(s[1..], begin - 1, end - 1);
    } else if end > 0 {
      TrimmedAtEnd(s, end);
    } else {
      TrimmedAllSpace(s);
    }
  }

  lemma {:induction false} SpacesAre(c: Byte)
    ensures IsSpace(c) <==> c in {9, 10, 11, 12, 13, 32}
  {
  }

  /** In numbers: the six white-space characters of C are taken off both ends, as many as there are. */
  lemma {:induction false} TrimmedInNumbers(s: seq<Byte>) returns (begin: nat, end: nat)
    ensures begin <= end <= |s| && Trimmed(s) == s[begin..end]
    ensures forall k | 0 <= k < |s| && (k < begin || end <= k) :: s[k] in {9, 10, 11, 12, 13, 32}
    ensures begin < end ==> s[begin] !in {9, 10, 11, 12, 13, 32} && s[end - 1] !in {9, 10, 11, 12, 13, 32}
  {
    begin, end := 0, |s|;
    while begin < end && IsSpace(s[begin])
      invariant begin <= end && Spaces(s, 0, begin)
    {
      begin := begin + 1;
    }
    while begin < end && IsSpace(s[end - 1])
      invariant begin <= end <= |s| && Spaces(s, end, |s|)
      invariant begin < end ==> !IsSpace(s[begin])
    {
      end := end - 1;
    }
    TrimmedIs(s, begin, end);
    forall k | 0 <= k < |s|
      ensures IsSpace(s[k]) <==> s[k] in {9, 10, 11, 12, 13, 32}
    {
      SpacesAre(s[k]);
    }
  }

  // ----- Searching and replacing -----

  /** The pattern stands at position i. */
  predicate Occurs(s: seq<Byte>, i: nat, pat: seq<Byte>)
  {
    i + |pat| <= |s| && s[i..i + |pat|] == pat
  }

  /** Where the pattern first occurs from r on, or -1. */
  function Find(s: seq<Byte>, r: nat, pat: seq<Byte>): (i: int)
    requires r <= |s|
    ensures i == -1 || r <= i
    ensures i >= 0 ==> Occurs(s, i, pat) && i + |pat| <= |s|
    decreases |s| - r
  {
    if Occurs(s, r, pat) then r else if r < |s| then Find(s, r + 1, pat) else -1
  }

  lemma {:induction false} FindIsFirst(s: seq<Byte>, r: nat, pat: seq<Byte>, k: nat)
    requires r <= k <= |s| && Occurs(s, k, pat)
    ensures r <= Find(s, r, pat) <= k
    decreases k - r
  {
    if r < k && !Occurs(s, r, pat) {
      FindIsFirst(s, r + 1, pat, k);
    }
  }

  /** The text from r on with every occurrence replaced, from left to right, none overlapping another. */
  function Replaced(s: seq<Byte>, r: nat, pat: seq<Byte>, rep: seq<Byte>): seq<Byte>
    requires pat != [] && r <= |s|
    decreases |s| - r
  {
    var i := Find(s, r, pat);
    if i < 0 then s[r..] else s[r..i] + rep + Replaced(s, i + |pat|, pat, rep)
  }

  /** Pieces put together with something between any two of them. */
  function Joined(pieces: seq<seq<Byte>>, between: seq<Byte>): seq<Byte>
  {
    if pieces == [] then [] else if |pieces| == 1 then pieces[0] else pieces[0] + between + Joined(pieces[1..], between)
  }

  /** The pattern is not found in the text before position n. */
  predicate NotBefore(s: seq<Byte>, n: nat, pat: seq<Byte>)
  {
    forall k | 0 <= k < n :: !Occurs(s, k, pat)
  }

  /** The text is cut at the occurrences of the pattern, each the first one behind the one before. */
  predicate CutAt(pieces: seq<seq<Byte>>, pat: seq<Byte>)
  {
    pieces != [] &&
    if |pieces| == 1 then NotBefore(pieces[0], |pieces[0]| + 1, pat)
    else NotBefore(pieces[0] + pat, |pieces[0]|, pat) && CutAt(pieces[1..], pat)
  }

  lemma {:induction false} OccursInPart(s: seq<Byte>, r: nat, end: nat, k: nat, pat: seq<Byte>)
    requires r <= end <= |s| && Occurs(s[r..end], k, pat)
    ensures Occurs(s, r + k, pat)
  {
    PartOfPart(s, r, end, k, k + |pat|);
  }

  lemma {:induction false} PartOfPart(s: seq<Byte>, r: nat, end: nat, a: nat, b: nat)
    requires r <= end <= |s| && a <= b <= end - r
    ensures s[r..end][a..b] == s[r + a..r + b]
  {
    forall k | 0 <= k < b - a
      ensures s[r..end][a..b][k] == s[r + a..r + b][k]
    {
      assert s[r..end][a + k] == s[r + (a + k)];
    }
  }

  lemma {:induction false} PieceNotBefore(s: seq<Byte>, r: nat, i: nat, pat: seq<Byte>)
    requires pat != [] && r <= |s| && i == Find(s, r, pat)
    ensures NotBefore(s[r..i] + pat, i - r, pat)
  {
    forall k | 0 <= k < i - r
      ensures !Occurs(s[r..i] + pat, k, pat)
    {
      assert s[r..i] + pat == s[r..i + |pat|];
      if Occurs(s[r..i + |pat|], k, pat) {
        OccursInPart(s, r, i + |pat|, k, pat);
        FindIsFirst(s, r, pat, r + k);
      }
    }
  }

  lemma {:induction false} RestNotBefore(s: seq<Byte>, r: nat, pat: seq<Byte>)
    requires pat != [] && r <= |s| && Find(s, r, pat) < 0
    ensures NotBefore(s[r..], |s| - r + 1, pat)
  {
    assert s[r..] == s[r..|s|];
    forall k | 0 <= k <= |s| - r
      ensures !Occurs(s[r..|s|], k, pat)
    {
      if Occurs(s[r..|s|], k, pat) {
        OccursInPart(s, r, |s|, k, pat);
        FindIsFirst(s, r, pat, r + k);
      }
    }
  }

  function Pieces(s: seq<Byte>, r: nat, pat: seq<Byte>): (pieces: seq<seq<Byte>>)
    requires pat != [] && r <= |s|
    ensures pieces != []
    decreases |s| - r
  {
    var i := Find(s, r, pat);
    if i < 0 then [s[r..]] else [s[r..i]] + Pieces(s, i + |pat|, pat)
  }

  lemma {:induction false} AroundOccurrence(s: seq<Byte>, r: nat, i: nat, pat: seq<Byte>)
    requires r <= i && Occurs(s, i, pat)
    ensures s[r..] == s[r..i] + pat + s[i + |pat|..]
  {
  }

  lemma {:induction false} JoinedMore(first: seq<Byte>, rest: seq<seq<Byte>>, between: seq<Byte>)
    requires rest != []
    ensures Joined([first] + rest, between) == first + between + Joined(rest, between)
  {
    assert ([first] + rest)[1..] == rest;
  }

  lemma {:induction false} PiecesRejoined(s: seq<Byte>, r: nat, pat: seq<Byte>)
    requires pat != [] && r <= |s|
    ensures Joined(Pieces(s, r, pat), pat) == s[r..]
    decreases |s| - r
  {
    var i := Find(s, r, pat);
    if i >= 0 {
      var next: nat := i + |pat|;
      PiecesRejoined(s, next, pat);
      JoinedWith(s[r..i], Pieces(s, next, pat), pat, s[next..]);
      AroundOccurrence(s, r, i, pat);
    }
  }

  lemma {:induction false} PiecesReplaced(s: seq<Byte>, r: nat, pat: seq<Byte>, rep: seq<Byte>,
                                          pieces: seq<seq<Byte>>, replaced: seq<Byte>)
    requires pat != [] && r <= |s| && pieces == Pieces(s, r, pat) && replaced == Replaced(s, r, pat, rep)
    ensures Joined(pieces, rep) == replaced
    decreases |s| - r
  {
    var i := Find(s, r, pat);
    if i >= 0 {
      var next: nat := i + |pat|;
      PiecesReplaced(s, next, pat, rep, Pieces(s, next, pat), Replaced(s, next, pat, rep));
      JoinedWith(s[r..i], Pieces(s, next, pat), rep, Replaced(s, next, pat, rep));
    }
  }

  lemma {:induction false} JoinedWith(first: seq<Byte>, rest: seq<seq<Byte>>, between: seq<Byte>, tail: seq<Byte>)
    requires rest != [] && Joined(rest, between) == tail
    ensures Joined([first] + rest, between) == first + between + tail
  {
    JoinedMore(first, rest, between);
  }

  lemma {:induction false} CutMore(first: seq<Byte>, rest: seq<seq<Byte>>, pat: seq<Byte>)
    requires CutAt(rest, pat) && NotBefore(first + pat, |first|, pat)
    ensures CutAt([first] + rest, pat)
  {
    assert ([first] + rest)[1..] == rest;
  }

  lemma {:induction false} PiecesAreCut(s: seq<Byte>, r: nat, pat: seq<Byte>, pieces: seq<seq<Byte>>)
    requires pat != [] && r <= |s| && pieces == Pieces(s, r, pat)
    ensures CutAt(pieces, pat)
    decreases |s| - r
  {
    var i := Find(s, r, pat);
    if i < 0 {
      RestNotBefore(s, r, pat);
    } else {
      var next: nat := i + |pat|;
      PiecesAreCut(s, next, pat, Pieces(s, next, pat));
      PieceNotBefore(s, r, i, pat);
      CutMore(s[r..i], Pieces(s, next, pat), pat);
    }
  }

  /** Replacing, said without searching: the text is cut at the occurrences, the first one each time, and the
      pieces are put together again with the replacement. */
  lemma {:induction false} ReplacedInPieces(s: seq<Byte>, pat: seq<Byte>, rep: seq<Byte>)
    returns (pieces: seq<seq<Byte>>)
    requires pat != []
    ensures CutAt(pieces, pat) && Joined(pieces, pat) == s && Joined(pieces, rep) == Replaced(s, 0, pat, rep)
  {
    pieces := Pieces(s, 0, pat);
    PiecesAreCut(s, 0, pat, pieces);
    PiecesRejoined(s, 0, pat);
    PiecesReplaced(s, 0, pat, rep, pieces, Replaced(s, 0, pat, rep));
  }

  lemma {:induction false} NoNulPart(s: seq<Byte>, r: nat, i: nat)
    requires NoNul(s) && r <= i <= |s|
    ensures NoNul(s[r..i]) && (i == |s| ==> NoNul(s[r..]))
  {
  }

  lemma {:induction false} NoNulTogether(a: seq<Byte>, b: seq<Byte>)
    requires NoNul(a) && NoNul(b)
    ensures NoNul(a + b)
  {
  }

  lemma {:induction false} ReplacedHasNoNul(s: seq<Byte>, r: nat, pat: seq<Byte>, rep: seq<Byte>)
    requires pat != [] && r <= |s| && NoNul(s) && NoNul(rep)
    ensures NoNul(Replaced(s, r, pat, rep))
    decreases |s| - r
  {
    var i := Find(s, r, pat);
    if i >= 0 {
      ReplacedHasNoNul(s, i + |pat|, pat, rep);
      NoNulPart(s, r, i);
      NoNulTogether(s[r..i], rep);
      NoNulTogether(s[r..i] + rep, Replaced(s, i + |pat|, pat, rep));
    } else {
      NoNulPart(s, r, |s|);
    }
  }

  /** From r on the buffer still holds the text and its terminator. */
  predicate SameFrom(c: seq<Byte>, text: seq<Byte>, r: nat)
  {
    |text| < |c| && c[|text|] == 0 && forall k | r <= k < |text| :: c[k] == text[k]
  }

  /** Searching the C string that starts at r in the buffer finds what searching the text finds. */
  lemma {:induction false} SearchIs(c: seq<Byte>, text: seq<Byte>, r: nat)
    requires NoNul(text) && r <= |text| && SameFrom(c, text, r)
    ensures 0 in c[r..] && UpToNul(c[r..]) == text[r..]
  {
    var n := |text| - r;
    assert c[r..][..n] == text[r..] && c[r..][n] == 0;
    FirstNul(c[r..], n);
  }

  lemma {:induction false} OccursInTail(s: seq<Byte>, r: nat, k: nat, pat: seq<Byte>)
    requires r <= k <= |s|
    ensures Occurs(s, k, pat) <==> Occurs(s[r..], k - r, pat)
  {
    var end := k + |pat|;
    if end <= |s| {
      SliceInTail(s, r, k, end);
    }
  }

  lemma {:induction false} SliceInTail(s: seq<Byte>, r: nat, k: nat, end: nat)
    requires r <= k <= end <= |s|
    ensures s[r..][k - r..end - r] == s[k..end]
  {
  }

  lemma {:induction false} FindInTail(s: seq<Byte>, r: nat, k: nat, pat: seq<Byte>)
    requires r <= k <= |s|
    ensures Find(s[r..], k - r, pat) == if Find(s, k, pat) < 0 then -1 else Find(s, k, pat) - r
    decreases |s| - k
  {
    OccursInTail(s, r, k, pat);
    if k < |s| {
      FindInTail(s, r, k + 1, pat);
    }
  }

  /** One occurrence at i replaced: the characters between r and i moved to w, the replacement behind them. */
  lemma {:induction false} ReplacedNext(head: seq<Byte>, d: seq<Byte>, text: seq<Byte>, r: nat, i: nat, pat: seq<Byte>,
                                       rep: seq<Byte>, goal: seq<Byte>)
    requires pat != [] && r <= |text| && i == Find(text, r, pat)
    requires head + Replaced(text, r, pat, rep) == goal
    requires d == head + text[r..i] + rep
    ensures d + Replaced(text, i + |pat|, pat, rep) == goal
  {
    var rest := Replaced(text, i + |pat|, pat, rep);
    Arith.Associate(text[r..i], rep, rest);
    Arith.Associate(head, text[r..i], rep + rest);
    Arith.Associate(head, text[r..i], rep);
    Arith.Associate(head + text[r..i], rep, rest);
  }

  lemma {:induction false} SameFromEnd(c: seq<Byte>, d: seq<Byte>, text: seq<Byte>, r: nat, n: nat)
    requires r <= n <= |text| && SameFrom(c, text, r) && |d| == |c| && d[n..] == c[n..]
    ensures SameFrom(d, text, n)
  {
    forall k | n <= k <= |text|
      ensures d[k] == c[k]
    {
      assert d[k] == d[n..][k - n];
    }
  }

  lemma {:induction false} SameTail(c: seq<Byte>, d: seq<Byte>, m: nat, n: nat)
    requires m <= n <= |c| == |d| && c[m..] == d[m..]
    ensures c[n..] == d[n..]
  {
    assert c[n..] == c[m..][n - m..];
    assert d[n..] == d[m..][n - m..];
  }

  /** A buffer during replacement: w characters of the replaced text, and from r on still the original; `len` is
      the length field. */
  ghost predicate Replacing(c: seq<Byte>, len: int, text: seq<Byte>, pat: seq<Byte>, rep: seq<Byte>, goal: seq<Byte>,
                            r: nat, w: nat)
    requires pat != []
  {
    && w <= r <= |text| < |c| && len + (r - w) == |text|
    && SameFrom(c, text, r)
    && c[..w] + Replaced(text, r, pat, rep) == goal
  }

  lemma {:induction false} SamePart(c: seq<Byte>, text: seq<Byte>, r: nat, i: nat)
    requires r <= i <= |text| && SameFrom(c, text, r)
    ensures c[r..i] == text[r..i]
  {
  }

  /** After one more occurrence, the first from r on, has been replaced. */
  lemma {:induction false} ReplacingNext(c: seq<Byte>, d: seq<Byte>, len: int, text: seq<Byte>, pat: seq<Byte>,
                                         rep: seq<Byte>, goal: seq<Byte>, r: nat, w: nat, i: nat, r': nat, w': nat)
    requires pat != [] && |rep| <= |pat| && Replacing(c, len, text, pat, rep, goal, r, w) && i == Find(text, r, pat)
    requires r' == i + |pat| && w' == w + (i - r) + |rep|
    requires |d| == |c| && d[..w'] == c[..w] + c[r..i] + rep && d[r'..] == c[r'..]
    ensures Replacing(d, len + |rep| - |pat|, text, pat, rep, goal, r', w')
  {
    SamePart(c, text, r, i);
    SameFromEnd(c, d, text, r, r');
    ReplacedNext(c[..w], d[..w'], text, r, i, pat, rep, goal);
  }

  lemma {:induction false} RestWithNul(c: seq<Byte>, text: seq<Byte>, r: nat)
    requires r <= |text| && SameFrom(c, text, r)
    ensures c[r..|text| + 1] == text[r..] + [0] && 0 in c[r..]
  {
    assert c[r..][|text| - r] == 0;
  }

  /** Moving the rest down, with the terminator, completes the text, and the length field is right. */
  lemma {:induction false} ReplacingEnds(c: seq<Byte>, len: int, text: seq<Byte>, pat: seq<Byte>, rep: seq<Byte>,
                                         goal: seq<Byte>, r: nat, w: nat)
    requires pat != [] && Replacing(c, len, text, pat, rep, goal, r, w) && Find(text, r, pat) < 0
    ensures len == |goal| && Spliced(c, w, c[r..|text| + 1])[..|goal| + 1] == goal + [0]
  {
    RestWithNul(c, text, r);
    SplicedParts(c, w, c[r..|text| + 1]);
  }

  lemma {:induction false} SplicedTwice(c: seq<Byte>, w: nat, mid: seq<Byte>, rep: seq<Byte>, end: nat)
    requires w + |mid| + |rep| <= end <= |c|
    ensures var d := Spliced(Spliced(c, w, mid), w + |mid|, rep);
            d[..w + |mid| + |rep|] == c[..w] + mid + rep && d[end..] == c[end..]
  {
    var b := Spliced(c, w, mid);
    var d := Spliced(b, w + |mid|, rep);
    SplicedParts(c, w, mid);
    SplicedParts(b, w + |mid|, rep);
    SameTail(c, b, w + |mid|, end);
    SameTail(b, d, w + |mid| + |rep|, end);
  }
}
