/** The UTF-8 decoder of the font code against the encoding of RFC 3629, section 3. */
module Utf8 {
  // ----- The encoding -----

  /** Unicode scalar values other than the terminator. */
  predicate Scalar(c: bv32)
  {
    0 < c < 0x110000 && !(0xD800 <= c < 0xE000)
  }

  function Continuation(bits: bv32): (b: bv8)
    ensures b & 0xC0 == 0x80
  {
    0x80 | ((bits & 0x3F) as bv8)
  }

  function Encode(c: bv32): (bytes: seq<bv8>)
    requires Scalar(c)
    ensures 1 <= |bytes| <= 4
  {
    if c < 0x80 then [c as bv8]
    else if c < 0x800 then [0xC0 | ((c >> 6) as bv8), Continuation(c)]
    else if c < 0x10000 then [0xE0 | ((c >> 12) as bv8), Continuation(c >> 6), Continuation(c)]
    else [0xF0 | ((c >> 18) as bv8), Continuation(c >> 12), Continuation(c >> 6), Continuation(c)]
  }

  function EncodeAll(text: seq<bv32>): seq<bv8>
    requires Scalars(text)
  {
    if text == [] then [] else Encode(text[0]) + EncodeAll(text[1..])
  }

  // ----- The decoder -----

  /** A row of the decoding table: the bits that carry the code point, and what the others must be. */
  datatype Row = Row(mask: bv8, lead: bv8)

  function Table(i: nat): Row
    requires i <= 4
  {
    match i
    case 0 => Row(0x3F, 0x80)
    case 1 => Row(0x7F, 0x00)
    case 2 => Row(0x1F, 0xC0)
    case 3 => Row(0x0F, 0xE0)
    case _ => Row(0x07, 0xF0)
  }

  predicate Matches(ch: bv8, i: nat)
    requires i <= 4
  {
    ch & !Table(i).mask == Table(i).lead
  }

  /** A byte that can start an encoded code point. */
  predicate LeadByte(ch: bv8) { ch < 0x80 || 0xC0 <= ch < 0xF8 }

  /** The length a lead byte announces; 0 for a byte that continues a code point. */
  function LeadLength(ch: bv8): nat
  {
    if ch < 0x80 then 1 else if ch < 0xC0 then 0 else if ch < 0xE0 then 2 else if ch < 0xF0 then 3 else 4
  }

  lemma {:induction false} OnlyOneRowMatches(ch: bv8, i: nat)
    requires ch < 0xF8 && i <= 4
    ensures Matches(ch, i) <==> i == LeadLength(ch)
  {
    match i
    case 0 =>
    case 1 =>
    case 2 =>
    case 3 =>
    case _ =>
  }

  /** The table has a row for a byte, and only one, if and only if the byte is below 0xF8; for others the search
      would run past it, as the row of zeros behind the table matches nothing but a zero byte. */
  lemma {:induction false} SearchEnds(ch: bv8)
    ensures ch < 0xF8 <==> exists i: nat | i <= 4 :: Matches(ch, i)
    ensures forall i: nat, j: nat | i <= 4 && j <= 4 :: Matches(ch, i) && Matches(ch, j) ==> i == j
    ensures ch >= 0xF8 ==> ch & !0 != 0
  {
    if ch < 0xF8 {
      OnlyOneRowMatches(ch, LeadLength(ch));
      forall i: nat | i <= 4
        ensures Matches(ch, i) <==> i == LeadLength(ch)
      {
        OnlyOneRowMatches(ch, i);
      }
    } else {
      forall i: nat | i <= 4
        ensures !Matches(ch, i)
      {
        NoRowMatches(ch, i);
      }
    }
  }

  lemma {:induction false} NoRowMatches(ch: bv8, i: nat)
    requires ch >= 0xF8 && i <= 4
    ensures !Matches(ch, i)
  {
    match i
    case 0 =>
    case 1 =>
    case 2 =>
    case 3 =>
    case _ =>
  }

  /** Malformed lead bytes are the caller's fault: the table has no row for them. */
  method Utf8Len(ch: bv8) returns (len: nat)
    requires ch < 0xF8
    ensures len == LeadLength(ch)
  {
    len := 0;
    OnlyOneRowMatches(ch, 0);
    while !Matches(ch, len)
      invariant len <= LeadLength(ch)
      decreases 4 - len
    {
      OnlyOneRowMatches(ch, len);
      len := len + 1;
      OnlyOneRowMatches(ch, len);
    }
    OnlyOneRowMatches(ch, len);
  }

  /** The bits of a byte that carry the code point, moved to their place six at a time. */
  function Bits(b: bv8, row: nat, distance: nat): bv32
    requires row <= 4 && distance in {0, 6, 12, 18}
  {
    if distance == 0 then (b & Table(row).mask) as bv32 else Bits(b, row, distance - 6) << 6
  }

  /** The shift as the code makes it. */
  function Shifted(v: bv32, distance: nat): bv32
    requires distance in {0, 6, 12, 18}
  {
    match distance
    case 0 => v
    case 6 => v << 6
    case 12 => v << 12
    case _ => v << 18
  }

  lemma {:induction false} BitsBy0(b: bv8, row: nat)
    requires row <= 4
    ensures Bits(b, row, 0) == (b & Table(row).mask) as bv32
  {
  }

  lemma {:induction false} BitsBy6(b: bv8, row: nat)
    requires row <= 4
    ensures Bits(b, row, 6) == (b & Table(row).mask) as bv32 << 6
  {
    BitsBy0(b, row);
  }

  lemma {:induction false} BitsBy12(b: bv8, row: nat)
    requires row <= 4
    ensures Bits(b, row, 12) == (b & Table(row).mask) as bv32 << 12
  {
    BitsBy6(b, row);
  }

  lemma {:induction false} BitsBy18(b: bv8, row: nat)
    requires row <= 4
    ensures Bits(b, row, 18) == (b & Table(row).mask) as bv32 << 18
  {
    BitsBy12(b, row);
  }

  lemma {:induction false} BitsAre(b: bv8, row: nat, distance: nat)
    requires row <= 4 && distance in {0, 6, 12, 18}
    ensures Bits(b, row, distance) == Shifted((b & Table(row).mask) as bv32, distance)
  {
    match distance
    case 0 => BitsBy0(b, row);
    case 6 => BitsBy6(b, row);
    case 12 => BitsBy12(b, row);
    case _ => BitsBy18(b, row);
  }

  method TakeBits(b: bv8, row: nat, shift: nat) returns (r: bv32)
    requires row <= 4 && shift in {0, 6, 12, 18}
    ensures r == Bits(b, row, shift)
  {
    BitsAre(b, row, shift);
    r := Shifted((b & Table(row).mask) as bv32, shift);
  }

  /** What each byte of a sequence contributes. */
  function Parts(bytes: seq<bv8>): (parts: seq<bv32>)
    requires 1 <= |bytes| <= 4
    ensures |parts| == |bytes|
  {
    seq(|bytes|, i requires 0 <= i < |bytes| => PartAt(bytes, i))
  }

  /** The lead byte's own mask, then six bits of every other byte. */
  function PartAt(bytes: seq<bv8>, i: nat): bv32
    requires i < |bytes| <= 4
  {
    Bits(bytes[i], if i == 0 then |bytes| else 0, 6 * (|bytes| - 1 - i))
  }

  function Joined(parts: seq<bv32>, i: nat): bv32
    requires 1 <= i <= |parts|
  {
    if i == 1 then parts[0] else Joined(parts, i - 1) | parts[i - 1]
  }

  function Decoded(bytes: seq<bv8>): bv32
    requires 1 <= |bytes| <= 4
  {
    Joined(Parts(bytes), |bytes|)
  }

  /** A zero byte ends the text and is not passed. */
  method NextCp(text: seq<bv8>, pos: nat) returns (codep: bv32, next: nat)
    requires pos < |text| && LeadByte(text[pos]) && pos + LeadLength(text[pos]) <= |text|
    ensures text[pos] == 0 ==> codep == 0 && next == pos
    ensures text[pos] != 0 ==>
              var len := LeadLength(text[pos]);
              codep == Decoded(text[pos..pos + len]) && next == pos + len
  {
    if text[pos] == 0 {
      return 0, pos;
    }
    var bytes := Utf8Len(text[pos]);
    next := pos + bytes;
    codep := Accumulate(text[pos..next]);
  }

  /** The loop over the bytes of one code point. */
  method Accumulate(chr: seq<bv8>) returns (codep: bv32)
    requires 1 <= |chr| <= 4
    ensures codep == Decoded(chr)
  {
    var bytes := |chr|;
    var shift := 6 * (bytes - 1);
    ghost var parts := Parts(chr);
    codep := TakePart(chr, 0, bytes, shift);
    var i := 1;
    while i < bytes
      invariant 1 <= i <= bytes && shift == 6 * (bytes - i)
      invariant codep == Joined(parts, i)
    {
      shift := shift - 6;
      var bits := TakePart(chr, i, 0, shift);
      codep := codep | bits;
      i := i + 1;
    }
  }

  method TakePart(chr: seq<bv8>, i: nat, row: nat, shift: nat) returns (bits: bv32)
    requires i < |chr| <= 4 && row == (if i == 0 then |chr| else 0) && shift == 6 * (|chr| - 1 - i)
    ensures bits == Parts(chr)[i]
  {
    bits := TakeBits(chr[i], row, shift);
  }

  // ----- Decoding undoes encoding -----

  lemma {:induction false} EncodeLength(c: bv32)
    requires Scalar(c)
    ensures var bytes := Encode(c);
            bytes[0] != 0 && LeadByte(bytes[0]) && LeadLength(bytes[0]) == |bytes|
  {
  }

  lemma {:induction false} TwoJoin(c: bv32)
    requires c < 0x800
    ensures (((0xC0 | ((c >> 6) as bv8)) & 0x1F) as bv32 << 6) | (Continuation(c) & 0x3F) as bv32 == c
  {
  }

  lemma {:induction false} ThreeJoin(c: bv32)
    requires c < 0x10000
    ensures (((0xE0 | ((c >> 12) as bv8)) & 0x0F) as bv32 << 12) | ((Continuation(c >> 6) & 0x3F) as bv32 << 6)
            | (Continuation(c) & 0x3F) as bv32 == c
  {
  }

  lemma {:induction false} FourJoin(c: bv32)
    requires c < 0x110000
    ensures (((0xF0 | ((c >> 18) as bv8)) & 0x07) as bv32 << 18) | ((Continuation(c >> 12) & 0x3F) as bv32 << 12)
            | ((Continuation(c >> 6) & 0x3F) as bv32 << 6) | (Continuation(c) & 0x3F) as bv32 == c
  {
  }

  lemma {:induction false} Join2(p: seq<bv32>)
    requires |p| >= 2
    ensures Joined(p, 2) == p[0] | p[1]
  {
  }

  lemma {:induction false} Join3(p: seq<bv32>)
    requires |p| >= 3
    ensures Joined(p, 3) == p[0] | p[1] | p[2]
  {
    Join2(p);
    JoinMore(p, 3);
  }

  lemma {:induction false} Join4(p: seq<bv32>)
    requires |p| == 4
    ensures Joined(p, 4) == p[0] | p[1] | p[2] | p[3]
  {
    Join3(p);
    JoinMore(p, 4);
  }

  lemma {:induction false} JoinMore(p: seq<bv32>, i: nat)
    requires 1 < i <= |p|
    ensures Joined(p, i) == Joined(p, i - 1) | p[i - 1]
  {
  }

  lemma {:induction false} DecodedOne(b: seq<bv8>)
    requires |b| == 1
    ensures Decoded(b) == (b[0] & 0x7F) as bv32
  {
    BitsBy0(b[0], 1);
  }

  lemma {:induction false} DecodedTwo(b: seq<bv8>)
    requires |b| == 2
    ensures Decoded(b) == ((b[0] & 0x1F) as bv32 << 6) | (b[1] & 0x3F) as bv32
  {
    Join2(Parts(b));
    BitsBy6(b[0], 2);
    BitsBy0(b[1], 0);
  }

  lemma {:induction false} DecodedThree(b: seq<bv8>)
    requires |b| == 3
    ensures Decoded(b) == ((b[0] & 0x0F) as bv32 << 12) | ((b[1] & 0x3F) as bv32 << 6) | (b[2] & 0x3F) as bv32
  {
    Join3(Parts(b));
    BitsBy12(b[0], 3);
    BitsBy6(b[1], 0);
    BitsBy0(b[2], 0);
  }

  lemma {:induction false} DecodedFour(b: seq<bv8>)
    requires |b| == 4
    ensures Decoded(b) == ((b[0] & 0x07) as bv32 << 18) | ((b[1] & 0x3F) as bv32 << 12) | ((b[2] & 0x3F) as bv32 << 6)
                          | (b[3] & 0x3F) as bv32
  {
    Join4(Parts(b));
    BitsBy18(b[0], 4);
    BitsBy12(b[1], 0);
    BitsBy6(b[2], 0);
    BitsBy0(b[3], 0);
  }

  /** What the decoder makes of any bytes, in numbers: the bits of the first byte that its length leaves, then six of
      each further byte. */
  lemma {:induction false} DecodedInNumbers(b: seq<bv8>)
    requires 1 <= |b| <= 4
    ensures |b| == 1 ==> Decoded(b) == (b[0] & 0x7F) as bv32
    ensures |b| == 2 ==> Decoded(b) == ((b[0] & 0x1F) as bv32 << 6) | (b[1] & 0x3F) as bv32
    ensures |b| == 3 ==>
              Decoded(b) == ((b[0] & 0x0F) as bv32 << 12) | ((b[1] & 0x3F) as bv32 << 6) | (b[2] & 0x3F) as bv32
    ensures |b| == 4 ==>
              Decoded(b) == ((b[0] & 0x07) as bv32 << 18) | ((b[1] & 0x3F) as bv32 << 12) | ((b[2] & 0x3F) as bv32 << 6)
                            | (b[3] & 0x3F) as bv32
  {
    match |b|
    case 1 => DecodedOne(b);
    case 2 => DecodedTwo(b);
    case 3 => DecodedThree(b);
    case 4 => DecodedFour(b);
  }

  lemma {:induction false} DecodeOne(c: bv32, e: seq<bv8>)
    requires c < 0x80 && e == [c as bv8]
    ensures Decoded(e) == c
  {
    DecodedOne(e);
  }

  lemma {:induction false} DecodeTwo(c: bv32, e: seq<bv8>)
    requires c < 0x800 && e == [0xC0 | ((c >> 6) as bv8), Continuation(c)]
    ensures Decoded(e) == c
  {
    DecodedTwo(e);
    TwoJoin(c);
  }

  lemma {:induction false} DecodeThree(c: bv32, e: seq<bv8>)
    requires c < 0x10000 && e == [0xE0 | ((c >> 12) as bv8), Continuation(c >> 6), Continuation(c)]
    ensures Decoded(e) == c
  {
    DecodedThree(e);
    ThreeJoin(c);
  }

  lemma {:induction false} DecodeFour(c: bv32, e: seq<bv8>)
    requires c < 0x110000
    requires e == [0xF0 | ((c >> 18) as bv8), Continuation(c >> 12), Continuation(c >> 6), Continuation(c)]
    ensures Decoded(e) == c
  {
    DecodedFour(e);
    FourJoin(c);
  }

  /** Whatever its length, the bytes of one encoded code point give it back. */
  lemma {:induction false} DecodeEncode(c: bv32)
    requires Scalar(c)
    ensures Decoded(Encode(c)) == c
  {
    if c < 0x80 {
      DecodeOne(c, Encode(c));
    } else if c < 0x800 {
      DecodeTwo(c, Encode(c));
    } else if c < 0x10000 {
      DecodeThree(c, Encode(c));
    } else {
      DecodeFour(c, Encode(c));
    }
  }

  lemma {:induction false} FirstEncoded(text: seq<bv32>, pos: nat, bytes: seq<bv8>)
    requires text != [] && Scalars(text)
    requires pos <= |bytes| && bytes[pos..] == EncodeAll(text) + [0]
    ensures var len := |Encode(text[0])|;
            && pos + len < |bytes| && bytes[pos] == Encode(text[0])[0]
            && bytes[pos..pos + len] == Encode(text[0])
            && bytes[pos + len..] == EncodeAll(text[1..]) + [0]
  {
    FirstPart(Encode(text[0]), EncodeAll(text[1..]), pos, bytes);
  }

  lemma {:induction false} FirstPart(e: seq<bv8>, tail: seq<bv8>, pos: nat, bytes: seq<bv8>)
    requires e != [] && pos <= |bytes| && bytes[pos..] == (e + tail) + [0]
    ensures pos + |e| < |bytes| && bytes[pos] == e[0] && bytes[pos..pos + |e|] == e && bytes[pos + |e|..] == tail + [0]
  {
    var rest := bytes[pos..];
    assert rest[..|e|] == e && rest[|e|..] == tail + [0];
    assert bytes[pos..pos + |e|] == rest[..|e|];
    assert bytes[pos + |e|..] == rest[|e|..];
  }

  predicate Scalars(text: seq<bv32>)
  {
    forall i | 0 <= i < |text| :: Scalar(text[i])
  }

  /** The rest of the text, from the n-th code point on, starts at this byte. */
  ghost predicate StandsAt(text: seq<bv8>, pos: nat, points: seq<bv32>, n: nat)
    requires Scalars(points)
  {
    n <= |points| && pos <= |text| && text[pos..] == EncodeAll(points[n..]) + [0]
  }

  /** One call of the decoder: the next code point, or 0 at the end. */
  method Read(text: seq<bv8>, pos: nat, ghost points: seq<bv32>, ghost n: nat) returns (c: bv32, next: nat)
    requires Scalars(points) && StandsAt(text, pos, points, n)
    ensures n == |points| ==> c == 0 && next == pos
    ensures n < |points| ==>
      c == points[n] && c != 0 && next == pos + |Encode(c)| && StandsAt(text, next, points, n + 1)
  {
    ghost var rest := points[n..];
    if n < |points| {
      EncodeLength(rest[0]);
      DecodeEncode(rest[0]);
      FirstEncoded(rest, pos, text);
      assert rest[1..] == points[n + 1..];
    } else {
      assert text[pos..][0] == 0;
    }
    c, next := NextCp(text, pos);
  }

  /** The code points read so far, the one read last, and where the rest stands; 0 once all have been read. */
  ghost predicate ReadSoFar(text: seq<bv8>, pos: nat, points: seq<bv32>, read: seq<bv32>, c: bv32)
    requires Scalars(points)
  {
    && |read| <= |points| && read == points[..|read|]
    && (if |read| == |points| then c == 0
        else c == points[|read|] && c != 0 && StandsAt(text, pos, points, |read| + 1))
  }

  lemma {:induction false} ReadOneMore(points: seq<bv32>, read: seq<bv32>, c: bv32)
    requires |read| < |points| && read == points[..|read|] && c == points[|read|]
    ensures read + [c] == points[..|read| + 1]
  {
  }

  /** Reading to the terminator returns exactly the encoded text. */
  method ReadAll(text: seq<bv8>, ghost points: seq<bv32>) returns (read: seq<bv32>)
    requires Scalars(points) && text == EncodeAll(points) + [0]
    ensures read == points
  {
    read := [];
    assert text[0..] == text && points[0..] == points;
    var c: bv32, pos: nat := Read(text, 0, points, 0);
    while c != 0
      invariant ReadSoFar(text, pos, points, read, c)
      decreases |points| - |read|
    {
      ReadOneMore(points, read, c);
      read := read + [c];
      c, pos := Read(text, pos, points, |read|);
    }
  }
}
