/** Rows as the panel's data bus takes them: one 2-bit action per pixel, four per byte, with the two
    half-words of every 32-bit word exchanged because of the FIFO order of the bus. */
module RowFormat {
  import opened Bits
  import Lut

  type Row = seq<bv8>

  /** Where byte `b` of the pixel order ends up in a row; its own inverse. */
  function Place(b: nat): nat
  {
    4 * (b / 4) + (b % 4 + 2) % 4
  }

  /** The action the panel applies to pixel `p` when it gets this row. */
  function PanelField(row: Row, p: nat): bv8
    requires |row| % 4 == 0 && p < 4 * |row|
  {
    Field(row[Place(p / 4)], p % 4)
  }

  function ZeroRow(n: nat): (r: Row)
    ensures |r| == n
  {
    seq(n, i => 0)
  }

  // ----- 32-bit words of a buffer -----

  function WordOf(b0: bv8, b1: bv8, b2: bv8, b3: bv8): bv32
  {
    (b0 as bv32) | ((b1 as bv32) << 8) | ((b2 as bv32) << 16) | ((b3 as bv32) << 24)
  }

  function SwapHalves(w: bv32): bv32
  {
    (w >> 16) | ((w & 0xFFFF) << 16)
  }

  function ByteOf(w: bv32, n: nat): bv8
    requires n < 4
  {
    match n
    case 0 => (w & 0xFF) as bv8
    case 1 => ((w >> 8) & 0xFF) as bv8
    case 2 => ((w >> 16) & 0xFF) as bv8
    case 3 => ((w >> 24) & 0xFF) as bv8
  }

  lemma {:induction false} SwappedBytes(b0: bv8, b1: bv8, b2: bv8, b3: bv8)
    ensures var w := SwapHalves(WordOf(b0, b1, b2, b3));
      ByteOf(w, 0) == b2 && ByteOf(w, 1) == b3 && ByteOf(w, 2) == b0 && ByteOf(w, 3) == b1
  {
  }

  ghost predicate HoldsWord(s: Row, j: nat, w: bv32)
    requires 4 * j + 4 <= |s|
  {
    && s[4 * j] == ByteOf(w, 0) && s[4 * j + 1] == ByteOf(w, 1)
    && s[4 * j + 2] == ByteOf(w, 2) && s[4 * j + 3] == ByteOf(w, 3)
  }

  /** Store a word in little-endian byte order. */
  method StoreWord(row: array<bv8>, j: nat, w: bv32)
    requires 4 * j + 4 <= row.Length
    modifies row
    ensures HoldsWord(row[..], j, w)
    ensures forall b | 0 <= b < row.Length && !(4 * j <= b < 4 * j + 4) :: row[b] == old(row[b])
  {
    row[4 * j] := ByteOf(w, 0);
    row[4 * j + 1] := ByteOf(w, 1);
    row[4 * j + 2] := ByteOf(w, 2);
    row[4 * j + 3] := ByteOf(w, 3);
  }

  lemma {:induction false} PrefixExtends(s: Row, t: Row, j: nat, w: bv32)
    requires 4 * j + 4 <= |s| == |t| && s[..4 * j] == t[..4 * j]
    requires HoldsWord(s, j, w) && HoldsWord(t, j, w)
    ensures s[..4 * (j + 1)] == t[..4 * (j + 1)]
  {
    assert s[..4 * (j + 1)] == s[..4 * j] + [s[4 * j], s[4 * j + 1], s[4 * j + 2], s[4 * j + 3]];
    assert t[..4 * (j + 1)] == t[..4 * j] + [t[4 * j], t[4 * j + 1], t[4 * j + 2], t[4 * j + 3]];
  }

  /** Store the next word of a row that is being made equal to `target`. */
  method StoreNext(row: array<bv8>, j: nat, w: bv32, ghost target: Row)
    requires 4 * j + 4 <= row.Length == |target|
    requires row[..4 * j] == target[..4 * j] && HoldsWord(target, j, w)
    modifies row
    ensures row[..4 * (j + 1)] == target[..4 * (j + 1)]
    ensures row[4 * (j + 1)..] == old(row[4 * (j + 1)..])
  {
    ghost var now := row[..];
    StoreWord(row, j, w);
    assert row[..4 * j] == now[..4 * j];
    PrefixExtends(row[..], target, j, w);
  }

  // ----- The half-word permutation -----

  lemma {:induction false} PlaceInWord(b: nat, n: nat)
    requires n % 4 == 0 && b < n
    ensures Place(b) < n && Place(Place(b)) == b && Place(b) / 4 == b / 4
  {
    var j, q := b / 4, b % 4;
    assert Place(b) == 4 * j + (q + 2) % 4;
  }

  function Reordered(s: Row): (r: Row)
    requires |s| % 4 == 0
    ensures |r| == |s|
  {
    seq(|s|, b requires 0 <= b < |s| => (PlaceInWord(b, |s|); s[Place(b)]))
  }

  lemma {:induction false} ReorderIsInvolution(s: Row)
    requires |s| % 4 == 0
    ensures Reordered(Reordered(s)) == s
  {
    forall b | 0 <= b < |s| ensures Reordered(Reordered(s))[b] == s[b] {
      PlaceInWord(b, |s|);
    }
  }

  /** The panel sees the pixels of a reordered buffer in their natural order. */
  lemma {:induction false} ReorderedPixels(s: Row, p: nat)
    requires |s| % 4 == 0 && p < 4 * |s|
    ensures PanelField(Reordered(s), p) == Field(s[p / 4], p % 4)
  {
    PlaceInWord(p / 4, |s|);
  }

  method ReorderLineBuffer(row: array<bv8>)
    requires row.Length % 4 == 0
    modifies row
    ensures row[..] == Reordered(old(row[..]))
  {
    ghost var before := row[..];
    for j := 0 to row.Length / 4
      invariant row[..4 * j] == Reordered(before)[..4 * j] && row[4 * j..] == before[4 * j..]
    {
      WordUntouched(row[..], before, j);
      var val := WordOf(row[4 * j], row[4 * j + 1], row[4 * j + 2], row[4 * j + 3]);
      SwappedWord(before, j);
      ghost var now := row[..];
      StoreNext(row, j, SwapHalves(val), Reordered(before));
      assert row[4 * (j + 1)..] == now[4 * j..][4..];
    }
  }

  lemma {:induction false} WordUntouched(s: Row, before: Row, j: nat)
    requires 4 * j + 4 <= |s| == |before| && s[4 * j..] == before[4 * j..]
    ensures s[4 * j] == before[4 * j] && s[4 * j + 1] == before[4 * j + 1]
    ensures s[4 * j + 2] == before[4 * j + 2] && s[4 * j + 3] == before[4 * j + 3]
  {
    assert s[4 * j..][0] == before[4 * j..][0] && s[4 * j..][1] == before[4 * j..][1];
    assert s[4 * j..][2] == before[4 * j..][2] && s[4 * j..][3] == before[4 * j..][3];
  }

  lemma {:induction false} PlacesInWord(j: nat)
    ensures Place(4 * j) == 4 * j + 2 && Place(4 * j + 1) == 4 * j + 3
    ensures Place(4 * j + 2) == 4 * j && Place(4 * j + 3) == 4 * j + 1
  {
  }

  /** Reordering in numbers: the halves of each word change places. */
  lemma {:induction false} ReorderedBytes(s: Row, j: nat)
    requires |s| % 4 == 0 && 4 * j + 4 <= |s|
    ensures Reordered(s)[4 * j..4 * j + 4] == [s[4 * j + 2], s[4 * j + 3], s[4 * j], s[4 * j + 1]]
  {
    PlacesInWord(j);
  }

  lemma {:induction false} PlacesOfPixels(j: nat, n: nat)
    requires n < 4
    ensures Place((16 * j + n) / 4) == 4 * j + 2 && Place((16 * j + 4 + n) / 4) == 4 * j + 3
    ensures Place((16 * j + 8 + n) / 4) == 4 * j && Place((16 * j + 12 + n) / 4) == 4 * j + 1
    ensures (16 * j + n) % 4 == (16 * j + 4 + n) % 4 == (16 * j + 8 + n) % 4 == (16 * j + 12 + n) % 4 == n
  {
    PlacesInWord(j);
    assert (16 * j + n) / 4 == 4 * j && (16 * j + 4 + n) / 4 == 4 * j + 1;
    assert (16 * j + 8 + n) / 4 == 4 * j + 2 && (16 * j + 12 + n) / 4 == 4 * j + 3;
  }

  /** Where the panel finds its pixels, in numbers: of sixteen, the first four in the third byte of a word, the next
      four in the fourth, and so on. */
  lemma {:induction false} PanelFieldsInNumbers(row: Row, j: nat, n: nat)
    requires |row| % 4 == 0 && 4 * j + 4 <= |row| && n < 4
    ensures PanelField(row, 16 * j + n) == Field(row[4 * j + 2], n)
    ensures PanelField(row, 16 * j + 4 + n) == Field(row[4 * j + 3], n)
    ensures PanelField(row, 16 * j + 8 + n) == Field(row[4 * j], n)
    ensures PanelField(row, 16 * j + 12 + n) == Field(row[4 * j + 1], n)
  {
    PlacesOfPixels(j, n);
  }

  lemma {:induction false} SwappedWord(s: Row, j: nat)
    requires |s| % 4 == 0 && 4 * j + 4 <= |s|
    ensures HoldsWord(Reordered(s), j, SwapHalves(WordOf(s[4 * j], s[4 * j + 1], s[4 * j + 2], s[4 * j + 3])))
  {
    PlacesInWord(j);
    SwappedBytes(s[4 * j], s[4 * j + 1], s[4 * j + 2], s[4 * j + 3]);
  }

  // ----- 4 bits per pixel, through the table -----

  /** 16-bit word `w` of a line: four pixels, as a table index. */
  function IndexAt(line: seq<bv8>, w: nat): (idx: nat)
    requires 2 * w + 1 < |line|
    ensures idx < Lut.TABLE_SIZE
  {
    (line[2 * w] as nat) + 256 * (line[2 * w + 1] as nat)
  }

  /** The line with every four-pixel word replaced by its table entry. */
  function Mapped(line: seq<bv8>, lut: Lut.Table): (r: Row)
    requires |line| % 8 == 0 && |lut| == Lut.TABLE_SIZE
    ensures |r| == |line| / 2
  {
    seq(|line| / 2, w requires 0 <= w < |line| / 2 => lut[IndexAt(line, w)])
  }

  /** The row the bus gets for a 4 bits per pixel line: mapped through the table, then reordered. */
  function Input4bpp(line: seq<bv8>, lut: Lut.Table): (r: Row)
    requires |line| % 8 == 0 && |lut| == Lut.TABLE_SIZE
    ensures |r| == |line| / 2
  {
    Reordered(Mapped(line, lut))
  }

  /** A word put together from four table entries as the conversion loop does. */
  function Together(b0: bv8, b1: bv8, b2: bv8, b3: bv8): bv32
  {
    ((b0 as bv32) << 16) | ((b1 as bv32) << 24) | (b2 as bv32) | ((b3 as bv32) << 8)
  }

  /** Word `j` of the row, from its four table entries. */
  function InputWord(line: seq<bv8>, lut: Lut.Table, j: nat): bv32
    requires 8 * j + 8 <= |line| && |lut| == Lut.TABLE_SIZE
  {
    Together(lut[IndexAt(line, 4 * j)], lut[IndexAt(line, 4 * j + 1)],
             lut[IndexAt(line, 4 * j + 2)], lut[IndexAt(line, 4 * j + 3)])
  }

  lemma {:induction false} InputWordIs(line: seq<bv8>, lut: Lut.Table, j: nat)
    requires |line| % 8 == 0 && 8 * j + 8 <= |line| && |lut| == Lut.TABLE_SIZE
    ensures var m := Mapped(line, lut);
      InputWord(line, lut, j) == Together(m[4 * j], m[4 * j + 1], m[4 * j + 2], m[4 * j + 3])
  {
  }

  lemma {:induction false} InputWordBytes(line: seq<bv8>, lut: Lut.Table, j: nat)
    requires |line| % 8 == 0 && 8 * j + 8 <= |line| && |lut| == Lut.TABLE_SIZE
    ensures HoldsWord(Input4bpp(line, lut), j, InputWord(line, lut, j))
  {
    var m := Mapped(line, lut);
    SwappedWord(m, j);
    SameWord(m[4 * j], m[4 * j + 1], m[4 * j + 2], m[4 * j + 3]);
    InputWordIs(line, lut, j);
  }

  lemma {:induction false} SameWord(b0: bv8, b1: bv8, b2: bv8, b3: bv8)
    ensures SwapHalves(WordOf(b0, b1, b2, b3)) == Together(b0, b1, b2, b3)
  {
  }

  /** The conversion in numbers: a word of the row comes from sixteen pixels of the line, and the entries of the
      third and fourth group of four pixels come first. */
  lemma {:induction false} InputBytes(line: seq<bv8>, lut: Lut.Table, j: nat)
    requires |line| % 8 == 0 && 8 * j + 8 <= |line| && |lut| == 0x10000
    ensures Input4bpp(line, lut)[4 * j..4 * j + 4] ==
      [lut[line[8 * j + 4] as nat + 256 * (line[8 * j + 5] as nat)],
       lut[line[8 * j + 6] as nat + 256 * (line[8 * j + 7] as nat)],
       lut[line[8 * j] as nat + 256 * (line[8 * j + 1] as nat)],
       lut[line[8 * j + 2] as nat + 256 * (line[8 * j + 3] as nat)]]
  {
    ReorderedBytes(Mapped(line, lut), j);
    MappedWord(line, lut, j);
  }

  lemma {:induction false} MappedWord(line: seq<bv8>, lut: Lut.Table, j: nat)
    requires |line| % 8 == 0 && 8 * j + 8 <= |line| && |lut| == 0x10000
    ensures Mapped(line, lut)[4 * j] == lut[line[8 * j] as nat + 256 * (line[8 * j + 1] as nat)]
    ensures Mapped(line, lut)[4 * j + 1] == lut[line[8 * j + 2] as nat + 256 * (line[8 * j + 3] as nat)]
    ensures Mapped(line, lut)[4 * j + 2] == lut[line[8 * j + 4] as nat + 256 * (line[8 * j + 5] as nat)]
    ensures Mapped(line, lut)[4 * j + 3] == lut[line[8 * j + 6] as nat + 256 * (line[8 * j + 7] as nat)]
  {
  }

  /** Four 16-bit words of the line through the table. */
  method ConvertWord(line: seq<bv8>, j: nat, lut: array<bv8>) returns (pixel: bv32)
    requires 8 * j + 8 <= |line| && lut.Length == Lut.TABLE_SIZE
    ensures pixel == InputWord(line, lut[..], j)
  {
    var v1, v2 := IndexAt(line, 4 * j), IndexAt(line, 4 * j + 1);
    var v3, v4 := IndexAt(line, 4 * j + 2), IndexAt(line, 4 * j + 3);
    pixel := ((lut[v1] as bv32) << 16) | ((lut[v2] as bv32) << 24) | (lut[v3] as bv32) | ((lut[v4] as bv32) << 8);
  }

  method CalcInput4bpp(line: seq<bv8>, input: array<bv8>, lut: array<bv8>)
    requires |line| == 2 * input.Length && |line| % 8 == 0 && lut.Length == Lut.TABLE_SIZE && lut != input
    modifies input
    ensures input[..] == Input4bpp(line, lut[..])
  {
    ghost var table := lut[..];
    for j := 0 to input.Length / 4
      invariant lut[..] == table
      invariant input[..4 * j] == Input4bpp(line, table)[..4 * j]
    {
      var pixel := ConvertWord(line, j, lut);
      InputWordBytes(line, table, j);
      StoreNext(input, j, pixel, Input4bpp(line, table));
    }
  }

  /** The index nibbles are the line's pixels. */
  lemma {:induction false} IndexPixels(line: seq<bv8>, w: nat, n: nat)
    requires 2 * w + 1 < |line| && n < 4
    ensures IndexNibble(IndexAt(line, w), n) == NibbleAt(line, 4 * w + n) as nat
  {
    IndexNibbles(line[2 * w], line[2 * w + 1], n);
    NibblesOfWord(line, w, n);
  }

  lemma {:induction false} IndexNibbles(low: bv8, high: bv8, n: nat)
    requires n < 4
    ensures IndexNibble((low as nat) + 256 * (high as nat), n) == WordNibble(low, high, n) as nat
  {
    IndexDigits(low as nat, high as nat);
    if n < 2 {
      NibblesAsNumbers(low);
    } else {
      NibblesAsNumbers(high);
    }
  }

  lemma {:induction false} NibblesOfWord(line: seq<bv8>, w: nat, n: nat)
    requires 2 * w + 1 < |line| && n < 4
    ensures NibbleAt(line, 4 * w + n) == WordNibble(line[2 * w], line[2 * w + 1], n)
  {
    assert (4 * w + n) / 2 == (if n < 2 then 2 * w else 2 * w + 1) && (4 * w + n) % 2 == n % 2;
  }

  function WordNibble(low: bv8, high: bv8, n: nat): bv8
    requires n < 4
  {
    match n
    case 0 => low & 0x0F
    case 1 => low >> 4
    case 2 => high & 0x0F
    case 3 => high >> 4
  }

  lemma {:induction false} IndexDigits(low: nat, high: nat)
    requires low < 256 && high < 256
    ensures IndexNibble(low + 256 * high, 0) == low % 16 && IndexNibble(low + 256 * high, 1) == low / 16
    ensures IndexNibble(low + 256 * high, 2) == high % 16 && IndexNibble(low + 256 * high, 3) == high / 16
  {
    var idx := low + 256 * high;
    assert idx / 16 == low / 16 + 16 * high;
    assert idx / 256 == high;
    assert idx / 4096 == high / 16;
  }

  /** Pixel `p` of the panel gets the table's field for the grey value of pixel `p` of the line. */
  lemma {:induction false} InputPixels(line: seq<bv8>, lut: Lut.Table, p: nat)
    requires |line| % 8 == 0 && |lut| == Lut.TABLE_SIZE && p < 2 * |line|
    ensures PanelField(Input4bpp(line, lut), p) == Field(lut[IndexAt(line, p / 4)], p % 4)
    ensures IndexNibble(IndexAt(line, p / 4), p % 4) == NibbleAt(line, p) as nat
  {
    ReorderedPixels(Mapped(line, lut), p);
    IndexPixels(line, p / 4, p % 4);
  }
}
