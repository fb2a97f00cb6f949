/** The string class with its inline buffer for short texts: which text it denotes, and who owns what. */
module SmallString {
  import Arith
  import opened Bytes
  import opened ReplaceRight

  const SSO_SIZE := 11       // characters in the inline buffer, with the terminator
  const CAPACITY_MAX := 65535

  /** The C heap. A reallocated block always moves and any allocation may fail. */
  class Heap {
    ghost var live: set<array<Byte>>

    constructor ()
      ensures live == {}
    {
      live := {};
    }

    method Free(block: array<Byte>)
      requires block in live
      modifies this
      ensures live == old(live) - {block}
    {
      live := live - {block};
    }

    method Realloc(block: array?<Byte>, size: nat) returns (r: array?<Byte>)
      requires block != null ==> block in live && block.Length <= size
      modifies this
      ensures r == null ==> live == old(live)
      ensures r != null ==> fresh(r) && r.Length == size && live == old(live) - {block} + {r}
      ensures r != null && block != null ==> r[..block.Length] == block[..]
    {
      var fails: bool := *;
      if fails {
        return null;
      }
      r := new Byte[size];
      if block != null {
        forall i | 0 <= i < block.Length {
          r[i] := block[i];
        }
      }
      live := live - {block} + {r};
    }
  }

  class String {
    const heap: Heap
    // The two members of the union share their storage: only the one `sso` selects means anything.
    var sso: bool
    var inline: seq<Byte>
    var inlineLen: nat
    var block: array?<Byte>
    var cap: nat
    var blockLen: nat

    // ----- What it denotes -----

    function Len(): nat
      reads this
    {
      if sso then inlineLen else blockLen
    }

    function Capacity(): nat
      reads this
    {
      if sso then SSO_SIZE - 1 else cap
    }

    predicate HasBuffer()
      reads this
    {
      sso || block != null
    }

    /** A request for n characters needs nothing from the heap. */
    predicate Room(n: nat)
      reads this
    {
      (HasBuffer() && Capacity() >= n) || n < SSO_SIZE - 1
    }

    /** Whether the characters are inline once a request for n of them has been met. */
    predicate MeetsInline(n: nat)
      reads this
    {
      if HasBuffer() && Capacity() >= n then sso else n < SSO_SIZE - 1
    }

    /** The heap blocks this string owns. */
    ghost function Owned(): set<array<Byte>>
      reads this
    {
      if sso || block == null then {} else {block}
    }

    /** The whole buffer. */
    function Chars(): seq<Byte>
      reads this, Owned()
    {
      if sso then inline else if block != null then block[..] else []
    }

    /** Every size is as it should be; only the terminator may still be missing. */
    ghost predicate Shaped()
      reads this, heap, Owned()
    {
      && (sso ==> |inline| == SSO_SIZE && inlineLen < SSO_SIZE)
      && (!sso && block != null ==>
            && block in heap.live
            && SSO_SIZE - 1 < cap < CAPACITY_MAX && block.Length == cap + 1
            && blockLen <= cap)
      && (!sso && block == null ==> cap == 0 && blockLen == 0)
    }

    ghost predicate Valid()
      reads this, heap, Owned()
    {
      Shaped() && (HasBuffer() ==> Chars()[Len()] == 0)
    }

    /** The text the string denotes; nothing for a string without a buffer. */
    ghost function Text(): seq<Byte>
      requires Shaped()
      reads this, heap, Owned()
    {
      if HasBuffer() then Chars()[..Len()] else []
    }

    lemma {:induction false} Denotes(text: seq<Byte>)
      requires Shaped() && HasBuffer() && Len() == |text| && Chars()[..|text| + 1] == text + [0]
      ensures Valid() && Text() == text
    {
      assert Chars()[..|text| + 1][..|text|] == text && Chars()[..|text| + 1][|text|] == 0;
    }

    // ----- Storage -----

    constructor (heap: Heap)
      ensures this.heap == heap && Valid() && !HasBuffer()
    {
      this.heap := heap;
      sso, block, cap, blockLen := false, null, 0, 0;
      inline, inlineLen := [], 0;
    }

    static method Garbage(n: nat) returns (bytes: seq<Byte>)
      ensures |bytes| == n
    {
      bytes := [];
      while |bytes| < n
        invariant |bytes| <= n
      {
        var b: Byte := *;
        bytes := bytes + [b];
      }
    }

    /** Flips the tag; the newly selected member of the union then holds arbitrary bytes. */
    method SetSSO(on: bool)
      modifies this
      ensures sso == on
      ensures on == old(sso) ==>
                inline == old(inline) && inlineLen == old(inlineLen)
                && block == old(block) && cap == old(cap) && blockLen == old(blockLen)
      ensures on && !old(sso) ==> |inline| == SSO_SIZE
    {
      if on != sso {
        inline := Garbage(SSO_SIZE);
        inlineLen, block, cap, blockLen := *, *, *, *;
      }
      sso := on;
    }

    method SetLen(n: nat)
      modifies `inlineLen, `blockLen
      ensures Len() == n
    {
      if sso {
        inlineLen := n;
      } else {
        blockLen := n;
      }
    }

    /** memmove into the buffer. */
    method Store(at: nat, bytes: seq<Byte>)
      requires HasBuffer() && at + |bytes| <= |Chars()|
      modifies `inline, Owned()
      ensures Chars() == Spliced(old(Chars()), at, bytes)
    {
      SplicedIs(Chars(), at, bytes);
      if sso {
        inline := inline[..at] + bytes + inline[at + |bytes|..];
      } else {
        ghost var before := block[..];
        forall i | 0 <= i < |bytes| {
          block[at + i] := bytes[i];
        }
        assert block[..] == before[..at] + bytes + before[at + |bytes|..];
      }
    }

    method Invalidate()
      requires Shaped()
      modifies this, heap
      ensures Valid() && !HasBuffer()
      ensures heap.live == old(heap.live - Owned())
    {
      if !sso && block != null {
        heap.Free(block);
      }
      SetSSO(false);
      cap, blockLen, block := 0, 0, null;
    }

    /** A heap block of the given size that starts with what the buffer holds; the old block is gone. */
    method Moved(newSize: nat) returns (newBlock: array?<Byte>)
      requires Shaped() && newSize > Capacity() && newSize >= SSO_SIZE
      modifies heap
      ensures newBlock == null ==> heap.live == old(heap.live)
      ensures newBlock != null ==>
                && fresh(newBlock) && newBlock.Length == newSize && newBlock[..|Chars()|] == Chars()
                && heap.live == old(heap.live - Owned()) + {newBlock}
    {
      newBlock := heap.Realloc(if sso then null else block, newSize);
      if newBlock == null {
        return;
      }
      if sso {
        forall i | 0 <= i < SSO_SIZE {
          newBlock[i] := inline[i];
        }
      }
      var oldSize := Capacity() + 1;
      forall i | oldSize <= i < newSize {
        newBlock[i] := 0;
      }
      assert newBlock[..|Chars()|] == Chars();
    }

    /** Gets a buffer for `size` characters, inline if that is enough, else on the heap. */
    method ChangeBuffer(size: nat) returns (ok: bool)
      requires Valid() && size + 16 < 0x1_0000_0000
      requires HasBuffer() ==> Capacity() < size
      modifies this, heap
      ensures ok ==> Shaped() && HasBuffer() && Capacity() >= size && Len() == old(Len())
      ensures ok && old(HasBuffer()) ==> Valid() && Text() == old(Text())
      ensures !ok ==> unchanged(this) && heap.live == old(heap.live)
      ensures Owned() == old(Owned()) || fresh(Owned())
      ensures heap.live - Owned() == old(heap.live - Owned())
      ensures size < 10 ==> ok
      ensures size >= 65520 ==> !ok
      ensures ok ==> (sso <==> size < 10) && Capacity() == if size < 10 then 10 else (size + 16) / 16 * 16 - 1
    {
      if size < SSO_SIZE - 1 {
        if sso || block == null {
          var oldLen := Len();
          SetSSO(true);
          SetLen(oldLen);
          return true;
        }
        assert false; // a heap buffer is never that small
      }
      var newSize := (size + 16) / 16 * 16;
      if newSize > CAPACITY_MAX {
        return false;
      }
      var oldLen := Len();
      var newBlock := Moved(newSize);
      if newBlock == null {
        return false;
      }
      ghost var oldChars := Chars();
      SetSSO(false);
      cap := newSize - 1;
      SetLen(oldLen);
      block := newBlock;
      assert oldChars != [] ==> oldChars[..oldLen] == Chars()[..oldLen] && oldChars[oldLen] == Chars()[oldLen];
      ok := true;
    }

    /** A reservation never changes the text, whether it succeeds or not. */
    method Reserve(size: nat) returns (ok: bool)
      requires Valid() && size + 16 < 0x1_0000_0000
      modifies this, heap
      ensures Valid() && Text() == old(Text()) && Len() == old(Len())
      ensures ok ==> HasBuffer() && Capacity() >= size
      ensures !ok ==> unchanged(this) && heap.live == old(heap.live)
      ensures Owned() == old(Owned()) || fresh(Owned())
      ensures heap.live - Owned() == old(heap.live - Owned())
      ensures old(Room(size)) ==> ok
      ensures ok ==> sso == old(MeetsInline(size))
      ensures size >= 65520 && !old(Room(size)) ==> !ok
    {
      if HasBuffer() && Capacity() >= size {
        return true;
      }
      ok := ChangeBuffer(size);
      if ok && Len() == 0 {
        Store(0, [0]);
      }
    }

    /** Writes a whole text with its terminator. */
    method SetText(text: seq<Byte>)
      requires Shaped() && HasBuffer() && |text| <= Capacity()
      modifies `inline, `inlineLen, `blockLen, Owned()
      ensures Valid() && HasBuffer() && Text() == text && Owned() == old(Owned())
    {
      SetLen(|text|);
      SplicedParts(Chars(), 0, text + [0]);
      Store(0, text + [0]);
      Denotes(text);
    }

    /** Writes the terminator where the length field says. */
    method Terminate()
      requires Shaped() && HasBuffer()
      modifies `inline, Owned()
      ensures Valid() && HasBuffer() && Text() == old(Text()) && Owned() == old(Owned())
    {
      ghost var before, text := Chars(), Text();
      SplicedParts(before, Len(), [0]);
      Store(Len(), [0]);
      Denotes(text);
    }

    // ----- Copying and moving -----

    method Copy(text: seq<Byte>) returns (ok: bool)
      requires Valid() && |text| + 16 < 0x1_0000_0000
      modifies this, heap, Owned()
      ensures Valid()
      ensures Owned() == old(Owned()) || fresh(Owned())
      ensures if ok then HasBuffer() && Text() == text else !HasBuffer()
      ensures heap.live - Owned() == old(heap.live - Owned())
      ensures old(Room(|text|)) ==> ok
      ensures ok ==> sso == old(MeetsInline(|text|))
      ensures |text| >= 65520 && !old(Room(|text|)) ==> !ok
    {
      ok := Reserve(|text|);
      if !ok {
        Invalidate();
        return;
      }
      SetText(text);
    }

    /** Assigning a C string to an inline string: the inline buffer takes 10 characters. */
    method CopyToInline(text: seq<Byte>)
      requires Valid() && sso && |text| <= 10
      modifies this, heap
      ensures Valid() && sso && Text() == text && heap.live == old(heap.live)
    {
      var done := Copy(text);
      assert heap.live == heap.live - Owned();
    }

    /** A new string made from a C string: it has no buffer yet, so 10 characters already go to the heap. */
    static method FromText(heap: Heap, text: seq<Byte>) returns (out: String)
      requires |text| + 16 < 0x1_0000_0000
      modifies heap
      ensures fresh(out) && out.heap == heap && out.Valid() && fresh(out.Owned())
      ensures out.HasBuffer() ==> out.Text() == text && (out.sso <==> |text| < 10)
      ensures |text| < 10 ==> out.HasBuffer()
      ensures heap.live - out.Owned() == old(heap.live)
    {
      out := new String(heap);
      var done := out.Copy(text);
    }

    /** Two strings of the same heap that own different blocks. */
    ghost predicate Apart(other: String)
      reads this, other
    {
      this != other && heap == other.heap && Owned() !! other.Owned()
    }

    /** A change to this string and its blocks leaves a string apart from it as it was. */
    twostate lemma {:induction false} OtherKept(other: String)
      requires heap == other.heap && old(other.Valid()) && old(Apart(other))
      requires unchanged(other) && other.Chars() == old(other.Chars())
      requires heap.live - Owned() == old(heap.live - Owned())
      requires Owned() == old(Owned()) || fresh(Owned())
      ensures other.Valid() && other.Text() == old(other.Text()) && Apart(other)
    {
      forall b | b in other.Owned()
        ensures b in heap.live && b !in Owned()
      {
        assert b in old(heap.live - Owned());
      }
    }

    method Assign(rhs: String) returns (ok: bool)
      requires Valid() && rhs.Valid() && (this == rhs || Apart(rhs))
      modifies this, heap, Owned()
      ensures Valid() && rhs.Valid() && (this == rhs || Apart(rhs))
      ensures rhs.HasBuffer() == old(rhs.HasBuffer()) && rhs.Text() == old(rhs.Text())
      ensures if ok then HasBuffer() == rhs.HasBuffer() && Text() == rhs.Text() else !HasBuffer()
      ensures heap.live - Owned() == old(heap.live - Owned())
      ensures this == rhs || !old(rhs.HasBuffer()) || old(Room(rhs.Len())) ==> ok
      ensures ok && this != rhs && rhs.HasBuffer() ==> sso == old(MeetsInline(rhs.Len()))
    {
      ok := true;
      if this == rhs {
        return;
      }
      if rhs.HasBuffer() {
        ok := Copy(rhs.Chars()[..rhs.Len()]);
        OtherKept(rhs);
      } else {
        Invalidate();
        OtherKept(rhs);
      }
    }

    /** Takes over the other string's block or inline characters; the other string is left without a buffer.
        With a buffer here and none there the code would read through a null pointer. */
    method Move(rhs: String)
      requires Valid() && rhs.Valid() && Apart(rhs)
      requires HasBuffer() ==> rhs.HasBuffer()
      modifies this, rhs, heap, Owned()
      ensures Valid() && HasBuffer() == old(rhs.HasBuffer()) && Text() == old(rhs.Text())
      ensures rhs.Valid() && !rhs.HasBuffer() && Apart(rhs)
      ensures Owned() == old(Owned()) || Owned() == old(rhs.Owned())
      ensures heap.live - Owned() == old(heap.live - Owned() - rhs.Owned())
    {
      if HasBuffer() {
        if Capacity() >= rhs.Len() {
          MoveInto(rhs);
          return;
        } else {
          if !sso {
            heap.Free(block);
            block := null;
          }
        }
      }
      TakeOver(rhs);
    }

    /** The move when the other text fits here. */
    method MoveInto(rhs: String)
      requires Valid() && rhs.Valid() && Apart(rhs) && HasBuffer() && rhs.HasBuffer() && Capacity() >= rhs.Len()
      modifies this, rhs, heap, Owned()
      ensures Valid() && HasBuffer() && Text() == old(rhs.Text()) && Owned() == old(Owned())
      ensures rhs.Valid() && !rhs.HasBuffer()
      ensures heap.live == old(heap.live - rhs.Owned())
    {
      SetText(rhs.Chars()[..rhs.Len()]);
      rhs.Invalidate();
    }

    /** The rest of the move, once this string owns nothing any more. */
    method TakeOver(rhs: String)
      requires this != rhs && heap == rhs.heap && rhs.Valid() && Owned() == {} && (sso ==> !rhs.sso)
      modifies this, rhs
      ensures Valid() && HasBuffer() == old(rhs.HasBuffer()) && Text() == old(rhs.Text())
      ensures rhs.Valid() && !rhs.HasBuffer()
      ensures Owned() == old(rhs.Owned())
    {
      if rhs.sso {
        SetSSO(true);
        inline := rhs.inline;
      } else {
        SetSSO(false);
        block := rhs.block;
      }
      if !sso {
        cap := rhs.Capacity();
      }
      SetLen(rhs.Len());
      rhs.SetSSO(false);
      rhs.cap, rhs.blockLen, rhs.block := 0, 0, null;
    }

    // ----- Appending -----

    method ConcatSelf() returns (ok: bool)
      requires Valid()
      modifies this, heap, Owned()
      ensures Valid() && HasBuffer() == old(HasBuffer())
      ensures Text() == if ok then old(Text()) + old(Text()) else old(Text())
      ensures Owned() == old(Owned()) || fresh(Owned())
      ensures heap.live - Owned() == old(heap.live - Owned())
      ensures old(HasBuffer()) && (old(Len()) == 0 || old(Room(2 * Len()))) ==> ok
      ensures !old(HasBuffer()) ==> !ok
    {
      var newLen := 2 * Len();
      if !HasBuffer() {
        return false;
      }
      if Len() == 0 {
        return true;
      }
      ok := Reserve(newLen);
      if !ok {
        return;
      }
      Double();
    }

    method Double()
      requires Valid() && HasBuffer() && 2 * Len() <= Capacity()
      modifies this, Owned()
      ensures Valid() && HasBuffer() && Text() == old(Text()) + old(Text()) && Owned() == old(Owned())
    {
      var newLen := 2 * Len();
      SplicedParts(Chars(), Len(), Chars()[..Len()]);
      Store(Len(), Chars()[..Len()]);
      SetLen(newLen);
      Terminate();
    }

    /** The copying at the end of concat, into a buffer that is large enough. */
    method Append(more: seq<Byte>)
      requires Valid() && HasBuffer() && Len() + |more| <= Capacity()
      modifies this, Owned()
      ensures Valid() && HasBuffer() && Text() == old(Text()) + more && Owned() == old(Owned())
    {
      SplicedParts(Chars(), Len(), more + [0]);
      var newLen := Len() + |more|;
      Store(Len(), more + [0]);
      SetLen(newLen);
    }

    /** Reserving room here leaves a string apart from this one as it was. */
    method ReserveBeside(s: String, size: nat) returns (ok: bool)
      requires Valid() && s.Valid() && Apart(s) && size + 16 < 0x1_0000_0000
      modifies this, heap
      ensures Valid() && Text() == old(Text()) && Len() == old(Len())
      ensures s.Valid() && Apart(s) && s.Text() == old(s.Text())
      ensures ok ==> HasBuffer() && Capacity() >= size
      ensures !ok ==> HasBuffer() == old(HasBuffer())
      ensures Owned() == old(Owned()) || fresh(Owned())
      ensures heap.live - Owned() == old(heap.live - Owned())
      ensures old(Room(size)) ==> ok
    {
      ok := Reserve(size);
      OtherKept(s);
    }

    /** Appends another string's characters, into a buffer that is large enough. */
    method AppendFrom(s: String)
      requires Valid() && s.Valid() && Apart(s) && HasBuffer() && s.HasBuffer() && Len() + s.Len() <= Capacity()
      modifies this, Owned()
      ensures Valid() && HasBuffer() && Text() == old(Text()) + old(s.Text()) && Owned() == old(Owned())
      ensures s.Valid() && Apart(s) && s.Text() == old(s.Text())
    {
      Append(s.Chars()[..s.Len()]);
      OtherKept(s);
    }

    method ConcatOther(s: String) returns (ok: bool)
      requires Valid() && s.Valid() && Apart(s)
      modifies this, heap, Owned()
      ensures Valid() && s.Valid() && Apart(s)
      ensures s.HasBuffer() == old(s.HasBuffer()) && s.Text() == old(s.Text())
      ensures ok ==> Text() == old(Text()) + s.Text() && s.HasBuffer()
      ensures !ok ==> HasBuffer() == old(HasBuffer()) && Text() == old(Text())
      ensures heap.live - Owned() == old(heap.live - Owned())
      ensures s.HasBuffer() && (old(s.Len()) == 0 || old(Room(Len() + s.Len()))) ==> ok
    {
      var newLen := Len() + s.Len();
      if !s.HasBuffer() {
        return false;
      }
      if s.Len() == 0 {
        return true;
      }
      ok := ReserveBeside(s, newLen);
      if !ok {
        return;
      }
      AppendFrom(s);
    }

    /** Appends a string, which may be this one; on failure nothing changes. */
    method Concat(s: String) returns (ok: bool)
      requires Valid() && s.Valid() && (this == s || Apart(s))
      modifies this, heap, Owned()
      ensures Valid() && s.Valid() && (this == s || Apart(s))
      ensures Text() == if ok then old(Text()) + old(s.Text()) else old(Text())
      ensures this != s ==> s.Text() == old(s.Text())
      ensures heap.live - Owned() == old(heap.live - Owned())
      ensures old(s.HasBuffer()) && (old(s.Len()) == 0 || old(Room(Len() + s.Len()))) ==> ok
      ensures !old(s.HasBuffer()) ==> !ok
    {
      if s == this {
        ok := ConcatSelf();
      } else {
        ok := ConcatOther(s);
      }
    }

    // ----- Parts -----

    static method Empty(heap: Heap) returns (out: String)
      modifies heap
      ensures fresh(out) && out.heap == heap && out.Valid() && out.sso && out.Text() == []
      ensures heap.live == old(heap.live)
    {
      out := FromText(heap, []);
    }

    /** The text between two positions in either order, as a new string. Copying stops at a NUL. */
    method Substring(left0: nat, right0: nat) returns (out: String)
      requires Valid()
      modifies this, heap, Owned()
      ensures Valid() && HasBuffer() == old(HasBuffer()) && Text() == old(Text()) && Owned() == old(Owned())
      ensures fresh(out) && fresh(out.Owned()) && out.heap == heap && out.Valid()
      ensures out.HasBuffer() ==> out.Text() == Between(Text(), left0, right0)
      ensures |Between(Text(), left0, right0)| <= 10 ==> out.HasBuffer()
      ensures heap.live - out.Owned() == old(heap.live)
    {
      var left, right := left0, right0;
      if left > right {
        left, right := right, left;
      }
      ghost var part := Between(Text(), left0, right0);
      BetweenIs(Text(), left0, right0, left, right);
      out := Empty(heap);
      if left >= Len() {
        return;
      }
      if right > Len() {
        right := Len();
      }
      CopyPart(out, left, right, part);
    }

    method SwapChar(at: nat, c: Byte) returns (was: Byte)
      requires Shaped() && HasBuffer() && at <= Len()
      modifies `inline, Owned()
      ensures Chars() == old(Chars()[at := c]) && was == old(Chars()[at]) && Shaped()
    {
      was := Chars()[at];
      Store(at, [c]);
      SplicedIs(old(Chars()), at, [c]);
    }

    /** Puts a terminator behind the part, copies, and puts the character back. */
    method CopyPart(out: String, left: nat, right: nat, ghost part: seq<Byte>)
      requires Valid() && out.Valid() && out.Apart(this) && left <= right <= Len() && left < Len()
      requires part == UpToNul(Text()[left..right])
      modifies this, heap, Owned(), out, out.Owned()
      ensures Valid() && HasBuffer() == old(HasBuffer()) && Text() == old(Text()) && Owned() == old(Owned())
      ensures out.Valid() && (out.HasBuffer() ==> out.Text() == part) && (old(out.Room(|part|)) ==> out.HasBuffer())
      ensures out.Owned() == old(out.Owned()) || fresh(out.Owned())
      ensures heap.live - out.Owned() == old(heap.live - out.Owned())
    {
      ghost var before := Chars();
      PartOfPrefix(before, Len(), left, right);
      var temp := CopyCut(out, left, right, part);
      PutBack(out, right, temp, before);
    }

    /** Puts a borrowed character back. */
    method PutBack(out: String, at: nat, c: Byte, ghost before: seq<Byte>)
      requires Valid() && HasBuffer() && out.Valid() && out.Apart(this) && at <= Len()
      requires |before| == |Chars()| && before[Len()] == 0 && before[at] == c && Chars() == before[at := 0]
      modifies `inline, Owned()
      ensures Valid() && HasBuffer() && Chars() == before
      ensures out.Valid() && out.Text() == old(out.Text())
    {
      var was := SwapChar(at, c);
      assert before[at := 0][at := c] == before;
      OtherKept(out);
    }

    /** Copies the C string from `left` to the terminator that stands for the character at `right`. */
    method CopyCut(out: String, left: nat, right: nat, ghost part: seq<Byte>) returns (temp: Byte)
      requires Valid() && out.Valid() && out.Apart(this) && left <= right <= Len() && left < Len()
      requires part == UpToNul(Chars()[left..right])
      modifies this, heap, Owned(), out, out.Owned()
      ensures Valid() && HasBuffer() && Owned() == old(Owned()) && Apart(out) && Len() == old(Len())
      ensures Chars() == old(Chars()[right := 0]) && temp == old(Chars()[right])
      ensures out.Valid() && (out.HasBuffer() ==> out.Text() == part) && (old(out.Room(|part|)) ==> out.HasBuffer())
      ensures out.Owned() == old(out.Owned()) || fresh(out.Owned())
      ensures heap.live - out.Owned() == old(heap.live - out.Owned())
    {
      CutOffPart(Chars(), left, right);
      temp := SwapChar(right, 0);
      CopyTail(out, left, part);
    }

    /** Copies the C string that starts inside the buffer. */
    method CopyTail(out: String, left: nat, ghost part: seq<Byte>)
      requires Valid() && HasBuffer() && out.Valid() && out.Apart(this) && left <= Len()
      requires part == UpToNul(Chars()[left..])
      modifies heap, out, out.Owned()
      ensures Valid() && Owned() == old(Owned()) && Chars() == old(Chars()) && out.Apart(this)
      ensures out.Valid() && (out.HasBuffer() ==> out.Text() == part) && (old(out.Room(|part|)) ==> out.HasBuffer())
      ensures out.Owned() == old(out.Owned()) || fresh(out.Owned())
      ensures heap.live - out.Owned() == old(heap.live - out.Owned())
    {
      var text := RestText(left, part);
      var done := out.Copy(text);
      out.OtherKept(this);
    }

    /** The C string that starts inside the buffer. */
    method RestText(left: nat, ghost part: seq<Byte>) returns (text: seq<Byte>)
      requires Valid() && HasBuffer() && left <= Len() && part == UpToNul(Chars()[left..])
      ensures text == part && |text| <= Len()
    {
      var rest := Chars()[left..];
      assert rest[Len() - left] == 0;
      var n := StrLen(rest);
      text := rest[..n];
      NulAhead(rest, Len() - left);
    }

    static function Removed(text: seq<Byte>, index: nat, count: nat): seq<Byte>
    {
      if index >= |text| then text
      else text[..index] + text[if index + count < |text| then index + count else |text|..]
    }

    method Remove(index: nat, count0: nat)
      requires Valid()
      modifies this, Owned()
      ensures Valid() && HasBuffer() == old(HasBuffer()) && Owned() == old(Owned())
      ensures Text() == Removed(old(Text()), index, count0)
      ensures index >= |old(Text())| ==> Text() == old(Text())
      ensures index < |old(Text())| ==>
                var gone := if count0 < |old(Text())| - index then count0 else |old(Text())| - index;
                && |Text()| == |old(Text())| - gone
                && forall i | 0 <= i < |Text()| :: Text()[i] == old(Text())[if i < index then i else i + gone]
    {
      RemovedInNumbers(Text(), index, count0);
      if index >= Len() {
        return;
      }
      if count0 <= 0 {
        return;
      }
      var count := if count0 > Len() - index then Len() - index else count0;
      ghost var text := Text();
      assert Removed(text, index, count0) == text[..index] + text[index + count..];
      CloseGap(index, count);
    }

    /** The characters before the range stay, and those behind it move down by its length, clamped to the text. */
    static lemma {:induction false} RemovedInNumbers(text: seq<Byte>, index: nat, count: nat)
      ensures index >= |text| ==> Removed(text, index, count) == text
      ensures index < |text| ==>
                var gone := if count < |text| - index then count else |text| - index;
                && |Removed(text, index, count)| == |text| - gone
                && forall i | 0 <= i < |text| - gone ::
                     Removed(text, index, count)[i] == text[if i < index then i else i + gone]
    {
    }

    method CloseGap(index: nat, count: nat)
      requires Valid() && HasBuffer() && index + count <= Len()
      modifies this, Owned()
      ensures Valid() && HasBuffer() && Owned() == old(Owned())
      ensures Text() == old(Text()[..index] + Text()[index + count..])
    {
      AroundGap(Chars(), Len(), index, count);
      MoveDown(index, count);
      Terminate();
    }

    /** Moves what follows the gap down over it. */
    method MoveDown(index: nat, count: nat)
      requires Shaped() && HasBuffer() && index + count <= Len()
      modifies this, Owned()
      ensures Shaped() && HasBuffer() && Owned() == old(Owned()) && Len() == old(Len()) - count
      ensures Text() == old(Chars()[..index] + Chars()[index + count..Len()])
    {
      var newLen := Len() - count;
      var rest := Chars()[index + count..Len()];
      ghost var before := Chars();
      SplicedParts(before, index, rest);
      SetLen(newLen);
      Store(index, rest);
      assert Chars()[..newLen] == before[..index] + rest;
    }

    // ----- Trimming -----

    method Trim()
      requires Valid()
      modifies this, Owned()
      ensures Valid() && HasBuffer() == old(HasBuffer()) && Owned() == old(Owned())
      ensures Text() == Trimmed(old(Text()))
    {
      if !HasBuffer() || Len() == 0 {
        return;
      }
      var begin := SkipSpaces();
      var end := DropSpaces(begin);
      TrimmedIs(Text(), begin, end + 1);
      Shorten(begin, end + 1 - begin);
    }

    method SkipSpaces() returns (begin: nat)
      requires Valid() && HasBuffer()
      ensures begin <= Len() && Spaces(Text(), 0, begin) && (begin < Len() ==> !IsSpace(Text()[begin]))
    {
      begin := 0;
      while IsSpace(Chars()[begin])
        invariant begin <= Len() && Spaces(Text(), 0, begin)
        decreases Len() - begin
      {
        begin := begin + 1;
      }
    }

    method DropSpaces(begin: nat) returns (end: int)
      requires Valid() && HasBuffer() && Len() > 0 && begin <= Len() && (begin < Len() ==> !IsSpace(Text()[begin]))
      ensures begin - 1 <= end < Len() && Spaces(Text(), end + 1, Len()) && (begin <= end ==> !IsSpace(Text()[end]))
    {
      end := Len() - 1;
      while IsSpace(Chars()[end]) && end >= begin
        invariant begin - 1 <= end < Len() && end >= 0 && Spaces(Text(), end + 1, Len())
      {
        end := end - 1;
      }
    }

    /** Keeps `newLen` characters from `begin` on. */
    method Shorten(begin: nat, newLen: nat)
      requires Valid() && HasBuffer() && begin + newLen <= Len()
      modifies this, Owned()
      ensures Valid() && HasBuffer() && Owned() == old(Owned()) && Text() == old(Text()[begin..begin + newLen])
    {
      assert Chars()[begin..begin + newLen] == Text()[begin..begin + newLen];
      MoveToFront(begin, newLen);
      Terminate();
    }

    method MoveToFront(begin: nat, newLen: nat)
      requires Shaped() && HasBuffer() && begin + newLen <= Len()
      modifies this, Owned()
      ensures Shaped() && HasBuffer() && Owned() == old(Owned()) && Len() == newLen
      ensures Text() == old(Chars()[begin..begin + newLen])
    {
      SplicedParts(Chars(), 0, Chars()[begin..begin + newLen]);
      SetLen(newLen);
      if begin > 0 {
        Store(0, Chars()[begin..begin + newLen]);
      }
    }

    // ----- Replacing -----

    /** strstr from the read position on, as an index into the buffer. */
    method Search(ghost text: seq<Byte>, pat: seq<Byte>, r: nat) returns (at: int)
      requires NoNul(text) && NoNul(pat) && r <= |text| && SameFrom(Chars(), text, r)
      ensures at == Find(text, r, pat)
    {
      SearchIs(Chars(), text, r);
      FindInTail(text, r, r, pat);
      at := Find(UpToNul(Chars()[r..]), 0, pat);
      if at >= 0 {
        at := at + r;
      }
    }

    /** Moves the characters from r to i down to w and writes the replacement behind them. */
    method ReplaceOne(r: nat, w: nat, i: nat, k: nat, rep: seq<Byte>)
      requires Shaped() && HasBuffer() && w <= r <= i && i + k <= |Chars()| && |rep| <= k
      modifies `inline, Owned()
      ensures Shaped() && HasBuffer() && Owned() == old(Owned())
      ensures Chars()[..w + (i - r) + |rep|] == old(Chars()[..w] + Chars()[r..i]) + rep
      ensures Chars()[i + k..] == old(Chars()[i + k..])
    {
      SplicedTwice(Chars(), w, Chars()[r..i], rep, i + k);
      Store(w, Chars()[r..i]);
      Store(w + (i - r), rep);
    }

    lemma {:induction false} ReplacingStarts(pat: seq<Byte>, rep: seq<Byte>)
      requires Valid() && HasBuffer() && pat != []
      ensures Replacing(Chars(), Len(), Text(), pat, rep, Replaced(Text(), 0, pat, rep), 0, 0)
    {
      assert Chars()[..0] == [];
    }

    method ReplaceNext(ghost text: seq<Byte>, pat: seq<Byte>, rep: seq<Byte>, ghost goal: seq<Byte>,
                       r0: nat, w0: nat, i: nat)
      returns (r: nat, w: nat)
      requires Shaped() && HasBuffer() && pat != [] && |rep| <= |pat|
      requires Replacing(Chars(), Len(), text, pat, rep, goal, r0, w0) && i == Find(text, r0, pat)
      modifies this, Owned()
      ensures Shaped() && HasBuffer() && Owned() == old(Owned())
      ensures r == i + |pat| && Replacing(Chars(), Len(), text, pat, rep, goal, r, w)
    {
      ghost var before, len := Chars(), Len();
      w := w0 + (i - r0) + |rep|;
      r := i + |pat|;
      ReplaceOne(r0, w0, i, |pat|, rep);
      SetLen(Len() + |rep| - |pat|);
      ReplacingNext(before, Chars(), len, text, pat, rep, goal, r0, w0, i, r, w);
    }

    /** One turn of the loop for a shorter replacement. */
    method ShorterTurn(ghost text: seq<Byte>, pat: seq<Byte>, rep: seq<Byte>, ghost goal: seq<Byte>,
                       r0: nat, w0: nat, i: nat)
      returns (r: nat, w: nat, next: int)
      requires Shaped() && HasBuffer() && NoNul(text) && NoNul(pat) && pat != [] && |rep| <= |pat|
      requires Replacing(Chars(), Len(), text, pat, rep, goal, r0, w0) && i == Find(text, r0, pat)
      modifies this, Owned()
      ensures Shaped() && HasBuffer() && Owned() == old(Owned()) && r0 < r <= |text|
      ensures Replacing(Chars(), Len(), text, pat, rep, goal, r, w) && next == Find(text, r, pat)
    {
      r, w := ReplaceNext(text, pat, rep, goal, r0, w0, i);
      next := Search(text, pat, r);
    }

    /** strlen from the read position on. */
    method RestLength(ghost text: seq<Byte>, r: nat) returns (n: nat)
      requires NoNul(text) && r <= |text| && SameFrom(Chars(), text, r)
      ensures r + n == |text|
    {
      SearchIs(Chars(), text, r);
      n := StrLen(Chars()[r..]);
    }

    /** Moves what follows the last occurrence, with the terminator, and so completes the text. */
    method ReplaceTail(ghost text: seq<Byte>, ghost pat: seq<Byte>, ghost rep: seq<Byte>, ghost goal: seq<Byte>,
                       r: nat, w: nat)
      requires Shaped() && HasBuffer() && NoNul(text) && pat != []
      requires Replacing(Chars(), Len(), text, pat, rep, goal, r, w) && Find(text, r, pat) < 0
      modifies this, Owned()
      ensures Valid() && HasBuffer() && Owned() == old(Owned()) && Text() == goal
    {
      var n := RestLength(text, r);
      ReplacingEnds(Chars(), Len(), text, pat, rep, goal, r, w);
      Store(w, Chars()[r..r + n + 1]);
      Denotes(goal);
    }

    /** The branch for a shorter replacement: the write position stays behind the read position. */
    method ReplaceShorter(pat: seq<Byte>, rep: seq<Byte>)
      requires Valid() && HasBuffer() && NoNul(Text()) && NoNul(pat) && pat != [] && |rep| < |pat|
      modifies this, Owned()
      ensures Valid() && HasBuffer() && Owned() == old(Owned())
      ensures Text() == Replaced(old(Text()), 0, pat, rep)
    {
      ghost var text, goal := Text(), Replaced(Text(), 0, pat, rep);
      var readFrom: nat, writeTo: nat := 0, 0;
      ReplacingStarts(pat, rep);
      var foundAt := Search(text, pat, 0);
      while foundAt >= 0
        invariant Shaped() && HasBuffer() && Owned() == old(Owned())
        invariant Replacing(Chars(), Len(), text, pat, rep, goal, readFrom, writeTo)
        invariant foundAt == Find(text, readFrom, pat)
        decreases |text| - readFrom
      {
        readFrom, writeTo, foundAt := ShorterTurn(text, pat, rep, goal, readFrom, writeTo, foundAt);
      }
      ReplaceTail(text, pat, rep, goal, readFrom, writeTo);
    }

    method ReplaceThere(ghost text: seq<Byte>, pat: seq<Byte>, rep: seq<Byte>, ghost goal: seq<Byte>, r0: nat, i: nat)
      returns (r: nat)
      requires Shaped() && HasBuffer() && pat != [] && |rep| == |pat|
      requires Replacing(Chars(), Len(), text, pat, rep, goal, r0, r0) && i == Find(text, r0, pat)
      modifies this, Owned()
      ensures Shaped() && HasBuffer() && Owned() == old(Owned())
      ensures r == i + |rep| && Replacing(Chars(), Len(), text, pat, rep, goal, r, r)
    {
      ghost var before := Chars();
      r := i + |rep|;
      assert before[..i] == before[..r0] + before[r0..i];
      SplicedParts(before, i, rep);
      Store(i, rep);
      ReplacingNext(before, Chars(), Len(), text, pat, rep, goal, r0, r0, i, r, r);
    }

    /** One turn of the loop for a replacement of the same length. */
    method EqualTurn(ghost text: seq<Byte>, pat: seq<Byte>, rep: seq<Byte>, ghost goal: seq<Byte>, r0: nat, i: nat)
      returns (r: nat, next: int)
      requires Shaped() && HasBuffer() && NoNul(text) && NoNul(pat) && pat != [] && |rep| == |pat|
      requires Replacing(Chars(), Len(), text, pat, rep, goal, r0, r0) && i == Find(text, r0, pat)
      modifies this, Owned()
      ensures Shaped() && HasBuffer() && Owned() == old(Owned()) && r0 < r <= |text|
      ensures Replacing(Chars(), Len(), text, pat, rep, goal, r, r) && next == Find(text, r, pat)
    {
      r := ReplaceThere(text, pat, rep, goal, r0, i);
      next := Search(text, pat, r);
    }

    lemma {:induction false} ReplacedInPlace(text: seq<Byte>, pat: seq<Byte>, rep: seq<Byte>, goal: seq<Byte>, r: nat)
      requires Shaped() && HasBuffer() && pat != []
      requires Replacing(Chars(), Len(), text, pat, rep, goal, r, r) && Find(text, r, pat) < 0
      ensures Valid() && Text() == goal
    {
      RestWithNul(Chars(), text, r);
      assert Chars()[..|text| + 1] == Chars()[..r] + Chars()[r..|text| + 1];
      Arith.Associate(Chars()[..r], text[r..], [0]);
      Denotes(goal);
    }

    /** The branch for a replacement of the same length overwrites each occurrence where it stands. */
    method ReplaceEqual(pat: seq<Byte>, rep: seq<Byte>)
      requires Valid() && HasBuffer() && NoNul(Text()) && NoNul(pat) && pat != [] && |rep| == |pat|
      modifies this, Owned()
      ensures Valid() && HasBuffer() && Owned() == old(Owned())
      ensures Text() == Replaced(old(Text()), 0, pat, rep)
    {
      ghost var text, goal := Text(), Replaced(Text(), 0, pat, rep);
      var readFrom: nat := 0;
      ReplacingStarts(pat, rep);
      var foundAt := Search(text, pat, 0);
      while foundAt >= 0
        invariant Shaped() && HasBuffer() && Owned() == old(Owned())
        invariant Replacing(Chars(), Len(), text, pat, rep, goal, readFrom, readFrom)
        invariant foundAt == Find(text, readFrom, pat)
        decreases |text| - readFrom
      {
        readFrom, foundAt := EqualTurn(text, pat, rep, goal, readFrom, foundAt);
      }
      ReplacedInPlace(text, pat, rep, goal, readFrom);
    }

    /** The buffer holds the text with its terminator. */
    lemma {:induction false} HoldsText()
      requires Valid() && HasBuffer()
      ensures SameFrom(Chars(), Text(), 0)
    {
    }

    /** One turn of the counting loop. */
    method CountTurn(ghost text: seq<Byte>, pat: seq<Byte>, n: nat, ghost result: nat, ghost r0: nat, i: nat,
                     size0: nat)
      returns (r: nat, size: nat, next: int)
      requires NoNul(text) && NoNul(pat) && pat != [] && |pat| < n && SameFrom(Chars(), text, 0)
      requires Counting(text, pat, n, r0, size0, result) && i == Find(text, r0, pat)
      ensures Counting(text, pat, n, r, size, result) && r0 < r <= |text| && next == Find(text, r, pat)
    {
      r, size := CountStep(text, pat, n, result, r0, i, size0);
      next := Search(text, pat, r);
    }

    static method CountStep(ghost text: seq<Byte>, pat: seq<Byte>, n: nat, ghost result: nat, ghost r0: nat, i: nat,
                            size0: nat)
      returns (r: nat, size: nat)
      requires pat != [] && |pat| < n && Counting(text, pat, n, r0, size0, result) && i == Find(text, r0, pat)
      ensures Counting(text, pat, n, r, size, result) && r0 < r <= |text|
    {
      CountOne(text, pat, n, r0, i, size0, result);
      r := i + |pat|;
      size := size0 + (n - |pat|);
    }

    /** The length after every occurrence, counted from the left, has grown. */
    method GrownSize(ghost text: seq<Byte>, pat: seq<Byte>, n: nat, ghost result: nat) returns (size: nat)
      requires NoNul(text) && NoNul(pat) && pat != [] && |pat| < n && SameFrom(Chars(), text, 0) && Len() == |text|
      requires Counting(text, pat, n, 0, |text|, result)
      ensures size == result
    {
      size := Len();
      var readFrom: nat := 0;
      var foundAt := Search(text, pat, 0);
      while foundAt >= 0
        invariant Counting(text, pat, n, readFrom, size, result)
        invariant readFrom <= |text| && foundAt == Find(text, readFrom, pat)
        decreases |text| - readFrom
      {
        readFrom, size, foundAt := CountTurn(text, pat, n, result, readFrom, foundAt, size);
      }
      CountedAll(text, pat, n, readFrom, size, result);
    }

    /** The last occurrence up to a position, which is clamped to the text; never one of an empty pattern. */
    method LastIndexOf(pat: seq<Byte>, from: nat) returns (found: int)
      requires Valid() && NoNul(Text()) && NoNul(pat)
      ensures found == if pat == [] || Text() == [] then -1
                       else LastFind(Text(), if from < Len() then from else Len() - 1, pat)
    {
      if |pat| == 0 || Len() == 0 {
        return -1;
      }
      var last := from;
      if last >= Len() {
        last := Len() - 1;
      }
      if |pat| > Len() {
        LongNotFound(Text(), last, pat);
        return -1;
      }
      HoldsText();
      found := LastBefore(Text(), pat, last);
    }

    /** The search from the left. */
    method LastBefore(ghost text: seq<Byte>, pat: seq<Byte>, last: nat) returns (found: int)
      requires NoNul(text) && NoNul(pat) && pat != [] && last < |text| && SameFrom(Chars(), text, 0)
      ensures found == LastFind(text, last, pat)
    {
      found := -1;
      var p: nat := 0;
      while p <= last
        invariant found == LastFind(text, if p <= last then p - 1 else last, pat)
      {
        var next;
        found, next := LastTurn(text, pat, p, last, found);
        if next < 0 {
          break;
        }
        p := next + 1;
      }
    }

    /** One search, which takes the place of what was found if it is not too far. */
    method LastTurn(ghost text: seq<Byte>, pat: seq<Byte>, p: nat, last: nat, found: int)
      returns (found': int, next: int)
      requires NoNul(text) && NoNul(pat) && pat != [] && p <= last < |text| && SameFrom(Chars(), text, 0)
      requires found == LastFind(text, p - 1, pat)
      ensures next < 0 ==> found' == LastFind(text, last, pat)
      ensures next >= 0 ==> p <= next && found' == LastFind(text, if next < last then next else last, pat)
    {
      FindNext(text, p, last, pat, found);
      next := Search(text, pat, p);
      found' := if 0 <= next <= last then next else found;
    }

    /** Opens the gap behind one occurrence and writes the replacement over it. */
    method ReplaceAt(index: nat, k: nat, rep: seq<Byte>)
      requires Valid() && HasBuffer() && index + k <= Len() && k <= |rep| && Len() + |rep| - k <= Capacity()
      modifies this, Owned()
      ensures Valid() && HasBuffer() && Owned() == old(Owned()) && Capacity() == old(Capacity())
      ensures Text() == old(Chars()[..index] + rep + Chars()[index + k..Len()])
    {
      var newLen := Len() + |rep| - k;
      GapFilled(Chars(), Len(), index, k, rep);
      Store(index + |rep|, Chars()[index + k..Len()]);
      Store(index, rep);
      SetLen(newLen);
      Terminate();
    }

    method ReplaceLast(ghost text: seq<Byte>, pat: seq<Byte>, rep: seq<Byte>, index: nat)
      requires Valid() && HasBuffer() && Text() == text && Occurs(text, index, pat)
      requires |pat| <= |rep| && |text| + |rep| - |pat| <= Capacity()
      modifies this, Owned()
      ensures Valid() && HasBuffer() && Owned() == old(Owned()) && Capacity() == old(Capacity())
      ensures Text() == ReplacedAt(text, index, pat, rep)
    {
      ReplacedAtIs(Chars(), Len(), index, |pat|, pat, rep);
      ReplaceAt(index, |pat|, rep);
    }

    /** The loop from the right, into a buffer that is large enough for the result. */
    method ReplaceFromRight(pat: seq<Byte>, rep: seq<Byte>)
      requires Valid() && HasBuffer() && NoNul(Text()) && NoNul(pat) && NoNul(rep) && pat != [] && |pat| <= |rep|
      requires |RightReplaced(Text(), Len() - 1, pat, rep)| <= Capacity()
      modifies this, Owned()
      ensures Valid() && HasBuffer() && Owned() == old(Owned())
      ensures Text() == old(RightReplaced(Text(), Len() - 1, pat, rep))
    {
      ghost var text, goal := Text(), RightReplaced(Text(), Len() - 1, pat, rep);
      var index: int := Len() - 1;
      while index >= 0
        invariant Valid() && HasBuffer() && Owned() == old(Owned()) && Text() == text && NoNul(text)
        invariant -1 <= index < |text| && RightReplaced(text, index, pat, rep) == goal && |goal| <= Capacity()
        decreases index + 1
      {
        index := LastIndexOf(pat, index);
        if index < 0 {
          break;
        }
        ReplaceLast(text, pat, rep, index);
        ReplacedAtHasNoNul(text, index, pat, rep);
        text := ReplacedAt(text, index, pat, rep);
        index := index - 1;
      }
    }

    /** Room for a longer text. */
    method GrowTo(size: nat) returns (ok: bool)
      requires Valid() && HasBuffer() && size + 16 < 0x1_0000_0000
      modifies this, heap
      ensures Valid() && HasBuffer() && Text() == old(Text()) && Len() == old(Len())
      ensures ok ==> Capacity() >= size
      ensures size <= old(Capacity()) ==> ok
      ensures Owned() == old(Owned()) || fresh(Owned())
      ensures heap.live - Owned() == old(heap.live - Owned())
    {
      ok := size <= Capacity();
      if !ok {
        ok := ChangeBuffer(size);
      }
    }

    method CountFromLeft(ghost text: seq<Byte>, pat: seq<Byte>, rep: seq<Byte>) returns (size: nat)
      requires Valid() && HasBuffer() && text == Text() && NoNul(text) && NoNul(pat) && pat != [] && |pat| < |rep|
      ensures size == |Replaced(text, 0, pat, rep)|
    {
      HoldsText();
      StartCounting(text, pat, rep);
      size := GrownSize(text, pat, |rep|, |Replaced(text, 0, pat, rep)|);
    }

    /** The size counted from the left, which is enough for the result. */
    method CountedSize(pat: seq<Byte>, rep: seq<Byte>, ghost goal: seq<Byte>) returns (size: nat)
      requires Valid() && HasBuffer() && NoNul(Text()) && NoNul(pat) && pat != []
      requires |pat| < |rep| < CAPACITY_MAX && Unlinked(pat, rep) && goal == RightReplaced(Text(), Len() - 1, pat, rep)
      ensures size == |Replaced(Text(), 0, pat, rep)| && size + 16 < 0x1_0000_0000
      ensures |goal| <= size && (size == Len() ==> goal == Text())
    {
      size := CountFromLeft(Text(), pat, rep);
      Counted(Text(), pat, rep, size);
    }

    /** The branch for a longer replacement. */
    method ReplaceLonger(pat: seq<Byte>, rep: seq<Byte>) returns (ok: bool)
      requires Valid() && HasBuffer() && NoNul(Text()) && NoNul(pat) && NoNul(rep) && pat != []
      requires |pat| < |rep| < CAPACITY_MAX && Unlinked(pat, rep)
      modifies this, heap, Owned()
      ensures Valid() && HasBuffer()
      ensures Text() == if ok then old(RightReplaced(Text(), Len() - 1, pat, rep)) else old(Text())
      ensures Owned() == old(Owned()) || fresh(Owned())
      ensures heap.live - Owned() == old(heap.live - Owned())
      ensures |Replaced(old(Text()), 0, pat, rep)| <= old(Capacity()) ==> ok
    {
      ghost var goal := RightReplaced(Text(), Len() - 1, pat, rep);
      var size := CountedSize(pat, rep, goal);
      if size == Len() {
        return true;
      }
      ok := ReplaceGrown(pat, rep, size, goal);
    }

    method ReplaceGrown(pat: seq<Byte>, rep: seq<Byte>, size: nat, ghost goal: seq<Byte>) returns (ok: bool)
      requires Valid() && HasBuffer() && NoNul(Text()) && NoNul(pat) && NoNul(rep) && pat != [] && |pat| <= |rep|
      requires goal == RightReplaced(Text(), Len() - 1, pat, rep) && |goal| <= size && size + 16 < 0x1_0000_0000
      modifies this, heap, Owned()
      ensures Valid() && HasBuffer() && Text() == if ok then goal else old(Text())
      ensures Owned() == old(Owned()) || fresh(Owned())
      ensures heap.live - Owned() == old(heap.live - Owned())
      ensures size <= old(Capacity()) ==> ok
    {
      ok := GrowTo(size);
      if ok {
        ReplaceFromRight(pat, rep);
      }
    }

    /** The three branches. */
    method ReplaceAll(pat: seq<Byte>, rep: seq<Byte>) returns (ok: bool)
      requires Valid() && HasBuffer() && NoNul(Text()) && NoNul(pat) && pat != [] && |rep| < CAPACITY_MAX
      requires |pat| < |rep| ==> NoNul(rep) && Unlinked(pat, rep)
      modifies this, heap, Owned()
      ensures Valid() && HasBuffer()
      ensures Text() == if ok then Outcome(old(Text()), pat, rep) else old(Text())
      ensures |rep| <= |pat| ==> ok && Owned() == old(Owned())
      ensures |Replaced(old(Text()), 0, pat, rep)| <= old(Capacity()) ==> ok
      ensures Owned() == old(Owned()) || fresh(Owned())
      ensures heap.live - Owned() == old(heap.live - Owned())
    {
      ok := true;
      if |rep| == |pat| {
        ReplaceEqual(pat, rep);
      } else if |rep| < |pat| {
        ReplaceShorter(pat, rep);
      } else {
        ok := ReplaceLonger(pat, rep);
      }
    }

    /** Replaces every occurrence; only a longer replacement can fail, and then nothing changes. */
    method Replace(find: String, replace: String) returns (ok: bool)
      requires Valid() && find.Valid() && replace.Valid() && Apart(find) && Apart(replace)
      requires NoNul(Text()) && NoNul(find.Text())
      requires find.Len() < replace.Len() ==> NoNul(replace.Text()) && Unlinked(find.Text(), replace.Text())
      modifies this, heap, Owned()
      ensures Valid() && HasBuffer() == old(HasBuffer())
      ensures Text() == if ok then Outcome(old(Text()), old(find.Text()), old(replace.Text())) else old(Text())
      ensures old(replace.Len()) <= old(find.Len()) ==> ok && Owned() == old(Owned())
      ensures (old(find.Text()) != [] ==>
                 |Replaced(old(Text()), 0, old(find.Text()), old(replace.Text()))| <= old(Capacity())) ==> ok
      ensures Owned() == old(Owned()) || fresh(Owned())
      ensures heap.live - Owned() == old(heap.live - Owned())
      ensures NoNul(old(replace.Text())) ==> NoNul(Text())
    {
      ok := true;
      if Len() == 0 {
        OutcomeOfEmpty(Text(), find.Text(), replace.Text());
        return;
      }
      if find.Len() == 0 {
        return;
      }
      ghost var text := Text();
      var pat, rep := find.Chars()[..find.Len()], replace.Chars()[..replace.Len()];
      ok := ReplaceAll(pat, rep);
      if NoNul(rep) {
        OutcomeHasNoNul(text, pat, rep);
      }
    }
  }
}
