/** The list of selected lights: removal in place, and what any run of taps leaves in it. */
module LightSelection {
  import Arith
  import opened Bytes

  const MAX_LIGHTS := 20

  // ----- Removal -----

  /** The elements other than v, in order. */
  function Without(s: seq<Byte>, v: int): (r: seq<Byte>)
    ensures |r| <= |s|
  {
    if s == [] then []
    else Without(s[..|s| - 1], v) + if s[|s| - 1] == v then [] else [s[|s| - 1]]
  }

  function Zeros(n: nat): (z: seq<Byte>)
    ensures |z| == n && forall i | 0 <= i < n :: z[i] == 0
  {
    seq(n, i => 0)
  }

  function Occurrences(s: seq<Byte>, v: int): nat { |s| - |Without(s, v)| }

  lemma {:induction false} WithoutSplits(a: seq<Byte>, b: seq<Byte>, v: int)
    ensures Without(a + b, v) == Without(a, v) + Without(b, v)
  {
    if b == [] {
      assert a + b == a;
    } else {
      var most, last := b[..|b| - 1], b[|b| - 1];
      WithoutSplits(a, most, v);
      assert (a + b)[..|a + b| - 1] == a + most;
      Arith.Associate(Without(a, v), Without(most, v), if last == v then [] else [last]);
    }
  }

  lemma {:induction false} WithoutMembers(s: seq<Byte>, v: int, x: Byte)
    ensures x in Without(s, v) <==> x in s && x != v
  {
    if s != [] {
      WithoutMembers(s[..|s| - 1], v, x);
      assert s == s[..|s| - 1] + [s[|s| - 1]];
    }
  }

  lemma {:induction false} NothingToRemove(s: seq<Byte>, v: int)
    requires forall i | 0 <= i < |s| :: s[i] != v
    ensures Without(s, v) == s
  {
    if s != [] {
      NothingToRemove(s[..|s| - 1], v);
    }
  }

  /** What is left, in numbers: exactly the elements other than v, at rising places. */
  lemma {:induction false} WithoutInNumbers(s: seq<Byte>, v: int) returns (from: seq<nat>)
    ensures |from| == |Without(s, v)| && (forall k | 0 <= k < |from| :: from[k] < |s| && Without(s, v)[k] == s[from[k]])
    ensures forall j, k | 0 <= j < k < |from| :: from[j] < from[k]
    ensures forall i: nat | i < |s| :: s[i] != v <==> i in from
  {
    if s == [] {
      from := [];
    } else {
      var last: nat := |s| - 1;
      var most := WithoutInNumbers(s[..last], v);
      from := most + if s[last] == v then [] else [last];
      PlacesWith(s, v, last, most, from);
    }
  }

  lemma {:induction false} PlacesWith(s: seq<Byte>, v: int, last: nat, most: seq<nat>, from: seq<nat>)
    requires |s| == last + 1 && from == most + if s[last] == v then [] else [last]
    requires forall k | 0 <= k < |most| :: most[k] < last
    requires forall i: nat | i < last :: s[..last][i] != v <==> i in most
    ensures forall i: nat | i < |s| :: s[i] != v <==> i in from
  {
    forall i: nat | i < |s|
      ensures s[i] != v <==> i in from
    {
      if i < last {
        assert s[..last][i] == s[i];
      }
    }
  }

  /** Closing the gap at i and appending a zero. */
  function Shifted(s: seq<Byte>, i: nat): seq<Byte>
    requires i < |s|
  {
    s[..i] + s[i + 1..] + [0]
  }

  /** What the loop of the removal does in one turn with the array and its position. */
  function Turn(s: seq<Byte>, i: nat, v: int): (next: (seq<Byte>, nat))
    requires i < |s|
    ensures |next.0| == |s|
  {
    if s[i] == v then (Shifted(s, i), i) else (s, i + 1)
  }

  /** The array and the position after n turns, or earlier if the loop ends. */
  function Turns(s: seq<Byte>, i: nat, v: int, n: nat): (after: (seq<Byte>, nat))
    ensures |after.0| == |s|
    decreases n
  {
    if n == 0 || i >= |s| then (s, i) else var (t, k) := Turn(s, i, v); Turns(t, k, v, n - 1)
  }

  /** A removal of zeros that meets one goes on forever: each removal brings a zero back in at the end. */
  lemma {:induction false} RemovingZerosNeverEnds(s: seq<Byte>, i: nat, z: nat, n: nat)
    requires i <= z < |s| && s[z] == 0
    ensures Turns(s, i, 0, n).1 < |s|
    decreases n
  {
    if n > 0 {
      var (t, k) := Turn(s, i, 0);
      if s[i] == 0 {
        assert t[|s| - 1] == 0;
        RemovingZerosNeverEnds(t, k, |s| - 1, n - 1);
      } else {
        RemovingZerosNeverEnds(t, k, z, n - 1);
      }
    }
  }

  lemma {:induction false} WithoutParts(a: seq<Byte>, b: seq<Byte>, c: seq<Byte>, v: int)
    ensures Without(a + b + c, v) == Without(a, v) + Without(b, v) + Without(c, v)
  {
    WithoutSplits(a + b, c, v);
    WithoutSplits(a, b, v);
  }

  lemma {:induction false} WithoutOne(x: Byte, v: int)
    ensures Without([x], v) == if x == v then [] else [x]
  {
    assert [x][..0] == [];
  }

  lemma {:induction false} NothingBetween(a: seq<Byte>, b: seq<Byte>)
    ensures a + [] + b == a + b
  {
  }

  lemma {:induction false} GapClosed(front: seq<Byte>, x: Byte, back: seq<Byte>, v: int)
    requires x == v && v != 0
    ensures Without(front + back + [0], v) == Without(front + [x] + back, v) + [0]
  {
    WithoutParts(front, [x], back, v);
    WithoutParts(front, back, [0], v);
    WithoutOne(x, v);
    WithoutOne(0, v);
    NothingBetween(Without(front, v), Without(back, v));
  }

  lemma {:induction false} PartsOf(s: seq<Byte>, i: nat)
    requires i < |s|
    ensures s == s[..i] + [s[i]] + s[i + 1..]
  {
  }

  lemma {:induction false} ShiftRemovesOne(s: seq<Byte>, i: nat, v: int)
    requires i < |s| && s[i] == v && v != 0
    ensures Without(Shifted(s, i), v) == Without(s, v) + [0]
    ensures Occurrences(Shifted(s, i), v) == Occurrences(s, v) - 1
  {
    PartsOf(s, i);
    GapClosed(s[..i], s[i], s[i + 1..], v);
  }

  /** The inner loop: everything after i moves down by one. */
  method ShiftDown(arr: array<Byte>, i: nat, length: nat)
    requires i < length <= arr.Length
    modifies arr
    ensures arr[..length] == Shifted(old(arr[..length]), i) && arr[length..] == old(arr[length..])
  {
    var k := i;
    while k < length - 1
      invariant i <= k <= length - 1
      invariant forall j | 0 <= j < arr.Length :: arr[j] == if i <= j < k then old(arr[j + 1]) else old(arr[j])
    {
      arr[k] := arr[k + 1];
      k := k + 1;
    }
    arr[length - 1] := 0;
    ShiftedIs(old(arr[..]), arr[..], i, length);
  }

  lemma {:induction false} ShiftedIs(before: seq<Byte>, now: seq<Byte>, i: nat, length: nat)
    requires i < length <= |before| == |now| && now[length - 1] == 0
    requires forall j | i <= j < length - 1 :: now[j] == before[j + 1]
    requires forall j | 0 <= j < i || length <= j < |now| :: now[j] == before[j]
    ensures now[..length] == Shifted(before[..length], i) && now[length..] == before[length..]
  {
  }

  lemma {:induction false} OneMoreZero(kept: seq<Byte>, n: nat)
    ensures kept + Zeros(n) + [0] == kept + Zeros(n + 1)
  {
  }

  /** The value does not stand before position i. */
  predicate NoneBefore(s: seq<Byte>, i: nat, v: int)
  {
    forall k | 0 <= k < i && k < |s| :: s[k] != v
  }

  /** During a removal: nothing to remove before i, and so many zeros have been brought in at the end. */
  ghost predicate Removing(s: seq<Byte>, kept: seq<Byte>, zeros: nat, i: nat, v: int)
  {
    && Without(s, v) == kept + Zeros(zeros) && NoneBefore(s, i, v)
    && (v == 0 ==> NoneBefore(s, |s|, v))
  }

  /** One removal: what was before stays, and one occurrence less is left. */
  method RemoveAt(arr: array<Byte>, i: nat, length: nat, value: int, ghost kept: seq<Byte>, ghost zeros: nat)
    requires i < length <= arr.Length && arr[i] == value && Removing(arr[..length], kept, zeros, i, value)
    modifies arr
    ensures Removing(arr[..length], kept, zeros + 1, i, value)
    ensures Occurrences(arr[..length], value) < Occurrences(old(arr[..length]), value)
    ensures arr[length..] == old(arr[length..])
  {
    ShiftRemovesOne(arr[..length], i, value);
    ShiftDown(arr, i, length);
    OneMoreZero(kept, zeros);
  }

  lemma {:induction false} NothingRemovedYet(s: seq<Byte>, v: int)
    requires v == 0 ==> 0 !in s
    ensures Removing(s, Without(s, v), 0, 0, v)
  {
    assert Zeros(0) == [];
  }

  lemma {:induction false} RemovingPasses(s: seq<Byte>, kept: seq<Byte>, zeros: nat, i: nat, v: int)
    requires i < |s| && s[i] != v && Removing(s, kept, zeros, i, v)
    ensures Removing(s, kept, zeros, i + 1, v)
  {
  }

  lemma {:induction false} RemovingEnds(s: seq<Byte>, kept: seq<Byte>, zeros: nat, v: int)
    requires Removing(s, kept, zeros, |s|, v)
    ensures |kept| <= |s| && s == kept + Zeros(|s| - |kept|)
  {
    NothingToRemove(s, v);
  }

  /** Removes every occurrence of a value and fills up with zeros. The loop stays where it is after a removal,
      so it only ends because every removal leaves one occurrence less. */
  method ArrayShift(arr: array<Byte>, length: nat, value: int)
    requires length <= arr.Length && (value == 0 ==> 0 !in arr[..length])
    modifies arr
    ensures var kept := Without(old(arr[..length]), value);
            arr[..length] == kept + Zeros(length - |kept|)
    ensures arr[length..] == old(arr[length..])
  {
    ghost var kept := Without(arr[..length], value);
    ghost var zeros: nat := 0;
    NothingRemovedYet(arr[..length], value);
    var i := 0;
    while i < length
      invariant 0 <= i <= length
      invariant Removing(arr[..length], kept, zeros, i, value)
      invariant arr[length..] == old(arr[length..])
      decreases Occurrences(arr[..length], value), length - i
    {
      if arr[i] == value {
        RemoveAt(arr, i, length, value, kept, zeros);
        zeros := zeros + 1;
      } else {
        RemovingPasses(arr[..length], kept, zeros, i, value);
        i := i + 1;
      }
    }
    RemovingEnds(arr[..length], kept, zeros, value);
  }

  // ----- Tapping lights -----

  predicate NoDuplicates(s: seq<Byte>)
  {
    forall i, j | 0 <= i < j < |s| :: s[i] != s[j]
  }

  /** What a tap on a light does to the list. */
  function Tapped(list: seq<Byte>, id: Byte): seq<Byte>
  {
    if id in list then Without(list, id) else list + [id]
  }

  lemma {:induction false} RemovesExactlyOne(s: seq<Byte>, id: Byte)
    requires NoDuplicates(s) && id in s
    ensures |Without(s, id)| == |s| - 1
  {
    var most, last := s[..|s| - 1], s[|s| - 1];
    assert s == most + [last];
    if last == id {
      NothingToRemove(most, id);
    } else {
      RemovesExactlyOne(most, id);
    }
  }

  /** Without duplicates only one place is taken out. */
  lemma {:induction false} TakesOneOut(s: seq<Byte>, id: Byte, i: nat)
    requires NoDuplicates(s) && i < |s| && s[i] == id
    ensures Without(s, id) == s[..i] + s[i + 1..]
  {
    Around(s, i);
    NothingToRemove(s[..i], id);
    NothingToRemove(s[i + 1..], id);
    TakesMiddleOut(s[..i], s[i + 1..], id);
  }

  lemma {:induction false} Around(s: seq<Byte>, i: nat)
    requires i < |s|
    ensures s == s[..i] + [s[i]] + s[i + 1..]
  {
  }

  lemma {:induction false} TakesMiddleOut(a: seq<Byte>, b: seq<Byte>, id: Byte)
    requires Without(a, id) == a && Without(b, id) == b
    ensures Without(a + [id] + b, id) == a + b
  {
    WithoutSplits(a + [id], b, id);
    WithoutSplits(a, [id], id);
    assert [id][..0] == [];
  }

  lemma {:induction false} WithoutHasNoDuplicates(s: seq<Byte>, v: int)
    requires NoDuplicates(s)
    ensures NoDuplicates(Without(s, v))
  {
    if s != [] {
      var most, last := s[..|s| - 1], s[|s| - 1];
      WithoutHasNoDuplicates(most, v);
      WithoutMembers(most, v, last);
    }
  }

  /** The selection screen: light `ids[b]` belongs to button b. The list may also hold lights of other pages. */
  class Selection {
    const ids: seq<Byte>
    const lightIds: array<Byte>
    var lightCounter: nat
    var isSelected: seq<bool>

    ghost function List(): seq<Byte>
      requires lightCounter <= lightIds.Length
      reads this, lightIds
    {
      lightIds[..lightCounter]
    }

    /** The list has every light once, and a button is marked exactly if its light is in the list. */
    ghost predicate Valid()
      reads this, lightIds
    {
      && lightIds.Length == MAX_LIGHTS && lightCounter <= MAX_LIGHTS
      && |isSelected| == |ids| && NoDuplicates(ids) && 0 !in ids
      && NoDuplicates(List())
      && forall b | 0 <= b < |ids| :: isSelected[b] <==> ids[b] in List()
    }

    method SelectLight(buttonId: nat)
      requires Valid() && buttonId < |ids|
      requires isSelected[buttonId] || lightCounter < MAX_LIGHTS
      modifies this, lightIds
      ensures Valid()
      ensures List() == Tapped(old(List()), ids[buttonId])
      ensures !old(isSelected[buttonId]) ==> List() == old(List()) + [ids[buttonId]]
      ensures old(isSelected[buttonId]) ==>
                exists i | 0 <= i < |old(List())| ::
                  old(List())[i] == ids[buttonId] && List() == old(List())[..i] + old(List())[i + 1..]
      ensures isSelected == old(isSelected)[buttonId := !old(isSelected[buttonId])]
    {
      var lightId := ids[buttonId];
      ghost var before := List();
      if isSelected[buttonId] {
        RemoveLight(lightId);
        isSelected := isSelected[buttonId := false];
        forall b | 0 <= b < |ids|
          ensures isSelected[b] <==> ids[b] in List()
        {
          WithoutMembers(before, lightId, ids[b]);
        }
      } else {
        lightIds[lightCounter] := lightId;
        lightCounter := lightCounter + 1;
        isSelected := isSelected[buttonId := true];
        assert List() == before + [lightId];
      }
    }

    method RemoveLight(id: Byte)
      requires lightCounter <= lightIds.Length && NoDuplicates(List()) && id in List() && id != 0
      modifies `lightCounter, lightIds
      ensures lightCounter == old(lightCounter) - 1
      ensures NoDuplicates(List()) && List() == Without(old(List()), id)
      ensures exists i | 0 <= i < |old(List())| ::
                old(List())[i] == id && List() == old(List())[..i] + old(List())[i + 1..]
    {
      ghost var before := List();
      RemovesExactlyOne(before, id);
      WithoutHasNoDuplicates(before, id);
      ArrayShift(lightIds, lightCounter, id);
      lightCounter := lightCounter - 1;
      assert List() == Without(before, id);
      ghost var i :| 0 <= i < |before| && before[i] == id;
      TakesOneOut(before, id, i);
    }
  }

  // ----- Whole runs -----

  function TappedAll(list: seq<Byte>, taps: seq<Byte>): seq<Byte>
  {
    if taps == [] then list else Tapped(TappedAll(list, taps[..|taps| - 1]), taps[|taps| - 1])
  }

  /** Whether light id has been tapped an odd number of times. */
  predicate Odd(taps: seq<Byte>, id: Byte)
  {
    if taps == [] then false else Odd(taps[..|taps| - 1], id) != (taps[|taps| - 1] == id)
  }

  /** After any run of taps the list has no duplicates, and exactly the lights tapped an odd number of times
      have changed sides. */
  lemma {:induction false} RunOfTaps(list: seq<Byte>, taps: seq<Byte>, id: Byte)
    requires NoDuplicates(list)
    ensures NoDuplicates(TappedAll(list, taps))
    ensures id in TappedAll(list, taps) <==> (id in list) != Odd(taps, id)
  {
    if taps != [] {
      var most, last := taps[..|taps| - 1], taps[|taps| - 1];
      RunOfTaps(list, most, id);
      WithoutMembers(TappedAll(list, most), last, id);
      WithoutHasNoDuplicates(TappedAll(list, most), last);
    }
  }
}
