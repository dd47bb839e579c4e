/** Names: canonical order, prefixes and successors. */
module Names {
  import opened Bytes
  import opened NameComponents

  type Name = seq<Component>

  predicate ValidName(x: Name) {
    forall i :: 0 <= i < |x| ==> Valid(x[i])
  }

  /** Canonical order of names: by the first component that differs, a prefix before the longer name. */
  function NameOrder(x: Name, y: Name): int {
    if x == [] then (if y == [] then 0 else -1)
    else if y == [] then 1
    else if Order(x[0], y[0]) != 0 then Order(x[0], y[0])
    else NameOrder(x[1..], y[1..])
  }

  predicate Before(x: Name, y: Name) {
    NameOrder(x, y) < 0
  }

  lemma {:induction false} OrderIsAntisymmetric(x: Name, y: Name)
    ensures NameOrder(x, y) == -NameOrder(y, x)
    ensures NameOrder(x, y) == 0 <==> x == y
  {
    if x != [] && y != [] {
      LessIsTotalOrder(x[0], y[0], x[0]);
      OrderIsAntisymmetric(x[1..], y[1..]);
      assert x == [x[0]] + x[1..] && y == [y[0]] + y[1..];
    }
  }

  lemma {:induction false} OrderIsTransitive(x: Name, y: Name, z: Name)
    requires NameOrder(x, y) <= 0 && NameOrder(y, z) <= 0
    ensures NameOrder(x, z) <= 0 && (Before(x, y) || Before(y, z) ==> Before(x, z))
  {
    if x != [] && y != [] && z != [] {
      LessIsTotalOrder(x[0], y[0], z[0]);
      LessIsTotalOrder(y[0], z[0], x[0]);
      LessIsTotalOrder(x[0], z[0], y[0]);
      if x[0] == y[0] == z[0] {
        OrderIsTransitive(x[1..], y[1..], z[1..]);
      }
    }
  }

  /** The order the rest of the library relies on: total, and zero on equal names only. */
  lemma CanonicalOrderIsTotal(x: Name, y: Name, z: Name)
    ensures Before(x, y) || x == y || Before(y, x)
    ensures !(Before(x, y) && Before(y, x)) && !Before(x, x)
    ensures Before(x, y) && Before(y, z) ==> Before(x, z)
  {
    OrderIsAntisymmetric(x, y);
    OrderIsAntisymmetric(x, x);
    if Before(x, y) && Before(y, z) {
      OrderIsTransitive(x, y, z);
    }
  }

  // ---- name objects ----

  predicate OrdinaryName(x: seq<Object>) {
    |x| < TWO_31 && forall i :: 0 <= i < |x| ==> Ordinary(x[i])
  }

  function Plain(x: seq<Object>): (r: Name)
    ensures |r| == |x| && forall i :: 0 <= i < |x| ==> r[i] == x[i].c
  {
    seq(|x|, i requires 0 <= i < |x| => x[i].c)
  }

  /** Name::npos. */
  const NPOS: nat := 0xFFFF_FFFF_FFFF_FFFF

  // Positions and counts are size_t. getSubName and get take a position as ssize_t: from 2^63 on it is
  // an offset from the end, -1 for the last component.

  /** Where getSubName starts: an offset beyond the front is the front. */
  function SubStart(size: nat, pos: nat): nat {
    if pos < TWO_63 then pos else if TWO_64 - pos <= size then size - (TWO_64 - pos) else 0
  }

  /** Where getSubName ends: the sum of start and count wraps around. */
  function SubEnd(size: nat, pos: nat, count: nat): nat {
    if count == NPOS then size else Min(size, (SubStart(size, pos) + count) % TWO_64)
  }

  /** getSubName. */
  function SubName<T>(x: seq<T>, pos: nat, count: nat): seq<T>
    requires pos < TWO_64
  {
    var (i, j) := (SubStart(|x|, pos), SubEnd(|x|, pos, count));
    if i < j then x[i..j] else []
  }

  /** getSubName in plain words: a range that starts and ends inside, the components an offset counts from the end, and
      the whole name for an offset beyond its front. */
  lemma SubNameMeans<T>(x: seq<T>, pos: nat, count: nat)
    requires |x| < TWO_31 && pos < TWO_64
    ensures pos <= |x| && count <= |x| - pos ==> SubName(x, pos, count) == x[pos..pos + count]
    ensures 0 < TWO_64 - pos <= |x| ==> SubName(x, pos, NPOS) == x[|x| - (TWO_64 - pos)..]
    ensures pos >= 0x8000_0000_0000_0000 && TWO_64 - pos > |x| ==> SubName(x, pos, NPOS) == x
  {
    if pos <= |x| && count <= |x| - pos {
      Wraps(pos + count);
    }
  }

  /** get: the index of the component it refers to, if there is one. */
  function GetIndex(size: nat, pos: nat): Option<nat> {
    var i := pos % TWO_64;
    var k := if i < TWO_63 then i else i - TWO_64 + size;
    if 0 <= k < size then Some(k) else None
  }

  /** How many components compare takes there to be: `size() - pos` wraps around, too. */
  function TakenCount(size: nat, pos: nat, count: nat): nat {
    Min(count, (size - pos) % TWO_64)
  }

  /** The result of compare on ranges, from the `i`-th pair on: None if it reads out of range, which is
      undefined. The counts are subtracted as size_t and returned as int. */
  function RangesResult(x: seq<Object>, pos1: nat, c1: nat, y: seq<Object>, pos2: nat, c2: nat, i: nat): Option<int>
    requires i <= Min(c1, c2)
    decreases Min(c1, c2) - i
  {
    if i == Min(c1, c2) then Some(ToInt32((c1 as int) - c2))
    else
      var (j, k) := (GetIndex(|x|, pos1 + i), GetIndex(|y|, pos2 + i));
      if j.None? || k.None? then None
      else if Compare(x[j.value], y[k.value]) != 0 then Some(Compare(x[j.value], y[k.value]))
      else RangesResult(x, pos1, c1, y, pos2, c2, i + 1)
  }

  function RangesCompared(x: seq<Object>, pos1: nat, count1: nat, y: seq<Object>, pos2: nat, count2: nat): Option<int> {
    RangesResult(x, pos1, TakenCount(|x|, pos1, count1), y, pos2, TakenCount(|y|, pos2, count2), 0)
  }

  /** Name::compare on component ranges. */
  method CompareRanges(x: seq<Object>, pos1: nat, count1: nat, y: seq<Object>, pos2: nat, count2: nat)
      returns (r: Option<int>)
    ensures r == RangesCompared(x, pos1, count1, y, pos2, count2)
  {
    hide Compare, GetIndex, ToInt32;
    var c1 := TakenCount(|x|, pos1, count1);
    var c2 := TakenCount(|y|, pos2, count2);
    var count := Min(c1, c2);
    for i := 0 to count
      invariant RangesCompared(x, pos1, count1, y, pos2, count2) == RangesResult(x, pos1, c1, y, pos2, c2, i)
    {
      var (j, k) := (GetIndex(|x|, pos1 + i), GetIndex(|y|, pos2 + i));
      if j.None? || k.None? {
        return None;
      }
      GetInRange(|x|, pos1 + i);
      GetInRange(|y|, pos2 + i);
      var comp := Compare(x[j.value], y[k.value]);
      if comp != 0 {
        return Some(comp);
      }
    }
    r := Some(ToInt32((c1 as int) - c2));
  }

  lemma GetInRange(size: nat, pos: nat)
    ensures GetIndex(size, pos).Some? ==> GetIndex(size, pos).value < size
  {
  }

  /** "Equivalent to getSubName(pos1, count1).compare(other.getSubName(pos2, count2))", as documented. */
  predicate AsDocumented(x: seq<Object>, pos1: nat, count1: nat, y: seq<Object>, pos2: nat, count2: nat)
    requires pos1 < TWO_64 && pos2 < TWO_64
  {
    var r := RangesCompared(x, pos1, count1, y, pos2, count2);
    r.Some? && Sign(r.value) == NameOrder(Plain(SubName(x, pos1, count1)), Plain(SubName(y, pos2, count2)))
  }

  /** A range from inside the name whose end does not wrap around, one within as many components at the end
      as the offset says, or an empty one. */
  predicate RangeSound(size: nat, pos: nat, count: nat) {
    if pos <= size then count == NPOS || pos + count < TWO_64 || pos == size
    else if TWO_64 - size <= pos < TWO_64 then count <= TWO_64 - pos
    else count == 0
  }

  /** The position denotes this component. */
  predicate Reads(x: seq<Object>, pos: nat, o: Object) {
    var k := GetIndex(|x|, pos);
    k.Some? && x[k.value] == o
  }

  lemma Wraps(d: int)
    requires 0 <= d + TWO_64 && d < 2 * TWO_64
    ensures d % TWO_64 == if d < 0 then d + TWO_64 else if d < TWO_64 then d else d - TWO_64
  {
  }

  /** In a sound range compare takes as many components as getSubName. */
  lemma SoundCount(size: nat, pos: nat, count: nat)
    requires size < TWO_31 && pos < TWO_64 && count < TWO_64 && RangeSound(size, pos, count)
    ensures var (i, j) := (SubStart(size, pos), SubEnd(size, pos, count));
      TakenCount(size, pos, count) == (if i < j then j - i else 0) && j <= size
  {
    Wraps((size as int) - pos);
    Wraps(SubStart(size, pos) + count);
  }

  /** ... and reads the same ones. */
  lemma SoundIndex(size: nat, pos: nat, count: nat, i: nat)
    requires size < TWO_31 && pos < TWO_64 && count < TWO_64 && RangeSound(size, pos, count)
    requires i < TakenCount(size, pos, count)
    ensures GetIndex(size, pos + i) == Some(SubStart(size, pos) + i) && SubStart(size, pos) + i < size
  {
    Wraps((size as int) - pos);
    Wraps(pos + i);
  }

  lemma SoundView(x: seq<Object>, pos: nat, count: nat)
    requires OrdinaryName(x) && pos < TWO_64 && count < TWO_64 && RangeSound(|x|, pos, count)
    ensures TakenCount(|x|, pos, count) == |SubName(x, pos, count)| && OrdinaryName(SubName(x, pos, count))
    ensures forall i :: 0 <= i < |SubName(x, pos, count)| ==> Reads(x, pos + i, SubName(x, pos, count)[i])
  {
    hide TakenCount, GetIndex, SubStart, SubEnd, RangeSound, Ordinary;
    SoundCount(|x|, pos, count);
    forall i | 0 <= i < |SubName(x, pos, count)|
      ensures Reads(x, pos + i, SubName(x, pos, count)[i])
    {
      SoundIndex(|x|, pos, count, i);
    }
  }

  lemma {:induction false} SoundResult(x: seq<Object>, pos1: nat, a: seq<Object>,
                                       y: seq<Object>, pos2: nat, b: seq<Object>, i: nat)
    requires |a| < TWO_31 && |b| < TWO_31 && i <= Min(|a|, |b|) && OrdinaryName(a) && OrdinaryName(b)
    requires forall k :: 0 <= k < |a| ==> Reads(x, pos1 + k, a[k])
    requires forall k :: 0 <= k < |b| ==> Reads(y, pos2 + k, b[k])
    ensures var r := RangesResult(x, pos1, |a|, y, pos2, |b|, i);
      r.Some? && Sign(r.value) == NameOrder(Plain(a)[i..], Plain(b)[i..])
    decreases Min(|a|, |b|) - i
  {
    hide Compare, Less, Ordinary, ToInt32, GetIndex;
    var (m, n) := (Plain(a), Plain(b));
    if i == Min(|a|, |b|) {
      ToInt32OfSmall((|a| as int) - |b|);
    } else {
      assert Reads(x, pos1 + i, a[i]) && Reads(y, pos2 + i, b[i]);
      CompareAgrees(a[i], b[i]);
      LessIsTotalOrder(m[i], n[i], m[i]);
      assert m[i..][1..] == m[i + 1..] && n[i..][1..] == n[i + 1..];
      if Compare(a[i], b[i]) == 0 {
        SoundResult(x, pos1, a, y, pos2, b, i + 1);
      }
    }
  }

  /** Between sound ranges the documentation holds. */
  lemma SoundRangesAgree(x: seq<Object>, pos1: nat, count1: nat, y: seq<Object>, pos2: nat, count2: nat)
    requires OrdinaryName(x) && OrdinaryName(y)
    requires pos1 < TWO_64 && count1 < TWO_64 && pos2 < TWO_64 && count2 < TWO_64
    requires RangeSound(|x|, pos1, count1) && RangeSound(|y|, pos2, count2)
    ensures AsDocumented(x, pos1, count1, y, pos2, count2)
  {
    hide TakenCount, RangeSound, SubName, RangesResult, OrdinaryName, Reads;
    var (a, b) := (SubName(x, pos1, count1), SubName(y, pos2, count2));
    SoundView(x, pos1, count1);
    SoundView(y, pos2, count2);
    OrdinarySize(a);
    OrdinarySize(b);
    SoundResult(x, pos1, a, y, pos2, b, 0);
    assert Plain(a)[0..] == Plain(a) && Plain(b)[0..] == Plain(b);
  }

  lemma OrdinarySize(x: seq<Object>)
    requires OrdinaryName(x)
    ensures |x| < TWO_31
  {
  }

  /** A component to compare with. */
  const SOME_COMPONENT := Object(Component(GENERIC, []), None)

  /** A name for which the documentation fails, for any range that is not sound. */
  function Counterexample(x: seq<Object>, pos: nat, count: nat): seq<Object>
    requires pos < TWO_64
  {
    if pos <= |x| || TWO_64 - |x| <= pos then SubName(x, pos, count) else [SOME_COMPONENT]
  }

  /** Comparing a range with whole names, on either side, is as documented for every name exactly when the range
      is sound. */
  lemma RangeSoundExact(x: seq<Object>, pos: nat, count: nat)
    requires OrdinaryName(x) && pos < TWO_64 && count < TWO_64
    ensures RangeSound(|x|, pos, count) <==> forall y :: OrdinaryName(y) ==> AsDocumented(x, pos, count, y, 0, NPOS)
    ensures RangeSound(|x|, pos, count) <==> forall y :: OrdinaryName(y) ==> AsDocumented(y, 0, NPOS, x, pos, count)
  {
    hide AsDocumented, OrdinaryName, RangeSound, Counterexample;
    if RangeSound(|x|, pos, count) {
      forall y | OrdinaryName(y)
        ensures AsDocumented(x, pos, count, y, 0, NPOS) && AsDocumented(y, 0, NPOS, x, pos, count)
      {
        WholeIsSound(y);
        SoundRangesAgree(x, pos, count, y, 0, NPOS);
        SoundRangesAgree(y, 0, NPOS, x, pos, count);
      }
    } else {
      UnsoundFails(x, pos, count);
    }
  }

  lemma WholeIsSound(y: seq<Object>)
    requires OrdinaryName(y)
    ensures RangeSound(|y|, 0, NPOS) && SubName(y, 0, NPOS) == y && TakenCount(|y|, 0, NPOS) == |y|
  {
    Wraps(|y|);
  }

  lemma UnsoundFails(x: seq<Object>, pos: nat, count: nat)
    requires OrdinaryName(x) && pos < TWO_64 && count < TWO_64 && !RangeSound(|x|, pos, count)
    ensures OrdinaryName(Counterexample(x, pos, count))
    ensures !AsDocumented(x, pos, count, Counterexample(x, pos, count), 0, NPOS)
    ensures !AsDocumented(Counterexample(x, pos, count), 0, NPOS, x, pos, count)
  {
    hide RangesResult, Ordinary, Compare, NameOrder, TakenCount, GetIndex;
    var y := Counterexample(x, pos, count);
    if pos <= |x| || TWO_64 - |x| <= pos {
      SubNameOrdinary(x, pos, count);
      WholeIsSound(y);
      UnsoundTail(x, pos, count);
      OrderIsAntisymmetric(Plain(y), Plain(y));
      Mirrored(x, pos, TakenCount(|x|, pos, count), y, 0, TakenCount(|y|, 0, NPOS), 0);
    } else {
      assert OrdinaryName(y) by {
        SomeComponentIsOrdinary();
      }
      WholeIsSound(y);
      OutsideUnread(x, pos, count, y);
      Mirrored(x, pos, TakenCount(|x|, pos, count), y, 0, TakenCount(|y|, 0, NPOS), 0);
    }
  }

  /** Swapping the ranges, the same reads are made, and equality is found equally. */
  lemma {:induction false} Mirrored(x: seq<Object>, pos1: nat, c1: nat, y: seq<Object>, pos2: nat, c2: nat, i: nat)
    requires OrdinaryName(x) && OrdinaryName(y) && i <= Min(c1, c2)
    ensures var (r, s) := (RangesResult(x, pos1, c1, y, pos2, c2, i), RangesResult(y, pos2, c2, x, pos1, c1, i));
      (r.None? <==> s.None?) && (r == Some(0) <==> s == Some(0))
    decreases Min(c1, c2) - i
  {
    hide Compare, Ordinary, GetIndex;
    if i < Min(c1, c2) {
      var (j, k) := (GetIndex(|x|, pos1 + i), GetIndex(|y|, pos2 + i));
      GetInRange(|x|, pos1 + i);
      GetInRange(|y|, pos2 + i);
      if j.Some? && k.Some? {
        CompareAgrees(x[j.value], y[k.value]);
        CompareAgrees(y[k.value], x[j.value]);
        Mirrored(x, pos1, c1, y, pos2, c2, i + 1);
      }
    }
  }

  lemma SubNameOrdinary(x: seq<Object>, pos: nat, count: nat)
    requires OrdinaryName(x) && pos < TWO_64
    ensures OrdinaryName(SubName(x, pos, count))
  {
    hide Ordinary, SubStart, SubEnd;
    assert SubEnd(|x|, pos, count) <= |x| by {
      SubEndInside(|x|, pos, count);
    }
  }

  lemma SubEndInside(size: nat, pos: nat, count: nat)
    ensures SubEnd(size, pos, count) <= size
  {
  }

  lemma SomeComponentIsOrdinary()
    ensures Ordinary(SOME_COMPONENT)
  {
  }

  /** Past either end the first component cannot be read. */
  lemma OutsideUnread(x: seq<Object>, pos: nat, count: nat, y: seq<Object>)
    requires |x| < TWO_31 && |x| < pos < TWO_64 - |x| && count > 0 && y == [SOME_COMPONENT]
    requires TakenCount(|y|, 0, NPOS) == 1
    ensures RangesCompared(x, pos, count, y, 0, NPOS).None?
  {
    Wraps((|x| as int) - pos);
    Wraps(pos);
  }

  /** A range that goes on after the components of getSubName is longer by a count that an int can tell from zero. */
  lemma UnsoundTail(x: seq<Object>, pos: nat, count: nat)
    requires OrdinaryName(x) && pos < TWO_64 && count < TWO_64 && !RangeSound(|x|, pos, count)
    requires pos <= |x| || TWO_64 - |x| <= pos
    ensures var y := SubName(x, pos, count);
      TakenCount(|y|, 0, NPOS) == |y| ==>
        var r := RangesCompared(x, pos, count, y, 0, NPOS);
        r.Some? && r.value != 0
  {
    hide RangesResult, Ordinary, Compare;
    var (y, c) := (SubName(x, pos, count), TakenCount(|x|, pos, count));
    UnsoundCount(|x|, pos, count);
    forall i | 0 <= i < |y|
      ensures Reads(x, pos + i, y[i]) && Reads(y, i, y[i])
    {
      UnsoundIndex(|x|, pos, count, i);
      Wraps(i);
    }
    SubNameOrdinary(x, pos, count);
    if TakenCount(|y|, 0, NPOS) == |y| {
      SamePrefix(x, pos, c, y, 0);
    }
  }

  lemma UnsoundCount(size: nat, pos: nat, count: nat)
    requires size < TWO_31 && pos < TWO_64 && count < TWO_64 && !RangeSound(size, pos, count)
    requires pos <= size || TWO_64 - size <= pos
    ensures var (i, j) := (SubStart(size, pos), SubEnd(size, pos, count));
      var n := if i < j then j - i else 0;
      0 < TakenCount(size, pos, count) - n < TWO_32 && j <= size
  {
    Wraps((size as int) - pos);
    Wraps(SubStart(size, pos) + count);
  }

  lemma UnsoundIndex(size: nat, pos: nat, count: nat, i: nat)
    requires size < TWO_31 && pos < TWO_64 && (pos <= size || TWO_64 - size <= pos)
    requires SubStart(size, pos) + i < SubEnd(size, pos, count)
    ensures GetIndex(size, pos + i) == Some(SubStart(size, pos) + i)
  {
    SubEndInside(size, pos, count);
    Wraps(pos + i);
  }

  lemma {:induction false} SamePrefix(x: seq<Object>, pos: nat, c: nat, y: seq<Object>, i: nat)
    requires i <= |y| < c && c - |y| < TWO_32 && OrdinaryName(y)
    requires forall k :: 0 <= k < |y| ==> Reads(x, pos + k, y[k]) && Reads(y, k, y[k])
    ensures var r := RangesResult(x, pos, c, y, 0, |y|, i); r.Some? && r.value != 0
    decreases |y| - i
  {
    hide Compare, Ordinary, GetIndex;
    if i < |y| {
      assert Reads(x, pos + i, y[i]) && Reads(y, i, y[i]);
      CompareAgrees(y[i], y[i]);
      SamePrefix(x, pos, c, y, i + 1);
    }
  }

  /** A start past the end of an empty name: one component that is not there counts against none. */
  method PastEndMiscounted() returns (r: Option<int>)
    ensures r == RangesCompared([], 1, 1, [], 0, 0) == Some(1) && !AsDocumented([], 1, 1, [], 0, 0)
  {
    Wraps(0 - 1);
    Wraps(0);
    r := CompareRanges([], 1, 1, [], 0, 0);
  }

  /** A count that wraps around from inside a name: getSubName is empty, compare goes to the end. */
  method WrappedCountMisled(x: seq<Object>) returns (r: Option<int>)
    requires |x| == 3
    ensures r == RangesCompared(x, 2, TWO_64 - 2, [], 0, 0) == Some(1) && SubName(x, 2, TWO_64 - 2) == []
    ensures !AsDocumented(x, 2, TWO_64 - 2, [], 0, 0)
  {
    Wraps(1);
    Wraps(0);
    Wraps(TWO_64);
    r := CompareRanges(x, 2, TWO_64 - 2, [], 0, 0);
  }

  /** The start -1 as a size_t: the last component, as documented. */
  method LastComponentCompared(a: Object) returns (r: Option<int>)
    requires Ordinary(a)
    ensures r == RangesCompared([a], TWO_64 - 1, 1, [a], 0, 1) && SubName([a], TWO_64 - 1, 1) == [a]
    ensures r == Some(0) && AsDocumented([a], TWO_64 - 1, 1, [a], 0, 1)
  {
    hide Ordinary, Compare, RangesResult;
    assert SubName([a], TWO_64 - 1, 1) == [a] by {
      Wraps(1);
    }
    CompareAgrees(a, a);
    LessIsTotalOrder(a.c, a.c, a.c);
    SoundRangesAgree([a], TWO_64 - 1, 1, [a], 0, 1);
    assert SubName([a], 0, 1) == [a] by {
      Wraps(1);
    }
    OrderIsAntisymmetric([a.c], [a.c]);
    assert Plain([a]) == [a.c];
    r := CompareRanges([a], TWO_64 - 1, 1, [a], 0, 1);
  }

  method IsPrefixOf(x: seq<Object>, y: seq<Object>) returns (r: bool)
    ensures r <==> Plain(x) <= Plain(y)
  {
    if |x| > |y| {
      return false;
    }
    for i := 0 to |x|
      invariant Plain(x)[..i] == Plain(y)[..i]
    {
      if x[i].c != y[i].c {
        assert Plain(x)[i] != Plain(y)[i];
        return false;
      }
    }
    assert Plain(x)[..|x|] == Plain(x);
    r := true;
  }

  method Equals(x: seq<Object>, y: seq<Object>) returns (r: bool)
    ensures r <==> Plain(x) == Plain(y)
    ensures OrdinaryName(x) && OrdinaryName(y) ==> (r <==> NameOrder(Plain(x), Plain(y)) == 0)
  {
    OrderIsAntisymmetric(Plain(x), Plain(y));
    if |x| != |y| {
      return false;
    }
    for i := 0 to |x|
      invariant Plain(x)[..i] == Plain(y)[..i]
    {
      if x[i].c != y[i].c {
        assert Plain(x)[i] != Plain(y)[i];
        return false;
      }
    }
    assert Plain(x)[..|x|] == Plain(x) && Plain(y)[..|x|] == Plain(y);
    r := true;
  }

  // ---- prefixes ----

  lemma {:induction false} PrefixIsNotAfter(x: Name, y: Name)
    requires x <= y
    ensures NameOrder(x, y) <= 0
  {
    if x != [] {
      LessIsTotalOrder(x[0], y[0], x[0]);
      PrefixIsNotAfter(x[1..], y[1..]);
    }
  }

  lemma PrefixCons(x: Name, y: Name)
    requires x != [] && y != []
    ensures x <= y <==> x[0] == y[0] && x[1..] <= y[1..]
  {
    assert x == [x[0]] + x[1..] && y == [y[0]] + y[1..];
    if x[0] == y[0] && x[1..] <= y[1..] {
      assert y[..|x|] == [y[0]] + y[1..][..|x| - 1];
    }
  }

  /** Names under one prefix are consecutive: nothing else lies between the prefix and one of them. */
  lemma {:induction false} PrefixIsConvex(x: Name, y: Name, z: Name)
    requires NameOrder(x, y) <= 0 && NameOrder(y, z) <= 0 && x <= z
    ensures x <= y
  {
    if x != [] && y != [] {
      LessIsTotalOrder(x[0], y[0], z[0]);
      PrefixCons(x, z);
      PrefixIsConvex(x[1..], y[1..], z[1..]);
      PrefixCons(x, y);
    }
  }

  // ---- successors ----

  /** Name::getSuccessor. */
  function NameSuccessor(x: Name): Name {
    if x == [] then [Component(IMPLICIT_DIGEST, Zeros(DIGEST_SIZE))]
    else x[..|x| - 1] + [Successor(x[|x| - 1])]
  }

  /** The names from a non-empty name up to its successor are the names it is a prefix of. Only where the
      successor jumps over a digest of 0xFF octets do the two components there have to be valid. */
  lemma {:induction false} SuccessorBoundsPrefix(x: Name, z: Name)
    requires x != []
    requires Jumps(x[|x| - 1]) ==> Valid(x[|x| - 1]) && (|z| >= |x| ==> Valid(z[|x| - 1]))
    ensures NameOrder(x, z) <= 0 && Before(z, NameSuccessor(x)) <==> x <= z
  {
    hide Less, Successor, Valid, Jumps;
    var s := NameSuccessor(x);
    if z != [] {
      LessIsTotalOrder(x[0], z[0], s[0]);
      LessIsTotalOrder(z[0], s[0], x[0]);
      if |x| == 1 {
        SuccessorIsNext(x[0]);
        assert s == [Successor(x[0])] && s[1..] == [] && x[1..] == [];
        assert !(Less(x[0], z[0]) && Less(z[0], s[0]));
      } else {
        assert s[0] == x[0] && s[1..] == NameSuccessor(x[1..]);
        SuccessorBoundsPrefix(x[1..], z[1..]);
      }
      PrefixCons(x, z);
      if x[0] == z[0] {
        assert NameOrder(x, z) == NameOrder(x[1..], z[1..]);
        if |x| == 1 {
          assert NameOrder(z, s) < 0;
        } else {
          assert NameOrder(z, s) == NameOrder(z[1..], s[1..]);
        }
      } else {
        assert NameOrder(x, z) <= 0 ==> Less(x[0], z[0]);
        assert Less(x[0], z[0]) ==> NameOrder(z, s) >= 0;
      }
    }
  }

  /** The successor of the empty name is the least of the other names. */
  lemma EmptySuccessorIsLeast(z: Name)
    requires z != [] && ValidName(z)
    ensures NameOrder(NameSuccessor([]), z) <= 0
  {
    var s := NameSuccessor([]);
    LeastComponent(z[0]);
    LessIsTotalOrder(s[0], z[0], s[0]);
  }

  lemma SuccessorIsAfter(x: Name)
    requires ValidName(x)
    ensures ValidName(NameSuccessor(x)) && Before(x, NameSuccessor(x))
  {
    if x != [] {
      SuccessorIsNext(x[|x| - 1]);
      SuccessorBoundsPrefix(x, x);
      OrderIsAntisymmetric(x, x);
    }
  }

  /** "No name lies between a name and its successor" holds for the empty name only. */
  lemma NothingBetweenExact(x: Name)
    requires ValidName(x)
    ensures (forall z :: ValidName(z) ==> !(Before(x, z) && Before(z, NameSuccessor(x)))) <==> x == []
  {
    if x == [] {
      forall z | ValidName(z) && Before(x, z)
        ensures !Before(z, NameSuccessor(x))
      {
        EmptySuccessorIsLeast(z);
        OrderIsAntisymmetric(NameSuccessor([]), z);
      }
    } else {
      var z := x + [Component(GENERIC, [])];
      SuccessorBoundsPrefix(x, z);
      PrefixIsNotAfter(x, z);
      OrderIsAntisymmetric(x, z);
      assert ValidName(z) && Before(x, z) && Before(z, NameSuccessor(x));
    }
  }
}
