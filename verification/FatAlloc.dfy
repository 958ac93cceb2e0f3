/** The three cluster allocators: first fit, contiguous and deliberately fragmented. */
module FatAlloc {
  import opened Bytes
  import opened FatTable

  datatype Layout = Normal | Contiguous | Fragmented

  predicate IsFree(fat: seq<nat>, c: nat) {
    2 <= c < |fat| && fat[c] == FREE
  }

  /** The free cluster ids from lo on, in increasing order. */
  function FreeIds(fat: seq<nat>, lo: nat): (ids: seq<nat>)
    decreases |fat| - lo
  {
    if lo >= |fat| then []
    else (if fat[lo] == FREE then [lo] else []) + FreeIds(fat, lo + 1)
  }

  ghost predicate Increasing(s: seq<nat>) {
    forall i, j :: 0 <= i < j < |s| ==> s[i] < s[j]
  }

  lemma {:induction false} FreeIdsFrom(fat: seq<nat>, lo: nat)
    ensures Increasing(FreeIds(fat, lo))
    ensures forall c :: c in FreeIds(fat, lo) <==> lo <= c < |fat| && fat[c] == FREE
    decreases |fat| - lo
  {
    if lo < |fat| {
      FreeIdsFrom(fat, lo + 1);
      var rest := FreeIds(fat, lo + 1);
      if fat[lo] == FREE {
        var ids := [lo] + rest;
        assert FreeIds(fat, lo) == ids;
        forall i, j | 0 <= i < j < |ids|
          ensures ids[i] < ids[j]
        {
          assert ids[j] == rest[j - 1] && rest[j - 1] in rest;
        }
        assert forall c :: c in ids <==> c == lo || c in rest;
      } else {
        assert FreeIds(fat, lo) == rest;
      }
    }
  }

  // ---------------------------------------------------------------- first fit

  function FirstFit(fat: seq<nat>, count: nat): Option<seq<nat>> {
    var ids := FreeIds(fat, 2);
    if |ids| < count then None else Some(ids[..count])
  }

  /** First fit returns the count smallest free ids, and fails exactly when no
      choice of count free ids exists. */
  lemma FirstFitIsLeast(fat: seq<nat>, count: nat)
    ensures FirstFit(fat, count).Some? ==>
              var cs := FirstFit(fat, count).value;
              && |cs| == count && Increasing(cs)
              && (forall c :: c in cs ==> IsFree(fat, c))
              && (forall c, d :: IsFree(fat, c) && c !in cs && d in cs ==> d < c)
    ensures FirstFit(fat, count).None? <==>
            forall cs: seq<nat> :: Distinct(cs) && (forall i :: 0 <= i < |cs| ==> IsFree(fat, cs[i])) ==> |cs| < count
  {
    var ids := FreeIds(fat, 2);
    FreeIdsFrom(fat, 2);
    if |ids| < count {
      forall cs: seq<nat> | Distinct(cs) && (forall i :: 0 <= i < |cs| ==> IsFree(fat, cs[i]))
        ensures |cs| < count
      {
        DistinctFits(cs, ids);
      }
    } else {
      var cs := ids[..count];
      forall i | 0 <= i < |cs|
        ensures IsFree(fat, cs[i])
      {
        assert ids[i] in ids;
      }
      assert Distinct(cs);
      forall c, d | IsFree(fat, c) && c !in cs && d in cs
        ensures d < c
      {
        assert c in ids;
        var i :| 0 <= i < |ids| && ids[i] == c;
        assert forall k :: 0 <= k < count ==> ids[k] == cs[k] && cs[k] in cs;
        assert i >= count;
      }
    }
  }

  /** A duplicate-free list of elements of t is no longer than t. */
  lemma {:induction false} DistinctFits(s: seq<nat>, t: seq<nat>)
    requires Distinct(s) && forall i :: 0 <= i < |s| ==> s[i] in t
    ensures |s| <= |t|
  {
    CardDistinct(s);
    CardAtMost(t);
    assert Elements(s) <= Elements(t);
    SubsetCard(Elements(s), Elements(t));
  }

  lemma {:induction false} CardDistinct(s: seq<nat>)
    requires Distinct(s)
    ensures |Elements(s)| == |s|
  {
    if s != [] {
      var n := |s| - 1;
      CardDistinct(s[..n]);
      assert Elements(s) == Elements(s[..n]) + {s[n]};
    }
  }

  lemma {:induction false} CardAtMost(s: seq<nat>)
    ensures |Elements(s)| <= |s|
  {
    if s != [] {
      var n := |s| - 1;
      CardAtMost(s[..n]);
      assert Elements(s) == Elements(s[..n]) + {s[n]};
    }
  }

  lemma {:induction false} SubsetCard<T>(a: set<T>, b: set<T>)
    requires a <= b
    ensures |a| <= |b|
  {
    assert b == a + (b - a);
  }

  // --------------------------------------------------------------- contiguous

  predicate Window(fat: seq<nat>, start: nat, count: nat) {
    2 <= start && start + count <= |fat| && forall c :: start <= c < start + count ==> fat[c] == FREE
  }

  function FirstWindow(fat: seq<nat>, count: nat, from: nat): Option<nat>
    decreases |fat| - from
  {
    if from + count > |fat| || from >= |fat| then None
    else if Window(fat, from, count) then Some(from)
    else FirstWindow(fat, count, from + 1)
  }

  function Consecutive(start: nat, count: nat): (cs: seq<nat>)
    ensures |cs| == count && forall i :: 0 <= i < count ==> cs[i] == start + i
  {
    seq(count, i => start + i)
  }

  function ContiguousFit(fat: seq<nat>, count: nat): Option<seq<nat>> {
    match FirstWindow(fat, count, 2)
    case None => None
    case Some(start) => Some(Consecutive(start, count))
  }

  /** The contiguous allocator takes the least feasible window, and fails exactly
      when no window of count free clusters exists. */
  lemma {:induction false} FirstWindowIsLeast(fat: seq<nat>, count: nat, from: nat)
    requires count >= 1 && from >= 2
    ensures FirstWindow(fat, count, from).Some? ==>
              && Window(fat, FirstWindow(fat, count, from).value, count)
              && from <= FirstWindow(fat, count, from).value
              && forall s: nat :: from <= s < FirstWindow(fat, count, from).value ==> !Window(fat, s, count)
    ensures FirstWindow(fat, count, from).None? <==> forall s: nat :: s >= from ==> !Window(fat, s, count)
    decreases |fat| - from
  {
    if from + count <= |fat| && from < |fat| && !Window(fat, from, count) {
      FirstWindowIsLeast(fat, count, from + 1);
    }
  }

  // --------------------------------------------------------------- fragmented

  function Max(a: int, b: int): int {
    if a >= b then a else b
  }

  /** Every step-th id from cursor on, at most need of them. */
  function Strided(ids: seq<nat>, cursor: nat, step: nat, need: nat): (r: seq<nat>)
    requires step >= 1
    ensures |r| <= need
    decreases |ids| - cursor
  {
    if need == 0 || cursor >= |ids| then []
    else [ids[cursor]] + Strided(ids, cursor + step, step, need - 1)
  }

  /** The ids from position i on that are not used yet, at most need of them. */
  function Unused(ids: seq<nat>, used: set<nat>, i: nat, need: nat): (r: seq<nat>)
    decreases |ids| - i
  {
    if need == 0 || i >= |ids| then []
    else if ids[i] in used then Unused(ids, used, i + 1, need)
    else [ids[i]] + Unused(ids, used, i + 1, need - 1)
  }

  function Spread(ids: seq<nat>, count: nat, step: nat): seq<nat>
    requires step >= 1
  {
    var first := Strided(ids, 0, step, count);
    first + Unused(ids, Elements(first), 0, count - |first|)
  }

  function FragmentedFit(fat: seq<nat>, count: nat, stride: int): Option<seq<nat>> {
    var ids := FreeIds(fat, 2);
    if |ids| < count then None else Some(Spread(ids, count, Max(2, stride)))
  }

  lemma {:induction false} StridedMembers(ids: seq<nat>, cursor: nat, step: nat, need: nat)
    requires step >= 1 && Increasing(ids)
    ensures var r := Strided(ids, cursor, step, need);
      && Increasing(r)
      && forall i :: 0 <= i < |r| ==> cursor < |ids| && ids[cursor] <= r[i] && r[i] in ids
    decreases |ids| - cursor
  {
    if need > 0 && cursor < |ids| {
      StridedMembers(ids, cursor + step, step, need - 1);
      var rest := Strided(ids, cursor + step, step, need - 1);
      var r := [ids[cursor]] + rest;
      assert Strided(ids, cursor, step, need) == r;
      assert forall i :: 1 <= i < |r| ==> r[i] == rest[i - 1];
      assert cursor + step < |ids| ==> ids[cursor] < ids[cursor + step];
    }
  }

  /** Position i of the result is position cursor + step * i of ids. */
  lemma {:induction false} StridedAt(ids: seq<nat>, cursor: nat, step: nat, need: nat)
    requires step >= 1
    ensures var r := Strided(ids, cursor, step, need);
      && (forall i :: 0 <= i < |r| ==> cursor + step * i < |ids| && r[i] == ids[cursor + step * i])
      && (|r| == need || cursor + step * |r| >= |ids|)
    decreases |ids| - cursor
  {
    if need > 0 && cursor < |ids| {
      StridedAt(ids, cursor + step, step, need - 1);
      var rest := Strided(ids, cursor + step, step, need - 1);
      var r := [ids[cursor]] + rest;
      forall i | 0 <= i < |r|
        ensures cursor + step * i < |ids| && r[i] == ids[cursor + step * i]
      {
        if i > 0 {
          assert r[i] == rest[i - 1];
          Distribute(cursor, step, i);
        }
      }
      Distribute(cursor, step, |r|);
    }
  }

  lemma Distribute(cursor: nat, step: nat, i: nat)
    requires i > 0
    ensures cursor + step + step * (i - 1) == cursor + step * i
  {
  }

  /** How many positions from i on hold a used id. */
  function UsedCount(ids: seq<nat>, used: set<nat>, i: nat): nat
    decreases |ids| - i
  {
    if i >= |ids| then 0
    else (if ids[i] in used then 1 else 0) + UsedCount(ids, used, i + 1)
  }

  lemma {:induction false} UnusedElements(ids: seq<nat>, used: set<nat>, i: nat, need: nat)
    requires Increasing(ids) && i <= |ids|
    ensures var r := Unused(ids, used, i, need);
      && Increasing(r)
      && (forall k :: 0 <= k < |r| ==> r[k] in ids[i..] && r[k] !in used)
      && |r| == (if need <= |ids| - i - UsedCount(ids, used, i) then need else |ids| - i - UsedCount(ids, used, i))
    ensures UsedCount(ids, used, i) <= |ids| - i
    decreases |ids| - i
  {
    if i < |ids| {
      var need' := if ids[i] in used || need == 0 then need else need - 1;
      UnusedElements(ids, used, i + 1, need');
      var rest := Unused(ids, used, i + 1, need');
      assert ids[i..] == [ids[i]] + ids[i + 1..];
      assert forall k :: 0 <= k < |rest| ==> rest[k] in ids[i..];
    }
  }

  lemma {:induction false} UsedAtMost(ids: seq<nat>, used: set<nat>, i: nat)
    requires Increasing(ids)
    ensures UsedCount(ids, used, i) <= |used|
    decreases |ids| - i
  {
    if i < |ids| {
      if ids[i] in used {
        UsedAtMost(ids, used - {ids[i]}, i + 1);
        SameCount(ids, used, used - {ids[i]}, i + 1);
      } else {
        UsedAtMost(ids, used, i + 1);
      }
    }
  }

  lemma {:induction false} SameCount(ids: seq<nat>, a: set<nat>, b: set<nat>, i: nat)
    requires forall k :: i <= k < |ids| ==> (ids[k] in a <==> ids[k] in b)
    ensures UsedCount(ids, a, i) == UsedCount(ids, b, i)
    decreases |ids| - i
  {
    if i < |ids| {
      SameCount(ids, a, b, i + 1);
    }
  }

  /** Fragmented allocation is total once enough clusters are free: exactly count
      distinct free ids, so the length check after the second loop cannot fail. */
  lemma {:induction false} SpreadIsTotal(ids: seq<nat>, count: nat, step: nat)
    requires Increasing(ids) && count <= |ids| && step >= 1
    ensures var r := Spread(ids, count, step);
      && |r| == count && Distinct(r)
      && forall i :: 0 <= i < |r| ==> r[i] in ids
  {
    var first := Strided(ids, 0, step, count);
    var used := Elements(first);
    var rest := Unused(ids, used, 0, count - |first|);
    StridedMembers(ids, 0, step, count);
    UnusedElements(ids, used, 0, count - |first|);
    UsedAtMost(ids, used, 0);
    CardAtMost(first);
    assert ids[0..] == ids;
    forall i, j | 0 <= i < j < |first + rest|
      ensures (first + rest)[i] != (first + rest)[j]
    {
      if j >= |first| > i {
        assert first[i] in used && rest[j - |first|] !in used;
      }
    }
  }

  /** No step of the chain goes to the physically next cluster. */
  ghost predicate NoAdjacentStep(cs: seq<nat>) {
    forall i :: 0 <= i < |cs| - 1 ==> cs[i + 1] != cs[i] + 1
  }

  /** With every even position used, the unused ids are two positions apart. */
  lemma {:induction false} UnusedOdds(ids: seq<nat>, used: set<nat>, i: nat, need: nat)
    requires Increasing(ids) && i % 2 == 1
    requires forall k :: 0 <= k < |ids| ==> (ids[k] in used <==> k % 2 == 0)
    ensures var r := Unused(ids, used, i, need);
      && NoAdjacentStep(r)
      && (r != [] ==> i < |ids| && r[0] == ids[i])
    decreases |ids| - i
  {
    if need > 0 && i < |ids| {
      UnusedOdds(ids, used, i + 2, need - 1);
      var rest := Unused(ids, used, i + 2, need - 1);
      if need > 1 && i + 1 < |ids| {
        assert Unused(ids, used, i + 1, need - 1) == rest;
      } else {
        assert Unused(ids, used, i + 1, need - 1) == [];
      }
      var r := [ids[i]] + Unused(ids, used, i + 1, need - 1);
      assert Unused(ids, used, i, need) == r;
      forall k | 0 <= k < |r| - 1
        ensures r[k + 1] != r[k] + 1
      {
        if k == 0 {
          assert ids[i] < ids[i + 1] < ids[i + 2];
        } else {
          assert r[k] == rest[k - 1] && r[k + 1] == rest[k];
        }
      }
    }
  }

  /** With the default stride the result is truly fragmented whenever at least
      three clusters were free, or a single cluster is asked for. */
  lemma {:induction false} SpreadIsFragmented(ids: seq<nat>, count: nat)
    requires Increasing(ids) && count <= |ids| && (|ids| >= 3 || count <= 1)
    ensures NoAdjacentStep(Spread(ids, count, 2))
  {
    var first := Strided(ids, 0, 2, count);
    var used := Elements(first);
    var rest := Unused(ids, used, 0, count - |first|);
    StridedAt(ids, 0, 2, count);
    forall i | 0 <= i < |first| - 1
      ensures first[i] + 1 < first[i + 1]
    {
      var k := 2 * i;
      var next := first[i + 1];
      assert first[i] == ids[k] && k + 2 < |ids| && next == ids[k + 2];
      assert ids[k] < ids[k + 1] && ids[k + 1] < ids[k + 2];
    }
    if |first| < count {
      EvensUsed(ids, first);
      UnusedOdds(ids, used, 1, count - |first|);
      assert rest == Unused(ids, used, 1, count - |first|);
      var n := |first| - 1;
      assert 2 * n >= 2;
      assert first[n] == ids[2 * n] > ids[1];
    }
  }

  /** Exactly when the default stride fails to separate: both of the only two free
      clusters are wanted and lie side by side. */
  lemma FragmentedUnlessPair(ids: seq<nat>, count: nat)
    requires Increasing(ids) && count <= |ids|
    ensures NoAdjacentStep(Spread(ids, count, 2)) <==> !(|ids| == count == 2 && ids[1] == ids[0] + 1)
  {
    if |ids| >= 3 || count <= 1 {
      SpreadIsFragmented(ids, count);
    } else {
      assert Strided(ids, 0, 2, 2) == [ids[0]] + Strided(ids, 2, 2, 1) == [ids[0]];
      assert Unused(ids, {ids[0]}, 0, 1) == Unused(ids, {ids[0]}, 1, 1) == [ids[1]] + Unused(ids, {ids[0]}, 2, 0);
      assert Elements([ids[0]]) == {ids[0]};
      var cs := Spread(ids, 2, 2);
      assert |cs| == 2 && cs[0] == ids[0] && cs[1] == ids[1];
    }
  }

  /** The exact choice: position i holds the id at position step * i while there is one;
      the skipped ids follow in increasing order, the smallest of them first. */
  ghost predicate SpreadsBy(cs: seq<nat>, ids: seq<nat>, count: nat, step: nat) {
    && |cs| == count && Distinct(cs) && (forall c :: c in cs ==> c in ids)
    && (forall i :: 0 <= i < count && step * i < |ids| ==> cs[i] == ids[step * i])
    && (forall i, j :: 0 <= i < j < count && step * i >= |ids| ==> cs[i] < cs[j])
    && (forall i, c :: 0 <= i < count && step * i >= |ids| && c in ids && c !in cs ==> cs[i] < c)
  }

  lemma {:induction false} UnusedAreLeast(ids: seq<nat>, used: set<nat>, i: nat, need: nat)
    requires Increasing(ids) && i <= |ids|
    ensures forall d, c ::
              d in Unused(ids, used, i, need) && c in ids[i..] && c !in used && c !in Unused(ids, used, i, need) ==> d < c
    decreases |ids| - i
  {
    if need > 0 && i < |ids| {
      var need' := if ids[i] in used then need else need - 1;
      UnusedAreLeast(ids, used, i + 1, need');
      assert ids[i..] == [ids[i]] + ids[i + 1..];
      var rest := Unused(ids, used, i + 1, need');
      assert Unused(ids, used, i, need) == if ids[i] in used then rest else [ids[i]] + rest;
    }
  }

  /** Spreading makes exactly that choice, for every step. */
  lemma SpreadIsExact(ids: seq<nat>, count: nat, step: nat)
    requires Increasing(ids) && count <= |ids| && step >= 1
    ensures SpreadsBy(Spread(ids, count, step), ids, count, step)
  {
    hide Strided, Unused;
    var first := Strided(ids, 0, step, count);
    var used := Elements(first);
    var rest := Unused(ids, used, 0, count - |first|);
    var cs := Spread(ids, count, step);
    assert cs == first + rest;
    SpreadIsTotal(ids, count, step);
    StridedAt(ids, 0, step, count);
    UnusedElements(ids, used, 0, count - |first|);
    UnusedAreLeast(ids, used, 0, count - |first|);
    forall i | 0 <= i < count
      ensures step * i < |ids| ==> i < |first|
    {
      if i >= |first| {
        Grows(step, |first|, i);
      }
    }
    assert ids[0..] == ids;
    assert forall i :: |first| <= i < count ==> cs[i] == rest[i - |first|] && cs[i] in rest;
  }

  lemma Grows(step: nat, i: nat, j: nat)
    requires i <= j
    ensures step * i <= step * j
  {
  }

  lemma EvensUsed(ids: seq<nat>, first: seq<nat>)
    requires Increasing(ids) && 2 * |first| >= |ids|
    requires forall i :: 0 <= i < |first| ==> 2 * i < |ids| && first[i] == ids[2 * i]
    ensures forall k :: 0 <= k < |ids| ==> (ids[k] in Elements(first) <==> k % 2 == 0)
  {
    forall k | 0 <= k < |ids|
      ensures ids[k] in Elements(first) <==> k % 2 == 0
    {
      if k % 2 == 0 {
        assert first[k / 2] == ids[2 * (k / 2)];
      } else {
        assert forall i :: 0 <= i < |first| ==> first[i] == ids[2 * i] != ids[k];
      }
    }
  }

  // ------------------------------------------------------------ all layouts

  const DEFAULT_STRIDE := 2

  function Allocation(fat: seq<nat>, count: nat, layout: Layout): Option<seq<nat>> {
    match layout
    case Normal => FirstFit(fat, count)
    case Contiguous => ContiguousFit(fat, count)
    case Fragmented => FragmentedFit(fat, count, DEFAULT_STRIDE)
  }

  /** Whatever the layout, an allocation is count distinct clusters, all free before. */
  lemma AllocationIsFresh(fat: seq<nat>, count: nat, layout: Layout)
    requires count >= 1 && Allocation(fat, count, layout).Some?
    ensures var cs := Allocation(fat, count, layout).value;
      && |cs| == count && Allocatable(fat, cs)
      && forall i :: 0 <= i < |cs| ==> IsFree(fat, cs[i])
  {
    FreeIdsFrom(fat, 2);
    match layout
    case Normal => FirstFitIsLeast(fat, count);
      assert forall i :: 0 <= i < count ==> Allocation(fat, count, layout).value[i] in Allocation(fat, count, layout).value;
    case Contiguous => FirstWindowIsLeast(fat, count, 2);
    case Fragmented => SpreadIsTotal(FreeIds(fat, 2), count, 2);
  }

  /** The free clusters, and how many there are. */
  ghost function FreeSet(fat: seq<nat>): set<nat> {
    set c: nat | c < |fat| && IsFree(fat, c)
  }

  ghost function FreeCount(fat: seq<nat>): nat {
    |FreeSet(fat)|
  }

  lemma FreeSetIs(fat: seq<nat>)
    ensures Elements(FreeIds(fat, 2)) == FreeSet(fat)
    ensures |FreeIds(fat, 2)| == FreeCount(fat)
  {
    FreeIdsFrom(fat, 2);
    CardDistinct(FreeIds(fat, 2));
  }

  /** Normal and fragmented allocation fail exactly when fewer clusters are free than are
      needed, contiguous allocation exactly when no window of free clusters is long enough. */
  lemma AllocationFails(fat: seq<nat>, count: nat, layout: Layout)
    requires count >= 1
    ensures layout != Contiguous ==> (Allocation(fat, count, layout).None? <==> FreeCount(fat) < count)
    ensures layout == Contiguous ==>
              (Allocation(fat, count, layout).None? <==> forall s: nat :: !Window(fat, s, count))
  {
    FreeSetIs(fat);
    FirstWindowIsLeast(fat, count, 2);
  }

  ghost predicate TakesLeast(fat: seq<nat>, cs: seq<nat>, count: nat) {
    && |cs| == count && Increasing(cs) && (forall c :: c in cs ==> IsFree(fat, c))
    && (forall c, d :: IsFree(fat, c) && c !in cs && d in cs ==> d < c)
  }

  ghost predicate TakesLeastWindow(fat: seq<nat>, cs: seq<nat>, count: nat) {
    && |cs| == count && cs != [] && (forall i :: 0 <= i < count ==> cs[i] == cs[0] + i)
    && Window(fat, cs[0], count) && (forall s: nat :: s < cs[0] ==> !Window(fat, s, count))
  }

  /** The only two free clusters are wanted, and they lie side by side. */
  ghost predicate OnlyPair(fat: seq<nat>, count: nat) {
    count == 2 == FreeCount(fat) && exists c: nat :: IsFree(fat, c) && IsFree(fat, c + 1)
  }

  lemma FragmentedFitIsExact(fat: seq<nat>, count: nat, stride: int)
    ensures var ids := FreeIds(fat, 2);
      && Increasing(ids) && (forall c :: c in ids <==> IsFree(fat, c)) && |ids| == FreeCount(fat)
    ensures FragmentedFit(fat, count, stride).None? <==> FreeCount(fat) < count
    ensures FragmentedFit(fat, count, stride).Some? ==>
              SpreadsBy(FragmentedFit(fat, count, stride).value, FreeIds(fat, 2), count, if stride > 2 then stride else 2)
  {
    hide Spread, SpreadsBy;
    var ids := FreeIds(fat, 2);
    FreeIdsFrom(fat, 2);
    FreeSetIs(fat);
    if count <= |ids| {
      SpreadIsExact(ids, count, if stride > 2 then stride else 2);
    }
  }

  lemma OnlyPairIds(fat: seq<nat>, count: nat)
    ensures var ids := FreeIds(fat, 2);
      OnlyPair(fat, count) <==> |ids| == count == 2 && ids[1] == ids[0] + 1
  {
    var ids := FreeIds(fat, 2);
    FreeIdsFrom(fat, 2);
    FreeSetIs(fat);
    if OnlyPair(fat, count) {
      var c: nat :| IsFree(fat, c) && IsFree(fat, c + 1);
      assert c in ids && c + 1 in ids;
      assert ids[0] == c && ids[1] == c + 1;
    }
    if |ids| == count == 2 && ids[1] == ids[0] + 1 {
      assert ids[0] in ids && ids[1] in ids;
      assert IsFree(fat, ids[0]) && IsFree(fat, ids[0] + 1);
    }
  }

  /** Up to stride two, the allocator separates all clusters unless the only two free ones
      are wanted and adjacent. */
  lemma FragmentedFitSeparates(fat: seq<nat>, count: nat, stride: int)
    requires stride <= 2 && FragmentedFit(fat, count, stride).Some?
    ensures NoAdjacentStep(FragmentedFit(fat, count, stride).value) <==> !OnlyPair(fat, count)
  {
    hide Spread, NoAdjacentStep, OnlyPair;
    FreeIdsFrom(fat, 2);
    FragmentedUnlessPair(FreeIds(fat, 2), count);
    OnlyPairIds(fat, count);
  }

  /** Which clusters each layout takes: the least free ones, the window at the least start,
      or every second free one and then the ones in between. */
  lemma AllocationIsExact(fat: seq<nat>, count: nat, layout: Layout)
    requires count >= 1 && Allocation(fat, count, layout).Some?
    ensures var cs := Allocation(fat, count, layout).value;
      match layout
      case Normal => TakesLeast(fat, cs, count)
      case Contiguous => TakesLeastWindow(fat, cs, count)
      case Fragmented =>
        SpreadsBy(cs, FreeIds(fat, 2), count, 2) && (NoAdjacentStep(cs) <==> !OnlyPair(fat, count))
  {
    hide SpreadsBy, NoAdjacentStep, OnlyPair, FragmentedFit;
    match layout
    case Normal => FirstFitIsLeast(fat, count);
    case Contiguous => FirstWindowIsLeast(fat, count, 2);
    case Fragmented =>
      FragmentedFitIsExact(fat, count, DEFAULT_STRIDE);
      FragmentedFitSeparates(fat, count, DEFAULT_STRIDE);
  }
}
