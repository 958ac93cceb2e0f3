/** The file allocation table: chains of clusters, freeing a chain, linking one. */
module FatTable {

  const FREE := 0
  const END_OF_CHAIN := 0xFFFF_FFFF

  /** The values at which both chain walkers stop, whatever the entry width. */
  predicate IsEnd(v: nat) {
    v == 0xFFFF_FFFF || v == 0xFFFF_FFF8 || v == 0xFFFF || v == 0xFFF8 || v == 0
  }

  predicate InTable(fat: seq<nat>, c: nat) {
    1 <= c < |fat|
  }

  /** The cluster ids 1, ..., n - 1. */
  function Ids(n: nat): (ids: set<nat>)
    ensures forall c: nat :: c in ids <==> 1 <= c < n
  {
    if n <= 1 then {} else Ids(n - 1) + {n - 1}
  }

  /** The clusters visited from c by a walker that has already visited seen. */
  function ChainFrom(fat: seq<nat>, c: nat, seen: set<nat>): (chain: seq<nat>)
    ensures forall x :: x in chain ==> InTable(fat, x) && x !in seen
    decreases Ids(|fat|) - seen
  {
    if c in seen || !InTable(fat, c) then []
    else if IsEnd(fat[c]) then [c]
    else [c] + ChainFrom(fat, fat[c], seen + {c})
  }

  /** The cluster list of the file or directory that starts at c. */
  function Chain(fat: seq<nat>, c: nat): (chain: seq<nat>)
    ensures forall x :: x in chain ==> InTable(fat, x)
  {
    ChainFrom(fat, c, {})
  }

  ghost predicate Distinct<T(!new)>(s: seq<T>) {
    forall i, j :: 0 <= i < j < |s| ==> s[i] != s[j]
  }

  ghost predicate Disjoint<T(!new)>(s: seq<T>, t: seq<T>) {
    forall x :: x in s ==> x !in t
  }

  lemma {:induction false} ChainDistinct(fat: seq<nat>, c: nat, seen: set<nat>)
    ensures Distinct(ChainFrom(fat, c, seen))
    decreases Ids(|fat|) - seen
  {
    if c in seen || !InTable(fat, c) || IsEnd(fat[c]) {
    } else {
      ChainDistinct(fat, fat[c], seen + {c});
      var rest := ChainFrom(fat, fat[c], seen + {c});
      assert c !in rest;
    }
  }

  /** A chain depends only on the entries of its own clusters. */
  lemma {:induction false} ChainFrame(fat: seq<nat>, fat': seq<nat>, c: nat, seen: set<nat>)
    requires |fat'| == |fat|
    requires forall x :: x in ChainFrom(fat, c, seen) ==> fat'[x] == fat[x]
    ensures ChainFrom(fat', c, seen) == ChainFrom(fat, c, seen)
    decreases Ids(|fat|) - seen
  {
    if c in seen || !InTable(fat, c) {
    } else if IsEnd(fat[c]) {
      assert c in ChainFrom(fat, c, seen);
    } else {
      assert c in ChainFrom(fat, c, seen);
      ChainFrame(fat, fat', fat[c], seen + {c});
    }
  }

  /** The walkers go from cluster a to cluster b. */
  ghost predicate Leads(fat: seq<nat>, a: nat, b: nat) {
    1 <= a < |fat| && fat[a] == b && b !in {0xFFFF_FFFF, 0xFFFF_FFF8, 0xFFFF, 0xFFF8, 0}
  }

  /** They end at cluster a: at an end marker, outside the table, or at a visited cluster. */
  ghost predicate Ends(fat: seq<nat>, a: nat, ch: seq<nat>, seen: set<nat>) {
    1 <= a < |fat| && (!Leads(fat, a, fat[a]) || fat[a] >= |fat| || fat[a] in ch || fat[a] in seen)
  }

  /** Whatever the table, a chain starts at c, follows the entries, and ends only where the
      walkers do. */
  lemma {:induction false} ChainIsWalk(fat: seq<nat>, c: nat, seen: set<nat>)
    ensures var ch := ChainFrom(fat, c, seen);
      && (ch == [] <==> c in seen || !(1 <= c < |fat|))
      && (ch != [] ==> ch[0] == c && Ends(fat, ch[|ch| - 1], ch, seen))
      && forall i :: 0 < i < |ch| ==> Leads(fat, ch[i - 1], ch[i])
    decreases Ids(|fat|) - seen
  {
    if c !in seen && InTable(fat, c) && !IsEnd(fat[c]) {
      ChainIsWalk(fat, fat[c], seen + {c});
      var rest := ChainFrom(fat, fat[c], seen + {c});
      var ch := [c] + rest;
      assert ChainFrom(fat, c, seen) == ch;
      assert c in ch && forall x :: x in rest ==> x in ch;
      forall i | 0 < i < |ch|
        ensures Leads(fat, ch[i - 1], ch[i])
      {
        assert ch[i] == rest[i - 1];
        if i > 1 {
          assert ch[i - 1] == rest[i - 2];
        }
      }
    }
  }

  lemma ChainHead(fat: seq<nat>, c: nat)
    ensures InTable(fat, c) <==> Chain(fat, c) != []
    ensures InTable(fat, c) ==> Chain(fat, c)[0] == c
  {
  }

  // ---------------------------------------------------------------- freeing

  /** The table with every entry named in cs set to FREE. */
  function Freed(fat: seq<nat>, cs: set<nat>): (r: seq<nat>)
    ensures |r| == |fat|
    ensures forall i :: 0 <= i < |fat| ==> r[i] == if i in cs then FREE else fat[i]
  {
    seq(|fat|, i requires 0 <= i < |fat| => if i in cs then FREE else fat[i])
  }

  function Elements<T>(s: seq<T>): (r: set<T>) {
    set x | x in s
  }

  function FreeChain(fat: seq<nat>, start: nat): (r: seq<nat>)
    ensures |r| == |fat|
  {
    Freed(fat, Elements(Chain(fat, start)))
  }

  // ---------------------------------------------------------------- linking

  predicate AllBelow(clusters: seq<nat>, n: nat) {
    forall i :: 0 <= i < |clusters| ==> clusters[i] < n
  }

  /** The value stored at position k when a chain is linked. */
  function NextOf(clusters: seq<nat>, last: nat, k: nat): nat
    requires k < |clusters|
  {
    if k + 1 < |clusters| then clusters[k + 1] else last
  }

  /** The table after the first k links of the chain have been written. */
  function LinkedTo(fat: seq<nat>, clusters: seq<nat>, last: nat, k: nat): (r: seq<nat>)
    requires k <= |clusters| && AllBelow(clusters, |fat|)
    ensures |r| == |fat|
  {
    if k == 0 then fat else LinkedTo(fat, clusters, last, k - 1)[clusters[k - 1] := NextOf(clusters, last, k - 1)]
  }

  function Linked(fat: seq<nat>, clusters: seq<nat>, last: nat): (r: seq<nat>)
    requires AllBelow(clusters, |fat|)
    ensures |r| == |fat|
  {
    LinkedTo(fat, clusters, last, |clusters|)
  }

  /** Linking distinct clusters stores each successor and touches no other entry. */
  lemma {:induction false} LinkedAt(fat: seq<nat>, clusters: seq<nat>, last: nat, k: nat)
    requires k <= |clusters| && Distinct(clusters) && AllBelow(clusters, |fat|)
    ensures forall i :: 0 <= i < k ==> LinkedTo(fat, clusters, last, k)[clusters[i]] == NextOf(clusters, last, i)
    ensures forall c :: 0 <= c < |fat| && c !in clusters[..k] ==> LinkedTo(fat, clusters, last, k)[c] == fat[c]
  {
    if k > 0 {
      LinkedAt(fat, clusters, last, k - 1);
      var before, after := LinkedTo(fat, clusters, last, k - 1), LinkedTo(fat, clusters, last, k);
      assert after == before[clusters[k - 1] := NextOf(clusters, last, k - 1)];
      assert clusters[..k] == clusters[..k - 1] + [clusters[k - 1]];
    }
  }

  /** Ids that end a walk although they can name real clusters of a 4-byte table. */
  predicate FalseEnd(c: nat) {
    c == 0xFFF8 || c == 0xFFFF
  }

  /** The clusters kept by a walk: everything before the first non-head false end. */
  function CutAt(clusters: seq<nat>, k: nat): (r: nat)
    requires 1 <= k <= |clusters|
    ensures k <= r <= |clusters|
    ensures forall i :: k <= i < r ==> !FalseEnd(clusters[i])
    ensures r < |clusters| ==> FalseEnd(clusters[r])
    decreases |clusters| - k
  {
    if k == |clusters| || FalseEnd(clusters[k]) then k else CutAt(clusters, k + 1)
  }

  ghost predicate Allocatable(fat: seq<nat>, clusters: seq<nat>) {
    && Distinct(clusters)
    && forall i :: 0 <= i < |clusters| ==> 2 <= clusters[i] < |fat|
  }

  /** Every cluster of the list holds its successor, the last one holds last. */
  ghost predicate Follows(fat: seq<nat>, clusters: seq<nat>, last: nat) {
    && Allocatable(fat, clusters)
    && forall i :: 0 <= i < |clusters| ==> fat[clusters[i]] == NextOf(clusters, last, i)
  }

  lemma {:induction false} WalkLinks(fat: seq<nat>, clusters: seq<nat>, last: nat, k: nat, seen: set<nat>)
    requires Follows(fat, clusters, last) && k < |clusters| && IsEnd(last) && |fat| <= 0xFFFF_FFF8
    requires forall i :: k <= i < |clusters| ==> clusters[i] !in seen
    ensures ChainFrom(fat, clusters[k], seen) == clusters[k..CutAt(clusters, k + 1)]
    decreases |clusters| - k
  {
    var c := clusters[k];
    assert InTable(fat, c) && c !in seen;
    if k + 1 == |clusters| || FalseEnd(clusters[k + 1]) {
      assert IsEnd(fat[c]);
      assert clusters[k..k + 1] == [c];
    } else {
      assert fat[c] == clusters[k + 1] && !IsEnd(fat[c]);
      WalkLinks(fat, clusters, last, k + 1, seen + {c});
      assert clusters[k..CutAt(clusters, k + 1)] == [c] + clusters[k + 1..CutAt(clusters, k + 2)];
    }
  }

  /** The exact chain law: walking a freshly linked chain lists it up to the first
      non-head cluster whose id looks like an end marker. */
  lemma {:induction false} ChainOfLinked(fat: seq<nat>, clusters: seq<nat>, last: nat)
    requires Allocatable(fat, clusters) && clusters != [] && IsEnd(last) && |fat| <= 0xFFFF_FFF8
    ensures Chain(Linked(fat, clusters, last), clusters[0]) == clusters[..CutAt(clusters, 1)]
    ensures |fat| < 0xFFF4 ==> CutAt(clusters, 1) == |clusters|
  {
    LinkedAt(fat, clusters, last, |clusters|);
    WalkLinks(Linked(fat, clusters, last), clusters, last, 0, {});
  }
}
