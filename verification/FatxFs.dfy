/** The file system seen abstractly: an allocation table and, for each directory
    cluster, the map of its entries. States the invariant that rules out cross-links
    and proves that the four elementary changes keep it. */
module FatxFs {
  import opened FatTable
  import opened FatAlloc
  import opened FatDirectory

  const ROOT_CLUSTER := 1

  datatype Fs = Fs(fat: seq<nat>, dirs: map<nat, map<string, Meta>>)

  ghost predicate Has(fs: Fs, d: nat, k: string) {
    d in fs.dirs && k in fs.dirs[d]
  }

  function At(fs: Fs, d: nat, k: string): Meta
    requires Has(fs, d, k)
  {
    fs.dirs[d][k]
  }

  function ChainOf(fs: Fs, d: nat, k: string): seq<nat>
    requires Has(fs, d, k)
  {
    Chain(fs.fat, At(fs, d, k).cluster)
  }

  /** The chain of an entry consists of allocated clusters, none of them the root,
      and none of them a directory unless it is the entry's own head. */
  ghost predicate Owned(fs: Fs, d: nat, k: string)
    requires Has(fs, d, k)
  {
    var m := At(fs, d, k);
    && (forall c :: c in ChainOf(fs, d, k) ==> OwnedCluster(fs, m, c))
    && (m.IsDir() ==> m.cluster in fs.dirs && m.cluster != ROOT_CLUSTER)
  }

  ghost predicate OwnedCluster(fs: Fs, m: Meta, c: nat) {
    2 <= c < |fs.fat| && fs.fat[c] != FREE && (c in fs.dirs ==> m.IsDir() && c == m.cluster)
  }

  ghost predicate DirCluster(fs: Fs, d: nat) {
    1 <= d < |fs.fat| && (d != ROOT_CLUSTER ==> fs.fat[d] != FREE)
  }

  /** No cross-links: every directory cluster is allocated, every entry owns its
      chain, and the chains of different entries are disjoint. */
  ghost predicate Inv(fs: Fs) {
    && ROOT_CLUSTER in fs.dirs
    && (forall d :: d in fs.dirs ==> DirCluster(fs, d))
    && (forall d, k :: Has(fs, d, k) ==> Owned(fs, d, k))
    && (forall d1, k1, d2, k2 :: Has(fs, d1, k1) && Has(fs, d2, k2) && (d1 != d2 || k1 != k2) ==>
          Disjoint(ChainOf(fs, d1, k1), ChainOf(fs, d2, k2)))
  }

  /** The entry is there before and after, with the same fields and the same chain. */
  ghost predicate Kept(fs: Fs, fs': Fs, d: nat, k: string) {
    Has(fs, d, k) && Has(fs', d, k) && At(fs', d, k) == At(fs, d, k) && ChainOf(fs', d, k) == ChainOf(fs, d, k)
  }

  // ------------------------------------------------------------------ removal

  /** Removing an entry frees its chain; a removed directory is no longer listed. */
  ghost function Removed(fs: Fs, d: nat, k: string): Fs
    requires Has(fs, d, k)
  {
    var m := At(fs, d, k);
    var dirs := fs.dirs[d := fs.dirs[d] - {k}];
    Fs(FreeChain(fs.fat, m.cluster), if m.IsDir() then dirs - {m.cluster} else dirs)
  }

  lemma RemovedKeepsOther(fs: Fs, d: nat, k: string, d2: nat, k2: string)
    requires Inv(fs) && Has(fs, d, k) && (d2 != d || k2 != k)
    requires Has(fs, d2, k2) && Has(Removed(fs, d, k), d2, k2)
    ensures Kept(fs, Removed(fs, d, k), d2, k2)
    ensures Owned(Removed(fs, d, k), d2, k2)
  {
    var fs' := Removed(fs, d, k);
    var ch2 := ChainOf(fs, d2, k2);
    assert Disjoint(ch2, ChainOf(fs, d, k));
    ChainFrame(fs.fat, fs'.fat, At(fs, d2, k2).cluster, {});
    assert ChainOf(fs', d2, k2) == ch2;
    var m, m2 := At(fs, d, k), At(fs, d2, k2);
    assert Owned(fs, d2, k2) && Owned(fs, d, k);
    if m2.IsDir() {
      assert DirCluster(fs, m2.cluster);
      ChainHead(fs.fat, m2.cluster);
      if m.IsDir() {
        ChainHead(fs.fat, m.cluster);
        assert DirCluster(fs, m.cluster);
        assert m2.cluster in ch2 && m.cluster in ChainOf(fs, d, k);
      }
    }
    forall c | c in ch2
      ensures OwnedCluster(fs', m2, c)
    {
      assert OwnedCluster(fs, m2, c);
    }
  }

  lemma RemovedInv(fs: Fs, d: nat, k: string)
    requires Inv(fs) && Has(fs, d, k)
    requires At(fs, d, k).IsDir() ==> At(fs, d, k).cluster != d
    ensures Inv(Removed(fs, d, k))
  {
    var fs' := Removed(fs, d, k);
    var m := At(fs, d, k);
    assert Owned(fs, d, k);
    forall c | c in ChainOf(fs, d, k) && c in fs.dirs
      ensures m.IsDir() && c == m.cluster
    {
      assert OwnedCluster(fs, m, c);
    }
    forall d2 | d2 in fs'.dirs
      ensures DirCluster(fs', d2)
    {
      assert DirCluster(fs, d2);
    }
    forall d2, k2 | Has(fs', d2, k2)
      ensures (d2 != d || k2 != k) && Has(fs, d2, k2)
      ensures Kept(fs, fs', d2, k2) && Owned(fs', d2, k2)
    {
      RemovedKeepsOther(fs, d, k, d2, k2);
    }
    KeptDisjoint(fs, fs');
  }

  lemma KeptDisjoint(fs: Fs, fs': Fs)
    requires Inv(fs) && forall d, k :: Has(fs', d, k) ==> Kept(fs, fs', d, k)
    ensures forall d1, k1, d2, k2 :: Has(fs', d1, k1) && Has(fs', d2, k2) && (d1 != d2 || k1 != k2) ==>
              Disjoint(ChainOf(fs', d1, k1), ChainOf(fs', d2, k2))
  {
    forall d1, k1, d2, k2 | Has(fs', d1, k1) && Has(fs', d2, k2) && (d1 != d2 || k1 != k2)
      ensures Disjoint(ChainOf(fs', d1, k1), ChainOf(fs', d2, k2))
    {
      assert Kept(fs, fs', d1, k1) && Kept(fs, fs', d2, k2);
    }
  }

  // --------------------------------------------------------------- allocation

  /** The tables differ only at clusters that were free, and these are free no more. */
  ghost predicate Claims(fat: seq<nat>, fat': seq<nat>, cs: seq<nat>) {
    && |fat'| == |fat|
    && (forall i :: 0 <= i < |cs| ==> IsFree(fat, cs[i]))
    && (forall c :: 0 <= c < |fat| ==> if c in cs then fat'[c] != FREE else fat'[c] == fat[c])
  }

  lemma ClaimedKeeps(fs: Fs, fat': seq<nat>, cs: seq<nat>, d: nat, k: string)
    requires Inv(fs) && Claims(fs.fat, fat', cs) && Has(fs, d, k)
    ensures Kept(fs, fs.(fat := fat'), d, k) && Owned(fs.(fat := fat'), d, k)
    ensures Disjoint(ChainOf(fs, d, k), cs)
  {
    var ch := ChainOf(fs, d, k);
    assert Owned(fs, d, k);
    forall c | c in ch
      ensures c !in cs && fat'[c] == fs.fat[c]
    {
      assert OwnedCluster(fs, At(fs, d, k), c);
    }
    ChainFrame(fs.fat, fat', At(fs, d, k).cluster, {});
    forall c | c in ch
      ensures OwnedCluster(fs.(fat := fat'), At(fs, d, k), c)
    {
      assert OwnedCluster(fs, At(fs, d, k), c);
    }
  }

  lemma ClaimedInv(fs: Fs, fat': seq<nat>, cs: seq<nat>)
    requires Inv(fs) && Claims(fs.fat, fat', cs)
    ensures Inv(fs.(fat := fat'))
    ensures forall i :: 0 <= i < |cs| ==> cs[i] !in fs.dirs
  {
    var fs' := fs.(fat := fat');
    forall d | d in fs'.dirs
      ensures DirCluster(fs', d) && d !in cs
    {
      assert DirCluster(fs, d);
    }
    forall d, k | Has(fs', d, k)
      ensures Kept(fs, fs', d, k) && Owned(fs', d, k)
    {
      ClaimedKeeps(fs, fat', cs, d, k);
    }
    KeptDisjoint(fs, fs');
  }

  // ---------------------------------------------------------------- insertion

  /** The chain of a new entry is its own: allocated, not the root, and shared with
      no directory and no other entry. */
  ghost predicate Unshared(fs: Fs, ch: seq<nat>) {
    && (forall c :: c in ch ==> 2 <= c < |fs.fat| && fs.fat[c] != FREE && c !in fs.dirs)
    && (forall d, k :: Has(fs, d, k) ==> Disjoint(ChainOf(fs, d, k), ch))
  }

  /** A new entry; a new directory starts empty. */
  ghost function Inserted(fs: Fs, d: nat, k: string, m: Meta): Fs
    requires d in fs.dirs
  {
    var dirs := fs.dirs[d := fs.dirs[d][k := m]];
    Fs(fs.fat, if m.IsDir() then dirs[m.cluster := map[]] else dirs)
  }

  lemma InsertedHas(fs: Fs, d: nat, k: string, m: Meta, d2: nat, k2: string)
    requires d in fs.dirs && k !in fs.dirs[d] && (m.IsDir() ==> m.cluster !in fs.dirs)
    ensures Has(Inserted(fs, d, k, m), d2, k2) <==> Has(fs, d2, k2) || (d2 == d && k2 == k)
    ensures Has(Inserted(fs, d, k, m), d, k) && At(Inserted(fs, d, k, m), d, k) == m
    ensures Has(fs, d2, k2) ==> Kept(fs, Inserted(fs, d, k, m), d2, k2)
  {
  }

  lemma InsertedInv(fs: Fs, d: nat, k: string, m: Meta)
    requires Inv(fs) && d in fs.dirs && k !in fs.dirs[d]
    requires Unshared(fs, Chain(fs.fat, m.cluster))
    requires m.IsDir() ==> InTable(fs.fat, m.cluster)
    ensures m.IsDir() ==> m.cluster !in fs.dirs
    ensures Inv(Inserted(fs, d, k, m))
  {
    var fs' := Inserted(fs, d, k, m);
    var ch := Chain(fs.fat, m.cluster);
    if m.IsDir() {
      ChainHead(fs.fat, m.cluster);
      assert m.cluster in ch;
    }
    forall d2 | d2 in fs'.dirs
      ensures DirCluster(fs', d2)
    {
      if d2 in fs.dirs {
        assert DirCluster(fs, d2);
      }
    }
    forall d2, k2 | Has(fs', d2, k2)
      ensures Has(fs, d2, k2) || (d2 == d && k2 == k)
      ensures Has(fs, d2, k2) ==> Kept(fs, fs', d2, k2)
      ensures Owned(fs', d2, k2)
    {
      InsertedHas(fs, d, k, m, d2, k2);
      if Has(fs, d2, k2) {
        InsertedOwned(fs, d, k, m, d2, k2);
      }
    }
    forall d1, k1, d2, k2 | Has(fs', d1, k1) && Has(fs', d2, k2) && (d1 != d2 || k1 != k2)
      ensures Disjoint(ChainOf(fs', d1, k1), ChainOf(fs', d2, k2))
    {
      InsertedHas(fs, d, k, m, d1, k1);
      InsertedHas(fs, d, k, m, d2, k2);
    }
  }

  lemma InsertedOwned(fs: Fs, d: nat, k: string, m: Meta, d2: nat, k2: string)
    requires Inv(fs) && d in fs.dirs && k !in fs.dirs[d] && Has(fs, d2, k2)
    requires Unshared(fs, Chain(fs.fat, m.cluster))
    requires m.IsDir() ==> m.cluster !in fs.dirs && m.cluster in Chain(fs.fat, m.cluster)
    ensures Has(Inserted(fs, d, k, m), d2, k2) && Owned(Inserted(fs, d, k, m), d2, k2)
  {
    InsertedHas(fs, d, k, m, d2, k2);
    var fs' := Inserted(fs, d, k, m);
    assert Owned(fs, d2, k2);
    assert Disjoint(ChainOf(fs, d2, k2), Chain(fs.fat, m.cluster));
    forall c | c in ChainOf(fs', d2, k2)
      ensures OwnedCluster(fs', At(fs', d2, k2), c)
    {
      assert OwnedCluster(fs, At(fs, d2, k2), c);
    }
  }
}
