/** The end-to-end theorems about writing a file: what is written is what is read,
    and every other file still reads the same. */
module FatxRoundTrip {
  import opened Bytes
  import opened FatTable
  import opened FatAlloc
  import opened FatDirectory
  import opened FatSlot
  import opened FatxFs
  import opened FatxVolume
  import opened FatxSafety

  // ------------------------------------------------------------- cluster contents

  lemma {:induction false} WrittenAt(v: Volume, cs: seq<nat>, data: seq<byte>, k: nat)
    requires v.Valid() && k <= |cs| && AllBelow(cs, |v.fat|) && Distinct(cs)
    ensures forall i :: 0 <= i < k ==>
              WrittenTo(v, cs, data, k)[cs[i]] == PadRight(Chunk(data, i, v.clusterSize), v.clusterSize)
    ensures forall c :: 0 <= c < |v.data| && c !in cs[..k] ==> WrittenTo(v, cs, data, k)[c] == v.data[c]
  {
    hide PadRight, Chunk;
    if k > 0 {
      WrittenAt(v, cs, data, k - 1);
      assert cs[..k] == cs[..k - 1] + [cs[k - 1]];
    }
  }

  lemma {:induction false} ContentSame(data: seq<seq<byte>>, data': seq<seq<byte>>, chain: seq<nat>)
    requires |data'| == |data| && AllBelow(chain, |data|)
    requires forall i :: 0 <= i < |chain| ==> data'[chain[i]] == data[chain[i]]
    ensures Content(data', chain) == Content(data, chain)
  {
    if chain != [] {
      ContentSame(data, data', chain[1..]);
    }
  }

  lemma {:induction false} ContentLength(data: seq<seq<byte>>, chain: seq<nat>, n: nat)
    requires AllBelow(chain, |data|) && forall i :: 0 <= i < |chain| ==> |data[chain[i]]| == n
    ensures |Content(data, chain)| == |chain| * n
  {
    if chain != [] {
      ContentLength(data, chain[1..], n);
      assert |chain| * n == n + |chain[1..]| * n;
    }
  }

  /** The clusters hold the bytes piece by piece, the last one padded with zeros. */
  ghost predicate Holds(data: seq<seq<byte>>, chain: seq<nat>, bytes: seq<byte>, n: nat) {
    && AllBelow(chain, |data|)
    && forall i :: 0 <= i < |chain| ==> data[chain[i]] == PadRight(Chunk(bytes, i, n), n)
  }

  lemma ChunkShift(bytes: seq<byte>, i: nat, n: nat)
    ensures Chunk(bytes[Min(n, |bytes|)..], i, n) == Chunk(bytes, i + 1, n)
  {
    assert (i + 1) * n == i * n + n;
  }

  /** Reading the clusters of a chain in order returns what was cut up to fill them. */
  lemma {:induction false} ContentPrefix(data: seq<seq<byte>>, chain: seq<nat>, bytes: seq<byte>, n: nat)
    requires Holds(data, chain, bytes, n) && |bytes| <= |chain| * n
    ensures bytes <= Content(data, chain)
  {
    if chain != [] {
      var rest := bytes[Min(n, |bytes|)..];
      forall i | 0 <= i < |chain| - 1
        ensures data[chain[1..][i]] == PadRight(Chunk(rest, i, n), n)
      {
        ChunkShift(bytes, i, n);
      }
      assert |chain| * n == n + (|chain| - 1) * n;
      assert (|chain| - 1) * n >= 0;
      ContentPrefix(data, chain[1..], rest, n);
      assert Chunk(bytes, 0, n) == bytes[..Min(n, |bytes|)];
      assert bytes == bytes[..Min(n, |bytes|)] + rest;
    }
  }

  /** The number of clusters is the least that holds the data, but at least one. */
  lemma ClustersForIsLeast(size: nat, n: nat)
    requires n > 0
    ensures size <= ClustersFor(size, n) * n
    ensures ClustersFor(size, n) > 1 ==> (ClustersFor(size, n) - 1) * n < size
  {
    var q := (size + n - 1) / n;
    assert size + n - 1 == q * n + (size + n - 1) % n;
    assert (q - 1) * n == q * n - n;
  }

  // ------------------------------------------------------------- placing a file

  /** Entry k of directory d names a file whose linked clusters hold data. */
  ghost predicate FileStored(v: Volume, dirs: set<nat>, d: nat, k: string, data: seq<byte>, cs: seq<nat>) {
    && Sound(v, dirs) && Has(Abs(v, dirs), d, k)
    && cs != [] && |cs| == ClustersFor(|data|, v.clusterSize)
    && At(Abs(v, dirs), d, k) == FileMeta(cs, data)
    && ChainOf(Abs(v, dirs), d, k) == cs[..CutAt(cs, 1)]
    && Holds(v.data, cs, data, v.clusterSize)
  }

  lemma ReadChain(v: Volume, m: Meta, data: seq<byte>, cs: seq<nat>)
    requires v.Valid() && cs != [] && |cs| == ClustersFor(|data|, v.clusterSize) && m.size == |data|
    requires Chain(v.fat, m.cluster) == cs[..CutAt(cs, 1)] && Holds(v.data, cs, data, v.clusterSize)
    ensures ReadFile(v, m) == if CutAt(cs, 1) == |cs| then Ok(data) else Err(ShortChain)
  {
    hide ClustersFor, Chunk, PadRight;
    var n := v.clusterSize;
    var cut := CutAt(cs, 1);
    ClustersForIsLeast(|data|, n);
    ContentLength(v.data, cs[..cut], n);
    if cut == |cs| {
      assert cs[..cut] == cs;
      ContentPrefix(v.data, cs, data, n);
      assert Content(v.data, cs)[..|data|] == data;
    } else {
      Monotone(cut, |cs| - 1, n);
      assert |Content(v.data, cs[..cut])| < |data|;
    }
  }

  lemma Monotone(a: nat, b: nat, n: nat)
    requires a <= b
    ensures a * n <= b * n
  {
  }

  /** Such a file reads back as its data exactly when no linked cluster other than the
      head looks like an end marker; otherwise the read reports a short chain. */
  lemma ReadStored(v: Volume, dirs: set<nat>, d: nat, k: string, data: seq<byte>, cs: seq<nat>)
    requires FileStored(v, dirs, d, k, data, cs)
    ensures ReadFile(v, At(Abs(v, dirs), d, k)) == if CutAt(cs, 1) == |cs| then Ok(data) else Err(ShortChain)
  {
    hide Inv, WellFormed, Cells, Listing, Chain, ReadFile, Holds;
    ReadChain(v, At(Abs(v, dirs), d, k), data, cs);
  }

  lemma PlaceUnfolds(v: Volume, d: nat, name: string, data: seq<byte>, cs: seq<nat>) returns (filled: Volume)
    requires v.Valid() && ValidName(name) && Allocatable(v.fat, cs) && cs != []
    ensures filled == LinkChain(v, cs).(data := WrittenTo(LinkChain(v, cs), cs, data, |cs|)) && filled.Valid()
    ensures var added := AddEntry(filled, d, name, Meta(ATTR_ARCHIVE, cs[0], |data|));
      Place(v, d, name, data, cs) == Step(added.vol, if added.result.Ok? then Ok(cs) else Err(added.result.error))
    ensures Holds(filled.data, cs, data, v.clusterSize)
    ensures forall c :: 0 <= c < |v.data| && c !in cs ==> filled.data[c] == v.data[c]
  {
    filled := LinkChain(v, cs).(data := WrittenTo(LinkChain(v, cs), cs, data, |cs|));
    WrittenAt(LinkChain(v, cs), cs, data, |cs|);
    assert cs[..|cs|] == cs;
  }

  /** The directory map after a file has been entered. */
  ghost function Entered(dirs: map<nat, map<string, Meta>>, d: nat, k: string, m: Meta): map<nat, map<string, Meta>>
    requires d in dirs
  {
    dirs[d := dirs[d][k := m]]
  }

  function FileMeta(cs: seq<nat>, data: seq<byte>): (m: Meta)
    requires cs != []
    ensures !m.IsDir()
  {
    Meta(ATTR_ARCHIVE, cs[0], |data|)
  }

  lemma PlaceAdds(v: Volume, dirs: set<nat>, d: nat, name: string, data: seq<byte>, cs: seq<nat>, m: Meta)
    requires Sound(v, dirs) && d in dirs && ValidName(name) && !Has(Abs(v, dirs), d, Lower(name))
    requires cs != [] && |cs| == ClustersFor(|data|, v.clusterSize) && InTable(v.fat, cs[0])
    requires m == FileMeta(cs, data) && Chain(v.fat, cs[0]) == cs[..CutAt(cs, 1)]
    requires Unshared(Abs(v, dirs), Chain(v.fat, m.cluster))
    requires Holds(v.data, cs, data, v.clusterSize) && (forall i :: 0 <= i < |cs| ==> cs[i] != d)
    requires AddEntry(v, d, name, m).result.Ok?
    ensures var v' := AddEntry(v, d, name, m).vol;
      && Sound(v', dirs) && Frame(v, dirs, v', dirs, d, Lower(name))
      && FileStored(v', dirs, d, Lower(name), data, cs)
      && Abs(v', dirs).dirs == Entered(Abs(v, dirs).dirs, d, Lower(name), m)
  {
    hide Frame, Inv, Cells, Listing, WellFormed, AddEntry, Unshared, Chain, Lower, PadRight, Chunk, ClustersFor;
    AddStep(v, dirs, d, name, m);
  }

  /** What holds after the clusters have been linked and filled and the entry added. */
  ghost predicate Placed(v: Volume, dirs: set<nat>, s: Step<seq<nat>>, d: nat, k: string, data: seq<byte>, cs: seq<nat>)
    requires Sound(v, dirs) && d in dirs && cs != []
  {
    && Sound(s.vol, dirs) && Frame(v, dirs, s.vol, dirs, d, k)
    && (s.result.Ok? ==> s.result.value == cs && FileStored(s.vol, dirs, d, k, data, cs))
    && (s.result.Ok? ==> Abs(s.vol, dirs).dirs == Entered(Abs(v, dirs).dirs, d, k, FileMeta(cs, data)))
    && (s.result.Err? ==> s.result.error in {DirectoryFull, SizeOverflow} && Abs(s.vol, dirs).dirs == Abs(v, dirs).dirs)
  }

  /** Linking, filling and entering a file keeps everything that was there. */
  lemma PlaceStep(v: Volume, dirs: set<nat>, d: nat, name: string, data: seq<byte>, cs: seq<nat>)
    requires Sound(v, dirs) && d in dirs && ValidName(name) && !Has(Abs(v, dirs), d, Lower(name))
    requires Allocatable(v.fat, cs) && |cs| == ClustersFor(|data|, v.clusterSize)
    requires forall i :: 0 <= i < |cs| ==> IsFree(v.fat, cs[i])
    ensures Placed(v, dirs, Place(v, d, name, data, cs), d, Lower(name), data, cs)
  {
    hide Cells, Listing, WrittenTo, Place, Frame, WellFormed, Inv, AddEntry, Unshared, LinkChain, Holds,
         ClustersFor, Chain, FileStored;
    var filled := PlaceUnfolds(v, d, name, data, cs);
    ClaimStep(v, dirs, cs, filled.data);
    FrameWeaken(v, dirs, filled, dirs, d, Lower(name));
    LinkedChain(v, cs);
    NotClaimed(v, dirs, d, cs);
    var m := FileMeta(cs, data);
    var added := AddEntry(filled, d, name, m);
    if added.result.Ok? {
      PlaceAdds(filled, dirs, d, name, data, cs, m);
      FrameTrans(v, dirs, filled, dirs, added.vol, dirs, d, Lower(name));
    }
  }

  lemma NotClaimed(v: Volume, dirs: set<nat>, d: nat, cs: seq<nat>)
    requires Sound(v, dirs) && d in dirs && forall i :: 0 <= i < |cs| ==> IsFree(v.fat, cs[i])
    ensures forall i :: 0 <= i < |cs| ==> cs[i] != d
  {
    assert DirCluster(Abs(v, dirs), d);
  }

  // ------------------------------------------------- storing a file in a directory

  /** What holds after write_path_file has dealt with the parent directory's entry,
      whether it returned or raised: everything around the entry is kept. */
  ghost predicate StoredIn(v: Volume, dirs: set<nat>, s: Step<seq<nat>>, dirs': set<nat>, d: nat, k: string, data: seq<byte>)
    requires Sound(v, dirs)
  {
    && Sound(s.vol, dirs') && s.vol.clusterSize == v.clusterSize && dirs' <= dirs
    && (s.result.Ok? ==> FileStored(s.vol, dirs', d, k, data, s.result.value))
    && (s.result.Err? ==> s.result.error in {NoSpace, DirectoryFull, SizeOverflow} && !Has(Abs(s.vol, dirs'), d, k))
    && Overwrites(Abs(s.vol, dirs'), d, k)
    && Around(v, dirs, s.vol, dirs', d, k)
  }

  /** The name is free or names a regular file. */
  ghost predicate Overwrites(fs: Fs, d: nat, k: string) {
    Has(fs, d, k) ==> !At(fs, d, k).IsDir()
  }

  lemma StoreFreshStep(v: Volume, dirs: set<nat>, d: nat, name: string, data: seq<byte>, layout: Layout)
    requires Sound(v, dirs) && d in dirs && ValidName(name) && !Has(Abs(v, dirs), d, Lower(name))
    ensures var s := StoreFresh(v, d, name, data, layout);
      StoredIn(v, dirs, s, dirs, d, Lower(name), data) && Frame(v, dirs, s.vol, dirs, d, Lower(name))
  {
    hide Frame, Around, Inv, WellFormed, Cells, Listing, Place, Holds, Lower;
    var chosen := Allocate(v, ClustersFor(|data|, v.clusterSize), layout);
    var s := StoreFresh(v, d, name, data, layout);
    if chosen.Ok? {
      PlaceStep(v, dirs, d, name, data, chosen.value);
      NotEntered(v, dirs, s, d, Lower(name), data, chosen.value);
    } else {
      FrameRefl(v, dirs, d, Lower(name));
    }
    FrameIsAround(v, dirs, s.vol, dirs, d, Lower(name));
  }

  lemma NotEntered(v: Volume, dirs: set<nat>, s: Step<seq<nat>>, d: nat, k: string, data: seq<byte>, cs: seq<nat>)
    requires Sound(v, dirs) && d in dirs && cs != [] && Placed(v, dirs, s, d, k, data, cs) && !Has(Abs(v, dirs), d, k)
    ensures s.result.Err? ==> !Has(Abs(s.vol, dirs), d, k)
  {
    hide Frame, Inv, WellFormed, Cells, Listing, FileStored;
  }

  /** Removing the old entry and storing the new one keeps the invariant and, whatever the
      old entry was, everything around it: every other entry whose directory is still
      there keeps its fields, its chain and its bytes. */
  lemma StoreInStep(v: Volume, dirs: set<nat>, d: nat, name: string, data: seq<byte>, layout: Layout) returns (dirs': set<nat>)
    requires Sound(v, dirs) && d in dirs && ValidName(name) && !IsDirectoryEntry(Abs(v, dirs), d, Lower(name), d)
    ensures StoredIn(v, dirs, StoreIn(v, d, name, data, layout), dirs', d, Lower(name), data)
    ensures Overwrites(Abs(v, dirs), d, Lower(name)) ==> dirs' == dirs
  {
    hide Frame, Around, Inv, WellFormed, Cells, Listing, StoreFresh, RemoveEntry, FileStored, FileKept, Lower;
    var k := Lower(name);
    var v1 := RemoveEntry(v, d, name).vol;
    if Has(Abs(v, dirs), d, k) {
      RemoveAround(v, dirs, d, name);
      dirs' := Without(dirs, At(Abs(v, dirs), d, k));
    } else {
      RemoveAbsent(v, dirs, d, name);
      FrameRefl(v, dirs, d, k);
      FrameIsAround(v, dirs, v, dirs, d, k);
      dirs' := dirs;
    }
    StoreFreshStep(v1, dirs', d, name, data, layout);
    AroundThenFrame(v, dirs, v1, dirs', StoreIn(v, d, name, data, layout).vol, d, k);
  }
}
