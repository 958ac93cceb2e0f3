/** Whole staging runs: every staged file still reads back at the end of the run. */
module FatxRuns {
  import opened Bytes
  import opened FatTable
  import opened FatAlloc
  import opened FatDirectory
  import opened FatSlot
  import opened FatxFs
  import opened FatxVolume
  import opened FatxSafety
  import opened FatxPaths
  import opened FatxRoundTrip
  import opened FatxTheorems

  datatype Job = Job(parts: seq<string>, data: seq<byte>, layout: Layout)

  predicate ValidJobs(jobs: seq<Job>) {
    forall i :: 0 <= i < |jobs| ==> jobs[i].parts != [] && ValidNames(jobs[i].parts)
  }

  /** Writing the files one after the other, up to the first that raises. */
  function Run(v: Volume, jobs: seq<Job>): (s: Step<()>)
    requires v.Valid() && ValidJobs(jobs)
    ensures s.vol.Valid()
    decreases |jobs|
  {
    if jobs == [] then Step(v, Ok(()))
    else
      var s := WritePath(v, jobs[0].parts, jobs[0].data, jobs[0].layout);
      if s.result.Err? then Step(s.vol, Err(s.result.error)) else Run(s.vol, jobs[1..])
  }

  /** q is neither the written path nor a directory on the way to it, up to case. */
  ghost predicate Apart(parts: seq<string>, q: seq<string>) {
    !(LowerAll(q) <= LowerAll(parts))
  }

  /** No staged path equals an earlier one or is a directory on the way to an earlier one. */
  ghost predicate Independent(jobs: seq<Job>) {
    forall i, j :: 0 <= i < j < |jobs| ==> Apart(jobs[i].parts, jobs[j].parts)
  }

  ghost predicate DifferentPaths(jobs: seq<Job>) {
    forall i, j :: 0 <= i < j < |jobs| ==> LowerAll(jobs[i].parts) != LowerAll(jobs[j].parts)
  }

  ghost predicate AllPlain(jobs: seq<Job>)
    requires ValidJobs(jobs)
  {
    forall i :: 0 <= i < |jobs| ==> Plain(jobs[i].parts)
  }

  lemma RunUnfolds(v: Volume, jobs: seq<Job>)
    requires v.Valid() && ValidJobs(jobs)
    ensures jobs == [] ==> Run(v, jobs) == Step(v, Ok(()))
    ensures jobs != [] ==>
              var s := WritePath(v, jobs[0].parts, jobs[0].data, jobs[0].layout);
              Run(v, jobs) == if s.result.Err? then Step(s.vol, Err(s.result.error)) else Run(s.vol, jobs[1..])
  {
    hide WritePath, ValidNames;
  }

  /** How many files a run begins to write. */
  ghost function Started(v: Volume, jobs: seq<Job>): (n: nat)
    requires v.Valid() && ValidJobs(jobs)
    ensures n <= |jobs|
    decreases |jobs|
  {
    if jobs == [] then 0
    else
      var s := WritePath(v, jobs[0].parts, jobs[0].data, jobs[0].layout);
      1 + if s.result.Ok? then Started(s.vol, jobs[1..]) else 0
  }

  lemma StartedUnfolds(v: Volume, jobs: seq<Job>)
    requires v.Valid() && ValidJobs(jobs) && jobs != []
    ensures var s := WritePath(v, jobs[0].parts, jobs[0].data, jobs[0].layout);
      Started(v, jobs) == 1 + if s.result.Ok? then Started(s.vol, jobs[1..]) else 0
  {
    hide WritePath, ValidNames;
  }

  lemma {:induction false} CompletedStartsAll(v: Volume, jobs: seq<Job>)
    requires v.Valid() && ValidJobs(jobs) && Run(v, jobs).result.Ok?
    ensures Started(v, jobs) == |jobs|
    decreases |jobs|
  {
    hide Run, Started, WritePath, ValidNames;
    RunUnfolds(v, jobs);
    if jobs != [] {
      StartedUnfolds(v, jobs);
      CompletedStartsAll(WritePath(v, jobs[0].parts, jobs[0].data, jobs[0].layout).vol, jobs[1..]);
    }
  }

  /** One of the first n files is written to a directory on the way to q. */
  ghost predicate Crossed(jobs: seq<Job>, n: nat, q: seq<string>)
    requires n <= |jobs| && q != []
  {
    exists i :: 0 <= i < n && LowerAll(jobs[i].parts) <= Parents(q)
  }

  lemma CrossedStep(jobs: seq<Job>, n: nat, q: seq<string>)
    requires 1 <= n <= |jobs| && q != []
    ensures Crossed(jobs, n, q) <==> LowerAll(jobs[0].parts) <= Parents(q) || Crossed(jobs[1..], n - 1, q)
  {
    hide LowerAll;
    if Crossed(jobs[1..], n - 1, q) {
      var i :| 0 <= i < n - 1 && LowerAll(jobs[1..][i].parts) <= Parents(q);
      assert jobs[i + 1] == jobs[1..][i];
    }
    if Crossed(jobs, n, q) {
      var i :| 0 <= i < n && LowerAll(jobs[i].parts) <= Parents(q);
      assert i > 0 ==> jobs[1..][i - 1] == jobs[i];
    }
  }

  /** What a run, completed or not, does to a file that it does not stage: it reads bytes
      afterwards exactly if it read them before and no file that the run began to write
      took the place of a directory on the way to it. */
  lemma {:induction false} RunKeepsOthers(v: Volume, dirs: set<nat>, jobs: seq<Job>, q: seq<string>)
    requires Sound(v, dirs) && ValidJobs(jobs)
    requires q != [] && Plain(q) && forall i :: 0 <= i < |jobs| ==> LowerAll(q) != LowerAll(jobs[i].parts)
    ensures forall bytes :: ReadPath(Run(v, jobs).vol, q) == Ok(bytes) <==>
                            ReadPath(v, q) == Ok(bytes) && !Crossed(jobs, Started(v, jobs), q)
    decreases |jobs|
  {
    hide Run, Started, Inv, WellFormed, Cells, Listing, WritePath, ReadPath, LowerAll, ValidNames, Abs,
         Volume.Valid, Crossed,
         DirsOk;
    RunUnfolds(v, jobs);
    if jobs == [] {
      NoneCrossed(jobs, q);
    } else {
      var j := jobs[0];
      StartedUnfolds(v, jobs);
      CrossedStep(jobs, Started(v, jobs), q);
      WriteKeepsOthers(v, dirs, j.parts, j.data, j.layout, q);
      var s := WritePath(v, j.parts, j.data, j.layout);
      if s.result.Ok? {
        var dirs' := WriteKeepsInvariant(v, dirs, j.parts, j.data, j.layout);
        RunKeepsOthers(s.vol, dirs', jobs[1..], q);
      } else {
        NoneCrossed(jobs[1..], q);
      }
    }
  }

  lemma NoneCrossed(jobs: seq<Job>, q: seq<string>)
    requires q != []
    ensures !Crossed(jobs, 0, q)
  {
  }

  /** Exactly when a completed staging run has kept all its files: for plain paths that
      differ in more than case, whatever they name at the start, every file reads back at
      the end if and only if no path is a directory on the way to an earlier one. */
  lemma {:induction false} RunReadsBackIff(v: Volume, dirs: set<nat>, jobs: seq<Job>)
    requires Sound(v, dirs) && ValidJobs(jobs) && AllPlain(jobs) && DifferentPaths(jobs)
    requires Run(v, jobs).result.Ok?
    ensures (forall i :: 0 <= i < |jobs| ==> ReadPath(Run(v, jobs).vol, jobs[i].parts) == Ok(jobs[i].data))
            <==> Independent(jobs)
    decreases |jobs|
  {
    hide Run, Started, Inv, WellFormed, Cells, Listing, WritePath, ReadPath, LowerAll, Parents, ValidNames,
         Abs, Volume.Valid,
         Plain, Apart, DirsOk, Crossed;
    RunUnfolds(v, jobs);
    if jobs != [] {
      var j, rest := jobs[0], jobs[1..];
      var v' := WritePath(v, j.parts, j.data, j.layout).vol;
      var dirs' := WriteKeepsInvariant(v, dirs, j.parts, j.data, j.layout);
      RunReadsBackIff(v', dirs', rest);
      FirstReads(v, dirs, jobs);
      FirstKept(jobs);
      assert forall i :: 1 <= i < |jobs| ==> jobs[i] == rest[i - 1];
    }
  }

  /** The first file reads back at the end exactly if no later one crosses its path. */
  lemma FirstReads(v: Volume, dirs: set<nat>, jobs: seq<Job>)
    requires Sound(v, dirs) && ValidJobs(jobs) && jobs != [] && AllPlain(jobs) && DifferentPaths(jobs)
    requires Run(v, jobs).result.Ok?
    ensures ReadPath(Run(v, jobs).vol, jobs[0].parts) == Ok(jobs[0].data) <==> !Crossed(jobs[1..], |jobs| - 1, jobs[0].parts)
  {
    hide Run, Started, Inv, WellFormed, Cells, Listing, WritePath, ReadPath, LowerAll, Parents, ValidNames,
         Abs, Volume.Valid,
         Plain, DirsOk, Crossed;
    RunUnfolds(v, jobs);
    var j, rest := jobs[0], jobs[1..];
    var v' := WritePath(v, j.parts, j.data, j.layout).vol;
    WriteReadsBack(v, dirs, j.parts, j.data, j.layout);
    var dirs' := WriteKeepsInvariant(v, dirs, j.parts, j.data, j.layout);
    CompletedStartsAll(v', rest);
    RunKeepsOthers(v', dirs', rest, j.parts);
  }

  /** The first file is kept by the rest, and the rest is independent, exactly if the whole
      is. */
  lemma FirstKept(jobs: seq<Job>)
    requires ValidJobs(jobs) && jobs != [] && DifferentPaths(jobs)
    ensures Independent(jobs) <==> Independent(jobs[1..]) && !Crossed(jobs[1..], |jobs| - 1, jobs[0].parts)
  {
    hide LowerAll;
    var rest := jobs[1..];
    forall i | 0 <= i < |rest|
      ensures rest[i] == jobs[i + 1] && (Apart(jobs[0].parts, rest[i].parts) <==> !(LowerAll(rest[i].parts) <= Parents(jobs[0].parts)))
    {
      LowerSplit(jobs[0].parts);
      ShorterPrefix(LowerAll(rest[i].parts), Parents(jobs[0].parts), LowerAll(jobs[0].parts));
    }
    if Independent(rest) && !Crossed(rest, |rest|, jobs[0].parts) {
      forall i, j | 0 <= i < j < |jobs|
        ensures Apart(jobs[i].parts, jobs[j].parts)
      {
        assert jobs[j] == rest[j - 1];
        assert i > 0 ==> jobs[i] == rest[i - 1];
      }
    }
  }

  /** Safety over a whole staging run: when the run completes, every staged file reads
      back to its source at the end, not just right after its own write. */
  lemma RunReadsBack(v: Volume, dirs: set<nat>, jobs: seq<Job>)
    requires Sound(v, dirs) && ValidJobs(jobs) && AllPlain(jobs) && Independent(jobs)
    requires Run(v, jobs).result.Ok?
    ensures forall i :: 0 <= i < |jobs| ==> ReadPath(Run(v, jobs).vol, jobs[i].parts) == Ok(jobs[i].data)
  {
    hide Run, Inv, WellFormed, Cells, Listing, ReadPath, LowerAll, ValidNames, Abs, Volume.Valid, Plain;
    forall i, j | 0 <= i < j < |jobs|
      ensures LowerAll(jobs[i].parts) != LowerAll(jobs[j].parts)
    {
      assert Apart(jobs[i].parts, jobs[j].parts);
    }
    RunReadsBackIff(v, dirs, jobs);
  }

  /** For files in the root directory, different names are enough. */
  lemma RootFilesIndependent(jobs: seq<Job>)
    requires ValidJobs(jobs) && DifferentPaths(jobs) && forall i :: 0 <= i < |jobs| ==> |jobs[i].parts| == 1
    ensures Independent(jobs)
  {
    forall i, j | 0 <= i < j < |jobs|
      ensures Apart(jobs[i].parts, jobs[j].parts)
    {
      assert |LowerAll(jobs[i].parts)| == |LowerAll(jobs[j].parts)| == 1;
      assert LowerAll(jobs[i].parts)[..1] == LowerAll(jobs[i].parts);
    }
  }

  /** No run, completed or not, ever produces a cross-link: the invariant holds in every
      reachable state, whatever paths are written. */
  lemma {:induction false} RunKeepsInvariant(v: Volume, dirs: set<nat>, jobs: seq<Job>) returns (dirs': set<nat>)
    requires Sound(v, dirs) && ValidJobs(jobs)
    ensures Sound(Run(v, jobs).vol, dirs')
    decreases |jobs|
  {
    hide Run, Inv, WellFormed, Cells, Listing, WritePath, ValidNames, DirsIn, DirsOk, Abs;
    dirs' := dirs;
    RunUnfolds(v, jobs);
    if jobs != [] {
      var j := jobs[0];
      dirs' := WriteKeepsInvariant(v, dirs, j.parts, j.data, j.layout);
      var s := WritePath(v, j.parts, j.data, j.layout);
      if s.result.Ok? {
        dirs' := RunKeepsInvariant(s.vol, dirs', jobs[1..]);
      }
    }
  }

  // ------------------------------------------------- where the clusters of a file are

  /** The path names a file with this data, whose chain is cs. */
  ghost predicate StoredAt(v: Volume, dirs: set<nat>, parts: seq<string>, data: seq<byte>, cs: seq<nat>) {
    && Sound(v, dirs) && parts != [] && cs != [] && |cs| == ClustersFor(|data|, v.clusterSize)
    && Named(Abs(v, dirs), ROOT, parts).Some?
    && var t := Named(Abs(v, dirs), ROOT, parts).value;
    && t.meta == FileMeta(cs, data)
    && ChainOf(Abs(v, dirs), t.dir, t.key) == cs
    && Holds(v.data, cs, data, v.clusterSize)
  }

  lemma CompleteChain(v: Volume, dirs: set<nat>, parts: seq<string>, d: nat, k: string, data: seq<byte>, cs: seq<nat>)
    requires FileStored(v, dirs, d, k, data, cs) && CutAt(cs, 1) == |cs|
    requires parts != [] && k == Lower(LastName(parts)) && Walk(Abs(v, dirs), ROOT, Parents(parts)) == Some(d)
    ensures StoredAt(v, dirs, parts, data, cs)
  {
    hide Inv, WellFormed, Cells, Listing, Holds, Chain;
    assert cs[..|cs|] == cs;
  }

  /** A successful write leaves the file at the clusters it reports. */
  lemma WriteStoresAt(v: Volume, dirs: set<nat>, parts: seq<string>, data: seq<byte>, layout: Layout)
    returns (dirs': set<nat>)
    requires Sound(v, dirs) && parts != [] && ValidNames(parts) && Plain(parts)
    requires WritePath(v, parts, data, layout).result.Ok?
    ensures var s := WritePath(v, parts, data, layout); StoredAt(s.vol, dirs', parts, data, s.result.value)
  {
    hide Inv, WellFormed, Cells, Listing, Around, Store, ReadPath, FileStored, StoredAt, Walk, Lower;
    WriteReadsBack(v, dirs, parts, data, layout);
    var d, k;
    dirs', d, k := StoreStep(v, dirs, parts, data, layout);
    CompleteChain(Store(v, parts, data, layout).vol, dirs', parts, d, k, data, Store(v, parts, data, layout).result.value);
  }

  lemma StoredAtKept(v: Volume, dirs: set<nat>, v': Volume, dirs': set<nat>, d: nat, k: string,
                     parts: seq<string>, q: seq<string>, data: seq<byte>, cs: seq<nat>)
    requires parts != [] && WrittenAtPath(v, dirs, v', dirs', d, k, parts)
    requires StoredAt(v, dirs, q, data, cs) && Apart(q, parts)
    ensures StoredAt(v', dirs', q, data, cs)
  {
    hide Inv, WellFormed, Cells, Listing, Around, Walk, Chain, ClustersFor, PadRight, Chunk, Overwrites;
    OtherFileForward(v, dirs, v', dirs', d, k, parts, q);
    assert forall i :: 0 <= i < |cs| ==> cs[i] in cs;
  }

  /** The clusters of a file stay where they are, and keep their bytes, through any later
      writes, completed or not, to paths that are neither its own nor on the way to it. */
  lemma {:induction false} RunKeepsClusters(v: Volume, dirs: set<nat>, jobs: seq<Job>, q: seq<string>,
                                            data: seq<byte>, cs: seq<nat>)
    returns (dirs': set<nat>)
    requires Sound(v, dirs) && ValidJobs(jobs)
    requires StoredAt(v, dirs, q, data, cs) && forall i :: 0 <= i < |jobs| ==> Apart(q, jobs[i].parts)
    ensures StoredAt(Run(v, jobs).vol, dirs', q, data, cs)
    decreases |jobs|
  {
    hide Run, Inv, WellFormed, Cells, Listing, Store, ReadPath, Apart, LowerAll, ValidNames, Abs, DirsOk,
         Volume.Valid, FileStored,
         Around, Overwrites, Walk, StoredAt, Lower;
    RunUnfolds(v, jobs);
    dirs' := dirs;
    if jobs != [] {
      var j := jobs[0];
      var d, k;
      dirs', d, k := StoreStep(v, dirs, j.parts, j.data, j.layout);
      var s := WritePath(v, j.parts, j.data, j.layout);
      StoredAtKept(v, dirs, s.vol, dirs', d, k, j.parts, q, data, cs);
      if s.result.Ok? {
        dirs' := RunKeepsClusters(s.vol, dirs', jobs[1..], q, data, cs);
      }
    }
  }

  /** A run can be cut in two. */
  lemma {:induction false} RunSplits(v: Volume, a: seq<Job>, b: seq<Job>)
    requires v.Valid() && ValidJobs(a) && ValidJobs(b)
    ensures Run(v, a + b) == if Run(v, a).result.Ok? then Run(Run(v, a).vol, b) else Run(v, a)
    decreases |a|
  {
    hide Run, WritePath, ValidNames;
    RunUnfolds(v, a);
    RunUnfolds(v, a + b);
    if a == [] {
      assert a + b == b;
    } else {
      assert (a + b)[1..] == a[1..] + b && (a + b)[0] == a[0];
      var s := WritePath(v, a[0].parts, a[0].data, a[0].layout);
      if s.result.Ok? {
        RunSplits(s.vol, a[1..], b);
      }
    }
  }
}
