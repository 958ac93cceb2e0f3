/** The independent reader of root-level files, and its agreement with the stager's own
    reader on every image, corrupt tables included. */
module FatxExtract {
  import opened Bytes
  import opened FatTable
  import opened FatDirectory
  import opened FatSlot
  import opened FatxVolume
  import opened FatxGeometry
  import opened FatxImage
  import opened FatxFiles
  import opened FatxText
  import opened PathText

  /** Drops leading slashes and backslashes. */
  function StripLeft(name: string): string {
    if name != "" && (name[0] == '\\' || name[0] == '/') then StripLeft(name[1..]) else name
  }

  /** What the extractor copies: it walks the chain and reads as it goes. */
  function CopyFrom(v: Volume, cluster: nat, seen: set<nat>, remaining: nat): (seq<byte>, nat)
    requires v.Valid()
    decreases Ids(|v.fat|) - seen
  {
    if cluster in seen || !InTable(v.fat, cluster) then ([], remaining)
    else
      var take := Min(remaining, v.clusterSize);
      var chunk := v.data[cluster][..take];
      if remaining == take || IsEnd(v.fat[cluster]) then (chunk, remaining - take)
      else
        var rest := CopyFrom(v, v.fat[cluster], seen + {cluster}, remaining - take);
        (chunk + rest.0, rest.1)
  }

  function Extracted(v: Volume, name: string): Outcome<seq<byte>, Error>
    requires v.Valid()
  {
    if !InTable(v.fat, ROOT_CLUSTER) then Err(ClusterRange)
    else match Lookup(Cells(v.data[ROOT_CLUSTER]), StripLeft(Lower(name)))
      case None => Err(NotFound)
      case Some(m) =>
        var (data, remaining) := CopyFrom(v, m.cluster, {}, m.size);
        if remaining != 0 then Err(ShortChain) else Ok(data)
  }

  method FindRootFile(p: FatxPartition, name: string) returns (r: Outcome<(nat, nat), Error>)
    requires p.Valid()
    ensures !InTable(p.vol.fat, ROOT_CLUSTER) ==> r == Err(ClusterRange)
    ensures InTable(p.vol.fat, ROOT_CLUSTER) ==>
              var found := Lookup(Cells(p.vol.data[ROOT_CLUSTER]), StripLeft(Lower(name)));
              r == if found.None? then Err(NotFound) else Ok((found.value.cluster, found.value.size))
  {
    hide VolumeOf, NameOf, Lower, MetaOf, FromLittleEndian, Cells;
    var target := StripLeft(Lower(name));
    var entries := DirectoryEntries(p, ROOT_CLUSTER);
    if entries.Err? {
      return Err(entries.error);
    }
    ghost var cells := Cells(p.vol.data[ROOT_CLUSTER]);
    ghost var end := End(cells, 0);
    var i := 0;
    while i < |entries.value|
      invariant i <= |entries.value|
      invariant i <= end ==> Find(cells, target, i) == Find(cells, target, 0)
      invariant i > end ==> Find(cells, target, 0) == None
    {
      var entry := entries.value[i];
      assert cells[i] == View(entry);
      var entryName := DecodeName(entry);
      if entryName.Some? && Lower(entryName.value) == target {
        var m := MetaOf(entry);
        return Ok((m.cluster, m.size));
      }
      i := i + 1;
    }
    r := Err(NotFound);
  }

  lemma CopyStep(v: Volume, cluster: nat, seen: set<nat>, remaining: nat, data: seq<byte>)
    requires v.Valid()
    ensures cluster in seen || !InTable(v.fat, cluster) ==> CopyFrom(v, cluster, seen, remaining) == ([], remaining)
    ensures cluster !in seen && InTable(v.fat, cluster) ==>
              var take := Min(remaining, v.clusterSize);
              var more := data + v.data[cluster][..take];
              var rest := CopyFrom(v, v.fat[cluster], seen + {cluster}, remaining - take);
              data + CopyFrom(v, cluster, seen, remaining).0
                == (if remaining == take || IsEnd(v.fat[cluster]) then more else more + rest.0)
              && CopyFrom(v, cluster, seen, remaining).1
                == (if remaining == take || IsEnd(v.fat[cluster]) then remaining - take else rest.1)
  {
    if cluster !in seen && InTable(v.fat, cluster) {
      var take := Min(remaining, v.clusterSize);
      var chunk := v.data[cluster][..take];
      if remaining != take && !IsEnd(v.fat[cluster]) {
        var rest := CopyFrom(v, v.fat[cluster], seen + {cluster}, remaining - take);
        assert data + (chunk + rest.0) == (data + chunk) + rest.0;
      }
    }
  }

  method Extract(p: FatxPartition, name: string) returns (r: Outcome<seq<byte>, Error>)
    requires p.Valid()
    ensures r == Extracted(p.vol, name)
  {
    hide VolumeOf, Lower, Cells, Lookup, CopyFrom, Ids;
    var found := FindRootFile(p, name);
    if found.Err? {
      return Err(found.error);
    }
    var remaining: nat := found.value.1;
    var data: seq<byte> := [];
    var cluster: nat := found.value.0;
    var seen: set<nat> := {};
    ghost var whole := CopyFrom(p.vol, cluster, {}, remaining);
    assert [] + whole.0 == whole.0;
    while cluster !in seen && ROOT_CLUSTER <= cluster < p.geo.clusterCount
      invariant seen <= Ids(|p.vol.fat|)
      invariant whole.0 == data + CopyFrom(p.vol, cluster, seen, remaining).0
      invariant whole.1 == CopyFrom(p.vol, cluster, seen, remaining).1
      decreases Ids(|p.vol.fat|) - seen
    {
      CopyStep(p.vol, cluster, seen, remaining, data);
      var chunk := p.ReadCluster(cluster);
      var take := Min(remaining, |chunk.value|);
      data := data + chunk.value[..take];
      remaining := remaining - take;
      if remaining == 0 {
        break;
      }
      var next := p.ReadFatEntry(cluster);
      if IsEnd(next) {
        break;
      }
      seen := seen + {cluster};
      cluster := next;
    }
    CopyStep(p.vol, cluster, seen, remaining, data);
    assert data + [] == data;
    assert whole == (data, remaining);
    r := if remaining != 0 then Err(ShortChain) else Ok(data);
  }

  /** Copying while walking gives the prefix of the chain's contents. */
  lemma {:induction false} CopyIsContent(v: Volume, cluster: nat, seen: set<nat>, size: nat)
    requires v.Valid()
    ensures AllBelow(ChainFrom(v.fat, cluster, seen), |v.data|)
    ensures var bytes := Content(v.data, ChainFrom(v.fat, cluster, seen));
      CopyFrom(v, cluster, seen, size)
      == if size <= |bytes| then (bytes[..size], 0) else (bytes, size - |bytes|)
    decreases Ids(|v.fat|) - seen
  {
    var chain := ChainFrom(v.fat, cluster, seen);
    forall i | 0 <= i < |chain|
      ensures chain[i] < |v.data|
    {
      assert chain[i] in chain;
    }
    if cluster in seen || !InTable(v.fat, cluster) {
    } else {
      var chunk := v.data[cluster];
      assert chunk[..|chunk|] == chunk && chunk + [] == chunk;
      if IsEnd(v.fat[cluster]) {
        assert chain[1..] == [] && Content(v.data, chain) == chunk;
      } else {
        var rest := ChainFrom(v.fat, v.fat[cluster], seen + {cluster});
        assert chain[1..] == rest;
        if size > |chunk| {
          CopyIsContent(v, v.fat[cluster], seen + {cluster}, size - |chunk|);
          var tail := Content(v.data, rest);
          assert Content(v.data, chain) == chunk + tail;
          if size - |chunk| <= |tail| {
            assert (chunk + tail)[..size] == chunk + tail[..size - |chunk|];
          }
        } else {
          assert AllBelow(rest, |v.data|) && Content(v.data, chain) == chunk + Content(v.data, rest);
          assert Content(v.data, chain)[..size] == chunk[..size];
        }
      }
    }
  }

  /** Stripping drops a run of separators in front of a name and nothing else. */
  lemma {:induction false} StripRun(run: string, name: string)
    requires OnlySeparators(run) && (name == "" || !IsSeparator(name[0]))
    ensures StripLeft(run + name) == name
  {
    if run == "" {
      assert run + name == name;
    } else {
      assert (run + name)[0] == run[0] && (run + name)[1..] == run[1..] + name;
      StripRun(run[1..], name);
    }
  }

  lemma LowerRun(run: string, name: string)
    requires OnlySeparators(run)
    ensures Lower(run + name) == run + Lower(name)
  {
  }

  lemma StripsToName(run: string, name: string)
    requires OnlySeparators(run) && name != "" && !IsSeparator(name[0])
    ensures StripLeft(Lower(run + name)) == Lower(name)
  {
    hide StripLeft;
    LowerRun(run, name);
    StripRun(run, Lower(name));
  }

  /** Two readers agree on every image, whatever its table and directories contain: for
      a root-level name, with or without separators in front, whose first match is no
      directory, the extractor returns exactly what read_path_file returns, bytes or error. */
  lemma ReadersAgree(v: Volume, run: string, name: string)
    requires v.Valid() && OnlySeparators(run) && name != "" && !IsSeparator(name[0])
    requires FindEntry(v, ROOT_CLUSTER, name).Ok? && FindEntry(v, ROOT_CLUSTER, name).value.Some?
             ==> !FindEntry(v, ROOT_CLUSTER, name).value.value.IsDir()
    ensures Extracted(v, run + name) == ReadPath(v, [name])
    ensures ValidName(name) && NoSeparator(name) ==> SplitPath(run + name) == Ok([name])
  {
    hide Cells, SplitPath, OnlySeparators, Lower, StripLeft, NoSeparator, CopyFrom;
    StripsToName(run, name);
    if ValidName(name) && NoSeparator(name) {
      SplitName(run, name);
    }
    if FindEntry(v, ROOT_CLUSTER, name).Ok? && FindEntry(v, ROOT_CLUSTER, name).value.Some? {
      var m := FindEntry(v, ROOT_CLUSTER, name).value.value;
      CopyIsContent(v, m.cluster, {}, m.size);
    }
  }

  /** A directory tells them apart: read_path_file reports that there is no such file,
      the extractor copies the directory's own clusters. */
  lemma ReadersDifferOnDirectories(v: Volume, run: string, name: string)
    requires v.Valid() && OnlySeparators(run) && name != "" && !IsSeparator(name[0])
    requires FindEntry(v, ROOT_CLUSTER, name).Ok? && FindEntry(v, ROOT_CLUSTER, name).value.Some?
    requires FindEntry(v, ROOT_CLUSTER, name).value.value.IsDir()
    ensures ReadPath(v, [name]) == Err(NotFound)
    ensures Extracted(v, run + name) == ReadFile(v, FindEntry(v, ROOT_CLUSTER, name).value.value)
    ensures Extracted(v, run + name) != ReadPath(v, [name])
  {
    hide Cells, OnlySeparators, Lower, StripLeft, CopyFrom;
    StripsToName(run, name);
    var m := FindEntry(v, ROOT_CLUSTER, name).value.value;
    CopyIsContent(v, m.cluster, {}, m.size);
  }
}
