/** Volumes on which the stager does not keep its promise, one for each of its limits. */
module FatxWitnesses {
  import opened Bytes
  import opened FatTable
  import opened FatAlloc
  import opened FatDirectory
  import opened FatSlot
  import opened FatxFs
  import opened FatxVolume
  import opened FatxSafety
  import opened FatxPaths
  import opened FatxTheorems
  import opened FatxOutcome

  function EmptyClusters(n: nat): (data: seq<seq<byte>>)
    ensures |data| == n && forall c :: 1 <= c < n ==> data[c] == Zeros(512)
  {
    seq(n, c => if c == 0 then [] else Zeros(512))
  }

  // ---------------------------------------------------------------- a cut chain

  /** A wide volume on which only the clusters 2 and 0xFFF8 are free. */
  function WideVolume(): (v: Volume)
    ensures v.clusterSize == 512 && |v.fat| == 0x1_0000 && v.data == EmptyClusters(0x1_0000)
    ensures forall c :: 0 <= c < |v.fat| ==> v.fat[c] == if c == 2 || c == 0xFFF8 then FREE else END_OF_CHAIN
  {
    Volume(512, seq(0x1_0000, c => if c == 2 || c == 0xFFF8 then FREE else END_OF_CHAIN), EmptyClusters(0x1_0000))
  }

  lemma OnlyTwoFree()
    ensures FreeIds(WideVolume().fat, 2) == [2, 0xFFF8]
  {
    hide WideVolume, FreeIds;
    var ids := FreeIds(WideVolume().fat, 2);
    FreeIdsFrom(WideVolume().fat, 2);
    assert 2 in ids && 0xFFF8 in ids;
    TwoIncreasing(ids, 2, 0xFFF8);
  }

  lemma TwoIncreasing(s: seq<nat>, a: nat, b: nat)
    requires Increasing(s) && a < b && forall x :: x in s <==> x == a || x == b
    ensures s == [a, b]
  {
    CardDistinct(s);
    assert Elements(s) == {a, b};
    assert s[0] in s && s[1] in s;
  }

  /** Two clusters of data take the clusters 2 and 0xFFF8; the second looks like an end
      marker, and the write fails although there was room. */
  lemma WideWriteIsCut()
    ensures Store(WideVolume(), ["a"], Zeros(513), Normal).result == Ok([2, 0xFFF8])
    ensures WritePath(WideVolume(), ["a"], Zeros(513), Normal).result == Err(ShortChain)
  {
    hide Inv, Cells, Listing, WellFormed, Store, ReadPath, FreeIds, WideVolume, Suffices;
    var v, parts: seq<string> := WideVolume(), ["a"];
    OnlyTwoFree();
    FreeSetIs(v.fat);
    FormattedSuffices(v, parts, 513);
    ForecastSuffices(v, {1}, parts, 513, Normal);
    NoDirectories(v, parts);
    StoreForecast(v, {1}, parts, Zeros(513), Normal);
    WriteForecast(v, {1}, parts, Zeros(513), Normal);
    assert [2, 0xFFF8][..2] == [2, 0xFFF8];
  }

  lemma NoDirectories(v: Volume, parts: seq<string>)
    requires v.Valid() && |v.fat| > 1 && Formatted(v) && |parts| == 1
    ensures Sound(v, {1}) && TableBefore(v, {1}, parts) == v.fat
  {
    hide Inv, Cells, Listing, WellFormed;
    FormattedSuffices(v, parts, 0);
    FormattedIsSound(v);
  }

  // ------------------------------------------------------- an overwritten directory

  function SmallVolume(): (v: Volume)
    ensures v.clusterSize == 512 && |v.fat| == 16 && v.data == EmptyClusters(16)
    ensures forall c :: 0 <= c < 16 ==> v.fat[c] == FREE
  {
    Volume(512, seq(16, _ => FREE), EmptyClusters(16))
  }

  /** A file below a directory is written and reads back; writing a file to the path of the
      directory takes it away. */
  lemma FileBelowIsLost()
    ensures var v := WritePath(SmallVolume(), ["d", "f"], [7], Normal).vol;
      && ReadPath(v, ["d", "f"]) == Ok([7])
      && ReadPath(WritePath(v, ["d"], [8], Normal).vol, ["d", "f"]).Err?
  {
    hide Inv, Cells, Listing, WellFormed, ReadPath, SmallVolume, WritePath, Lower;
    var v, parts: seq<string> := SmallVolume(), ["d", "f"];
    assert {2, 3} <= FreeSet(v.fat);
    SubsetCard({2, 3}, FreeSet(v.fat));
    FormattedSuffices(v, parts, 1);
    FormattedWriteSucceeds(v, parts, [7], Normal);
    var dirs := WriteKeepsInvariant(v, {1}, parts, [7], Normal);
    var v1 := WritePath(v, parts, [7], Normal).vol;
    LowerOne();
    WriteKeepsOthers(v1, dirs, ["d"], [8], Normal, parts);
  }

  lemma LowerOne()
    ensures Parents(["d", "f"]) == LowerAll(["d"]) && LowerAll(["d", "f"]) != LowerAll(["d"])
  {
    assert ["d", "f"][..1] == ["d"];
    assert |LowerAll(["d", "f"])| == 2;
  }
}
