/** The opened image file: byte-level reads and writes, and the volume they maintain. */
module FatxImage {
  import opened Bytes
  import opened FatTable
  import opened FatxVolume
  import opened FatxGeometry

  class FatxPartition {
    var image: seq<byte>
    const geo: Geometry
    ghost var vol: Volume

    /** The image reaches to the end of the last cluster, and vol is what it says. */
    ghost predicate Valid()
      reads this
    {
      Fits(image, geo) && vol == VolumeOf(image, geo)
    }

    constructor (image: seq<byte>, geo: Geometry)
      requires Fits(image, geo)
      ensures Valid() && this.image == image && this.geo == geo
    {
      this.image := image;
      this.geo := geo;
      this.vol := VolumeOf(image, geo);
    }

    method ReadAt(offset: nat, size: nat) returns (data: seq<byte>)
      requires offset + size <= |image|
      ensures data == image[offset..offset + size]
    {
      data := image[offset..offset + size];
    }

    method WriteAt(offset: nat, data: seq<byte>)
      requires offset + |data| <= |image|
      modifies this`image
      ensures image == Splice(old(image), offset, data)
    {
      image := Splice(image, offset, data);
    }

    method ReadFatEntry(c: nat) returns (value: nat)
      requires Valid() && c < geo.clusterCount
      ensures value == vol.fat[c]
    {
      EntryInside(geo, c);
      var data := ReadAt(geo.FatEntryOffset(c), geo.entrySize);
      value := FromLittleEndian(data);
    }

    method WriteFatEntry(c: nat, value: nat)
      requires Valid() && c < geo.clusterCount && value <= MAX_U32
      modifies this
      ensures Valid() && vol == old(vol).(fat := old(vol).fat[c := old(vol).Fit(value)])
      ensures SameOutside(old(image), image, geo)
    {
      EntryWritten(image, geo, c, value);
      vol := vol.(fat := vol.fat[c := vol.Fit(value)]);
      WriteAt(geo.FatEntryOffset(c), LittleEndian(value, geo.entrySize));
    }

    method ReadCluster(c: nat) returns (r: Outcome<seq<byte>, Error>)
      requires Valid()
      ensures r == if InTable(vol.fat, c) then Ok(vol.data[c]) else Err(ClusterRange)
    {
      if c < 1 || c >= geo.clusterCount {
        return Err(ClusterRange);
      }
      ClusterInside(geo, c);
      var data := ReadAt(geo.ClusterOffset(c), geo.clusterSize);
      r := Ok(data);
    }

    /** The data is padded with zeros to a whole cluster. */
    method WriteCluster(c: nat, data: seq<byte>)
      requires Valid() && InTable(vol.fat, c) && |data| <= geo.clusterSize
      modifies this
      ensures Valid() && vol == old(vol).(data := old(vol).data[c := PadRight(data, old(vol).clusterSize)])
      ensures SameOutside(old(image), image, geo)
    {
      var bytes := PadRight(data, geo.clusterSize);
      ClusterWritten(image, geo, c, bytes);
      vol := vol.(data := vol.data[c := bytes]);
      WriteAt(geo.ClusterOffset(c), bytes);
    }
  }
}
