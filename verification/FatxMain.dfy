/** The main program of the stager: cleaning, staging order and the boot configuration. */
module FatxMain {
  import opened Bytes
  import opened FatAlloc
  import opened FatSlot
  import opened FatxVolume
  import opened FatxText
  import opened FatxSafety
  import opened FatxPaths
  import opened FatxRuns
  import opened FatxGeometry
  import opened FatxImage
  import opened FatxFiles
  import opened FatxCleaning
  import opened FatxConfig
  import opened FatxStaging

  datatype MainError = UsageError | NotAscii | Raised(error: Error)

  // ------------------------------------------------------------------ the files

  ghost predicate Splittable(files: seq<File>) {
    forall i :: 0 <= i < |files| ==> SplitPath(files[i].path).Ok?
  }

  ghost function Jobs(files: seq<File>, layout: Layout): (jobs: seq<Job>)
    requires Splittable(files)
    ensures |jobs| == |files| && ValidJobs(jobs)
    ensures forall i :: 0 <= i < |jobs| ==> jobs[i] == Job(SplitPath(files[i].path).value, files[i].data, layout)
  {
    seq(|files|, i requires 0 <= i < |files| => Job(SplitPath(files[i].path).value, files[i].data, layout))
  }

  /** How many files come before the first whose path cannot be split. */
  ghost function SplittableCount(files: seq<File>): (n: nat)
    ensures n <= |files| && Splittable(files[..n])
    ensures n < |files| ==> SplitPath(files[n].path).Err?
    decreases |files|
  {
    if files == [] || SplitPath(files[0].path).Err? then 0
    else
      var n := SplittableCount(files[1..]);
      assert forall i :: 1 <= i < n + 1 ==> files[i] == files[1..][i - 1];
      n + 1
  }

  lemma AllSplittable(files: seq<File>)
    ensures SplittableCount(files) == |files| <==> Splittable(files)
  {
    hide SplitPath;
    var n := SplittableCount(files);
    if n == |files| {
      assert files[..n] == files;
    }
  }

  /** What a write leaves behind satisfies the invariant if the volume did. */
  ghost predicate StaysSound(v: Volume, v': Volume) {
    forall dirs :: Sound(v, dirs) ==> exists dirs' :: Sound(v', dirs')
  }

  lemma RunStaysSound(v: Volume, jobs: seq<Job>)
    requires v.Valid() && ValidJobs(jobs)
    ensures StaysSound(v, Run(v, jobs).vol)
  {
    hide Sound, Run, ValidNames;
    forall dirs | Sound(v, dirs)
      ensures exists dirs' :: Sound(Run(v, jobs).vol, dirs')
    {
      var dirs' := RunKeepsInvariant(v, dirs, jobs);
    }
  }

  lemma CleaningStaysSound(v: Volume, names: seq<string>)
    requires v.Valid()
    ensures StaysSound(v, Cleaned(v, names).vol)
  {
    hide Sound, Cleaned;
    forall dirs | Sound(v, dirs)
      ensures exists dirs' :: Sound(Cleaned(v, names).vol, dirs')
    {
      var dirs' := CleaningKeepsInvariant(v, dirs, names);
    }
  }

  lemma StaysSoundThen(v: Volume, v1: Volume, v2: Volume)
    requires StaysSound(v, v1) && StaysSound(v1, v2)
    ensures StaysSound(v, v2)
  {
    hide Sound;
  }

  lemma StaysSoundSame(v: Volume)
    ensures StaysSound(v, v)
  {
    hide Sound;
  }

  /** Writes the files in order, up to the first that raises or whose path cannot be split. */
  method WriteFiles(p: FatxPartition, files: seq<File>, layout: Layout)
    returns (r: Outcome<seq<WriteResult>, Error>)
    requires p.Valid()
    modifies p
    ensures p.Valid() && SameOutside(old(p.image), p.image, p.geo)
    ensures var n := SplittableCount(files);
            var s := Run(old(p.vol), Jobs(files[..n], layout));
      && p.vol == s.vol && (r.Ok? <==> s.result.Ok? && n == |files|)
      && (r.Ok? ==> Splittable(files) && |r.value| == |files|)
      && (r.Err? ==> r.error == if s.result.Err? then s.result.error else BadPath)
  {
    hide VolumeOf, WritePath, SplitPath, ValidNames, Run;
    ghost var v := p.vol;
    var results: seq<WriteResult> := [];
    var i := 0;
    ghost var n := SplittableCount(files);
    AllSplittable(files);
    ghost var jobs := Jobs(files[..n], layout);
    assert jobs[0..] == jobs;
    while i < |files|
      invariant i <= n && |results| == i && p.Valid() && SameOutside(old(p.image), p.image, p.geo)
      invariant Run(v, jobs) == Run(p.vol, jobs[i..])
    {
      ghost var before := p.vol;
      RunUnfolds(before, jobs[i..]);
      if i < n {
        assert jobs[i..][1..] == jobs[i + 1..] && jobs[i..][0] == jobs[i];
        assert files[..n][i] == files[i];
      }
      var one := WritePathFile(p, files[i].path, files[i].data, layout);
      if one.Err? {
        return Err(one.error);
      }
      results := results + [one.value];
      i := i + 1;
    }
    RunUnfolds(p.vol, jobs[i..]);
    r := Ok(results);
  }

  // --------------------------------------------------------------- the whole run

  /** What a completed run consists of: the volume it starts from, the kernel command
      line it ends up with, and the files in the order in which they are written. */
  datatype Staging = Staging(start: Volume, append: string, payload: seq<Job>, boot: seq<Job>) {
    ghost function Order(bootFirst: bool): seq<Job> {
      if bootFirst then boot + payload else payload + boot
    }
  }

  ghost predicate IsStaging(p: Geometry, o: Options, v: Volume, run: Staging)
    requires v.Valid()
  {
    && run.start == (if o.cleanKnownBoot then Cleaned(v, KNOWN_BOOT_ROOT_FILES).vol else v)
    && run.start.Valid() && IsAscii(Config(o, run.append))
    && Splittable(BootFiles(o, Encode(Config(o, run.append))))
    && run.boot == Jobs(BootFiles(o, Encode(Config(o, run.append))), o.bootLayout)
    && (o.payload.None? ==> run.payload == [])
    && (o.payload.Some? ==> SplitPath(o.payloadName).Ok?)
    && (o.payload.Some? ==>
          run.payload == [Job(SplitPath(o.payloadName).value, o.payload.value, o.payloadLayout)])
    && (o.payload.None? || !o.appendPayloadInfo ==> run.append == o.append)
    && (o.payload.Some? && o.appendPayloadInfo ==>
          var s := WritePath(run.start, SplitPath(o.payloadName).value, o.payload.value, o.payloadLayout);
          && s.result.Ok? && s.result.value != [] && s.result.value[0] >= 1
          && run.append == o.append + PayloadInfo(p.ClusterOffset(s.result.value[0]), |o.payload.value|, o.payloadName))
  }

  /** Behind the given arguments the kernel command line names the disk offset that the
      payload was written to, its size and its file, for a reader of the text. */
  ghost predicate NamesItsPayload(p: Geometry, o: Options, run: Staging) {
    o.payload.Some? && o.appendPayloadInfo && run.start.Valid() && SplitPath(o.payloadName).Ok? ==>
      var s := WritePath(run.start, SplitPath(o.payloadName).value, o.payload.value, o.payloadLayout);
      && s.result.Ok? && s.result.value != [] && s.result.value[0] >= 1
      && o.append <= run.append
      && NamesPayload(run.append[|o.append|..], p.ClusterOffset(s.result.value[0]), |o.payload.value|, o.payloadName)
  }

  lemma StagingNamesPayload(p: Geometry, o: Options, v: Volume, run: Staging)
    requires v.Valid() && IsStaging(p, o, v, run)
    ensures NamesItsPayload(p, o, run)
  {
    hide SplitPath, Config, BootFiles, Encode, ValidNames, PayloadInfo, WritePath, Cleaned, NamesPayload, Splittable;
    if o.payload.Some? && o.appendPayloadInfo {
      var s := WritePath(run.start, SplitPath(o.payloadName).value, o.payload.value, o.payloadLayout);
      var offset := p.ClusterOffset(s.result.value[0]);
      PayloadInfoReads(offset, |o.payload.value|, o.payloadName);
      assert run.append[|o.append|..] == PayloadInfo(offset, |o.payload.value|, o.payloadName);
    }
  }

  method StageBoot(p: FatxPartition, o: Options, append: string) returns (r: Outcome<(), MainError>)
    requires p.Valid()
    modifies p
    ensures p.Valid() && SameOutside(old(p.image), p.image, p.geo) && StaysSound(old(p.vol), p.vol)
    ensures r.Ok? ==> IsAscii(Config(o, append)) && Splittable(BootFiles(o, Encode(Config(o, append))))
                      && var s := Run(old(p.vol), Jobs(BootFiles(o, Encode(Config(o, append))), o.bootLayout));
                         s.result.Ok? && p.vol == s.vol
  {
    hide VolumeOf, Run, Config, BootFiles, Encode, Sound, StaysSound;
    StaysSoundSame(p.vol);
    var config := Config(o, append);
    if !IsAscii(config) {
      return Err(NotAscii);
    }
    var files := BootFiles(o, Encode(config));
    ghost var n := SplittableCount(files);
    RunStaysSound(p.vol, Jobs(files[..n], o.bootLayout));
    var written := WriteFiles(p, files, o.bootLayout);
    if written.Err? {
      return Err(Raised(written.error));
    }
    assert files[..n] == files;
    r := Ok(());
  }

  method StagePayload(p: FatxPartition, o: Options, payload: seq<byte>) returns (r: Outcome<WriteResult, MainError>)
    requires p.Valid()
    modifies p
    ensures p.Valid() && SameOutside(old(p.image), p.image, p.geo) && StaysSound(old(p.vol), p.vol)
    ensures r.Ok? ==> SplitPath(o.payloadName).Ok?
                      && var s := WritePath(old(p.vol), SplitPath(o.payloadName).value, payload, o.payloadLayout);
                         s.result.Ok? && p.vol == s.vol && s.result.value != [] && s.result.value[0] >= 1
                         && r.value.diskOffset == p.geo.ClusterOffset(s.result.value[0]) && r.value.size == |payload|
  {
    hide VolumeOf, WritePath, SplitPath, Sound, StaysSound;
    StaysSoundSame(p.vol);
    if SplitPath(o.payloadName).Ok? {
      OneJob(p.vol, Job(SplitPath(o.payloadName).value, payload, o.payloadLayout));
      RunStaysSound(p.vol, [Job(SplitPath(o.payloadName).value, payload, o.payloadLayout)]);
    }
    var result := WritePathFile(p, o.payloadName, payload, o.payloadLayout);
    if result.Err? {
      return Err(Raised(result.error));
    }
    r := Ok(result.value);
  }

  lemma OneJob(v: Volume, job: Job)
    requires v.Valid() && job.parts != [] && ValidNames(job.parts)
    ensures ValidJobs([job])
    ensures var s := WritePath(v, job.parts, job.data, job.layout);
            Run(v, [job]) == Step(s.vol, if s.result.Ok? then Ok(()) else Err(s.result.error))
  {
    hide WritePath, Run, ValidNames;
    assert [job][0] == job && [job][1..] == [];
    RunUnfolds(v, [job]);
    RunUnfolds(WritePath(v, job.parts, job.data, job.layout).vol, []);
  }

  /** A completed run writes exactly the payload and the boot files in the chosen order;
      however the run ends, nothing outside the table and the clusters is touched and the
      invariant is kept. */
  method Stage(p: FatxPartition, o: Options) returns (r: Outcome<(), MainError>, ghost run: Staging)
    requires p.Valid()
    modifies p
    ensures p.Valid() && SameOutside(old(p.image), p.image, p.geo)
    ensures forall dirs :: Sound(old(p.vol), dirs) ==> exists dirs' :: Sound(p.vol, dirs')
    ensures o.bootFirst && o.appendPayloadInfo ==> r == Err(UsageError) && p.image == old(p.image)
    ensures r.Ok? ==> IsStaging(p.geo, o, old(p.vol), run) && ValidJobs(run.Order(o.bootFirst))
    ensures r.Ok? ==> NamesItsPayload(p.geo, o, run)
    ensures r.Ok? ==> var s := Run(run.start, run.Order(o.bootFirst)); s.result.Ok? && p.vol == s.vol
  {
    hide VolumeOf, WritePath, Run, Config, SplitPath, Encode, Cleaned, ValidNames, BootFiles, Splittable, PayloadInfo,
         Sound, NamesItsPayload;
    run := Staging(p.vol, o.append, [], []);
    StaysSoundSame(p.vol);
    if o.bootFirst && o.appendPayloadInfo {
      return Err(UsageError), run;
    }
    if o.cleanKnownBoot {
      CleaningStaysSound(p.vol, KNOWN_BOOT_ROOT_FILES);
      var cleaned := CleanNames(p, KNOWN_BOOT_ROOT_FILES);
      if cleaned.Err? {
        return Err(Raised(cleaned.error)), run;
      }
    }
    ghost var v := p.vol;
    var append := o.append;
    if o.bootFirst {
      r := StageBoot(p, o, append);
      StaysSoundThen(old(p.vol), v, p.vol);
      if r.Err? {
        return;
      }
    }
    ghost var middle := p.vol;
    ghost var payload: seq<Job> := [];
    if o.payload.Some? {
      var written := StagePayload(p, o, o.payload.value);
      StaysSoundThen(old(p.vol), middle, p.vol);
      if written.Err? {
        return Err(written.error), run;
      }
      payload := [Job(SplitPath(o.payloadName).value, o.payload.value, o.payloadLayout)];
      OneJob(middle, payload[0]);
      if o.appendPayloadInfo {
        append := append + PayloadInfo(written.value.diskOffset, written.value.size, o.payloadName);
      }
    } else {
      RunUnfolds(middle, []);
    }
    ghost var later := p.vol;
    if !o.bootFirst {
      r := StageBoot(p, o, append);
      StaysSoundThen(old(p.vol), later, p.vol);
      if r.Err? {
        return;
      }
    }
    ghost var boot := Jobs(BootFiles(o, Encode(Config(o, append))), o.bootLayout);
    run := Staging(v, append, payload, boot);
    StagingNamesPayload(p.geo, o, old(p.vol), run);
    if o.bootFirst {
      RunSplits(v, boot, payload);
    } else {
      RunSplits(v, payload, boot);
    }
    r := Ok(());
  }

  // ------------------------------------------------------------ what it achieves

  /** Every boot file, the configuration with the final kernel command line among them, and
      the payload read back to their sources. */
  ghost predicate AllReadBack(v: Volume, o: Options, run: Staging)
    requires v.Valid() && IsAscii(Config(o, run.append))
  {
    && (forall f :: f in BootFiles(o, Encode(Config(o, run.append))) ==>
          SplitPath(f.path).Ok? && ReadPath(v, SplitPath(f.path).value) == Ok(f.data))
    && (o.payload.Some? ==>
          SplitPath(o.payloadName).Ok? && ReadPath(v, SplitPath(o.payloadName).value) == Ok(o.payload.value))
  }

  /** After a completed run over different plain paths, whatever they named before, all the
      files read back if and only if no path is a directory on the way to an earlier one. */
  lemma StagedReadsBack(g: Geometry, o: Options, v: Volume, dirs: set<nat>, run: Staging)
    requires v.Valid() && Sound(v, dirs) && IsStaging(g, o, v, run) && ValidJobs(run.Order(o.bootFirst))
    requires AllPlain(run.Order(o.bootFirst)) && DifferentPaths(run.Order(o.bootFirst))
    requires Run(run.start, run.Order(o.bootFirst)).result.Ok?
    ensures AllReadBack(Run(run.start, run.Order(o.bootFirst)).vol, o, run) <==> Independent(run.Order(o.bootFirst))
  {
    hide Run, SplitPath, ReadPath, Config, BootFiles, Encode, Sound, Independent, WritePath, ValidNames, PayloadInfo,
         DifferentPaths, Plain, Cleaned, KNOWN_BOOT_ROOT_FILES;
    var dirs' := dirs;
    if o.cleanKnownBoot {
      dirs' := CleaningKeepsInvariant(v, dirs, KNOWN_BOOT_ROOT_FILES);
    }
    var jobs := run.Order(o.bootFirst);
    RunReadsBackIff(run.start, dirs', jobs);
    JobsReadBack(g, o, v, run, Run(run.start, jobs).vol);
  }

  ghost predicate JobsRead(v: Volume, jobs: seq<Job>)
    requires v.Valid() && ValidJobs(jobs)
  {
    forall i :: 0 <= i < |jobs| ==> ReadPath(v, jobs[i].parts) == Ok(jobs[i].data)
  }

  lemma BothRead(v: Volume, a: seq<Job>, b: seq<Job>)
    requires v.Valid() && ValidJobs(a) && ValidJobs(b) && ValidJobs(a + b)
    ensures JobsRead(v, a + b) <==> JobsRead(v, a) && JobsRead(v, b)
  {
    hide ReadPath, ValidNames;
    assert forall i :: 0 <= i < |a| ==> (a + b)[i] == a[i];
    assert forall i :: 0 <= i < |b| ==> (a + b)[|a| + i] == b[i];
    assert forall i :: |a| <= i < |a + b| ==> (a + b)[i] == b[i - |a|];
  }

  lemma OneRead(v: Volume, job: Job)
    requires v.Valid() && ValidJobs([job])
    ensures JobsRead(v, [job]) <==> ReadPath(v, [job][0].parts) == Ok(job.data)
  {
    hide ReadPath, ValidNames;
    assert [job][0] == job;
  }

  lemma FilesRead(v: Volume, files: seq<File>, layout: Layout)
    requires v.Valid() && Splittable(files)
    ensures JobsRead(v, Jobs(files, layout)) <==>
            forall f :: f in files ==> SplitPath(f.path).Ok? && ReadPath(v, SplitPath(f.path).value) == Ok(f.data)
  {
    hide ReadPath, SplitPath, ValidNames;
    var jobs := Jobs(files, layout);
    assert forall i :: 0 <= i < |files| ==> files[i] in files && jobs[i].data == files[i].data;
  }

  lemma JobsReadBack(g: Geometry, o: Options, v: Volume, run: Staging, v': Volume)
    requires v.Valid() && v'.Valid() && IsStaging(g, o, v, run) && ValidJobs(run.Order(o.bootFirst))
    ensures AllReadBack(v', o, run) <==> JobsRead(v', run.Order(o.bootFirst))
  {
    hide SplitPath, ReadPath, Config, BootFiles, Encode, WritePath, ValidNames, PayloadInfo, Cleaned, Splittable;
    FilesRead(v', BootFiles(o, Encode(Config(o, run.append))), o.bootLayout);
    if o.payload.Some? {
      OneRead(v', run.payload[0]);
    }
    if o.bootFirst {
      BothRead(v', run.boot, run.payload);
    } else {
      BothRead(v', run.payload, run.boot);
    }
  }

  /** The offset and size on the kernel command line are those of a byte range of the raw
      image that holds the payload: a loop device set up with them shows the payload. */
  lemma CommandLineLocatesPayload(g: Geometry, o: Options, v: Volume, dirs: set<nat>, run: Staging, image: seq<byte>)
    returns (offset: nat)
    requires Sound(v, dirs) && IsStaging(g, o, v, run) && ValidJobs(run.Order(o.bootFirst))
    requires o.payload.Some? && o.payloadLayout == Contiguous && o.appendPayloadInfo && !o.bootFirst
    requires Plain(run.payload[0].parts) && forall i :: 0 <= i < |run.boot| ==> Apart(run.payload[0].parts, run.boot[i].parts)
    requires Run(run.start, run.Order(o.bootFirst)).result.Ok?
    requires Fits(image, g) && VolumeOf(image, g) == Run(run.start, run.Order(o.bootFirst)).vol
    ensures run.append == o.append + PayloadInfo(offset, |o.payload.value|, o.payloadName)
    ensures NamesPayload(run.append[|o.append|..], offset, |o.payload.value|, o.payloadName)
    ensures offset + |o.payload.value| <= |image| && image[offset..offset + |o.payload.value|] == o.payload.value
  {
    hide Run, SplitPath, Config, BootFiles, Encode, Sound, ValidNames, PayloadInfo, VolumeOf, WritePath, Apart,
         Plain, Cleaned, KNOWN_BOOT_ROOT_FILES, NamesPayload;
    var dirs' := dirs;
    if o.cleanKnownBoot {
      dirs' := CleaningKeepsInvariant(v, dirs, KNOWN_BOOT_ROOT_FILES);
    }
    var payload := run.payload[0];
    assert run.payload == [payload] && run.Order(o.bootFirst) == [] + ([payload] + run.boot);
    RunUnfolds(run.start, []);
    PayloadIsFlat(run.start, dirs', [], payload, run.boot, image, g);
    offset := g.ClusterOffset(WritePath(run.start, payload.parts, payload.data, payload.layout).result.value[0]);
    PayloadInfoReads(offset, |o.payload.value|, o.payloadName);
    assert run.append[|o.append|..] == PayloadInfo(offset, |o.payload.value|, o.payloadName);
  }
}
