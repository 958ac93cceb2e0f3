/** Where the stager does less than its callers might expect: paths whose last component
    repeats an earlier one, and paths that name a directory. */
module FatxLimits {
  import opened Bytes
  import opened FatTable
  import opened FatAlloc
  import opened FatDirectory
  import opened FatSlot
  import opened FatxFs
  import opened FatxVolume
  import opened FatxSafety
  import opened FatxPaths
  import opened FatxRoundTrip
  import opened FatxTheorems

  // --------------------------------------------------- repeated last components

  /** The components that read_path_file descends into. */
  function Descended(parts: seq<string>, last: string): (r: seq<string>)
    ensures |r| <= |parts|
    ensures (exists i :: 0 <= i < |parts| && parts[i] == last) ==> |r| < |parts|
  {
    if parts == [] then []
    else if parts[0] == last then Descended(parts[1..], last)
    else [parts[0]] + Descended(parts[1..], last)
  }

  /** After a file has been stored, the walk of the read-back ends at the entry just
      written if and only if no earlier component of the path equals the last one. */
  lemma ReadBackFindsEntryIffPlain(v: Volume, dirs: set<nat>, parts: seq<string>, data: seq<byte>, layout: Layout)
    returns (dirs': set<nat>, d: nat, k: string)
    requires Sound(v, dirs) && parts != [] && ValidNames(parts)
    requires Store(v, parts, data, layout).result.Ok?
    ensures var stored := Store(v, parts, data, layout);
      && FileStored(stored.vol, dirs', d, k, data, stored.result.value)
      && Walk(Abs(stored.vol, dirs'), ROOT, Parents(parts)) == Some(d) && k == Lower(LastName(parts))
      && (Plain(parts) <==>
            var r := Locate(stored.vol, ROOT, parts, LastName(parts)); r.Ok? && r.value.dir == d && r.value.key == k)
  {
    hide Inv, WellFormed, Cells, Listing, Around, Store, Locate, Follow, Walk, Lower;
    dirs', d, k := StoreStep(v, dirs, parts, data, layout);
    var v' := Store(v, parts, data, layout).vol;
    var fs' := Abs(v', dirs');
    RootListed(v', dirs');
    LocateIsFollow(v', dirs', ROOT, parts, LastName(parts));
    if Plain(parts) {
      FollowPlain(fs', ROOT, parts);
    } else if Follow(fs', ROOT, parts, LastName(parts)).Ok? {
      FollowArrives(fs', ROOT, parts, LastName(parts));
      NotOwnEntry(fs', parts, Follow(fs', ROOT, parts, LastName(parts)).value.dir, d);
    }
  }

  lemma NotOwnEntry(fs: Fs, parts: seq<string>, e: nat, d: nat)
    requires Inv(fs) && parts != [] && !Plain(parts)
    requires Walk(fs, ROOT, LowerAll(Descended(parts[..|parts| - 1], LastName(parts)))) == Some(e)
    requires Walk(fs, ROOT, Parents(parts)) == Some(d)
    ensures e != d
  {
    var n := |parts| - 1;
    var i :| 0 <= i < n && parts[i] == LastName(parts);
    assert parts[..n][i] == LastName(parts);
    if e == d {
      WalkUnique(fs, LowerAll(Descended(parts[..n], LastName(parts))), Parents(parts), d);
      assert false;
    }
  }

  /** A path x/x is never written successfully, whatever it names: the read-back stops at
      the directory x. */
  lemma RepeatedNameFails(v: Volume, dirs: set<nat>, x: string, data: seq<byte>, layout: Layout)
    requires Sound(v, dirs) && ValidName(x)
    ensures WritePath(v, [x, x], data, layout).result.Err?
    ensures Store(v, [x, x], data, layout).result.Ok? ==> WritePath(v, [x, x], data, layout).result == Err(NotFound)
  {
    hide Inv, WellFormed, Cells, Listing, Around, Store, Locate;
    var parts := [x, x];
    var dirs', d, k := StoreStep(v, dirs, parts, data, layout);
    var v' := Store(v, parts, data, layout).vol;
    RootListed(v', dirs');
    LocateIsFollow(v', dirs', ROOT, parts, x);
    assert parts[1..] == [x];
    assert Parents(parts) == [Lower(x)];
  }

  // ------------------------------------- reading paths with repeated components

  /** The path that read_path_file effectively follows. */
  function Effective(q: seq<string>): (r: seq<string>)
    requires q != []
    ensures r != []
  {
    Descended(q[..|q| - 1], q[|q| - 1]) + [q[|q| - 1]]
  }

  /** Some component that equals the last one is looked up at the given path; the last one
      itself is looked up at the effective path. */
  ghost predicate LooksUp(q: seq<string>, keys: seq<string>)
    requires q != []
  {
    exists i :: 0 <= i < |q| && q[i] == q[|q| - 1] && LooksUpAt(q, keys, i)
  }

  ghost predicate LooksUpAt(q: seq<string>, keys: seq<string>, i: nat)
    requires i < |q|
  {
    keys == LowerAll(Descended(q[..i], q[|q| - 1])) + [Lower(q[|q| - 1])]
  }

  lemma {:induction false} DescendedPrefix(q: seq<string>, last: string, i: nat, j: nat)
    requires i <= j <= |q|
    ensures LowerAll(Descended(q[..i], last)) <= LowerAll(Descended(q[..j], last))
  {
    if i > 0 {
      DescendedPrefix(q[1..], last, i - 1, j - 1);
      assert q[..i][1..] == q[1..][..i - 1] && q[..j][1..] == q[1..][..j - 1];
      var a, b := Descended(q[1..][..i - 1], last), Descended(q[1..][..j - 1], last);
      assert LowerAll([q[0]] + a) == [Lower(q[0])] + LowerAll(a);
      assert LowerAll([q[0]] + b) == [Lower(q[0])] + LowerAll(b);
    }
  }

  lemma DescendedFirst(q: seq<string>, last: string, i: nat)
    requires 1 <= i <= |q|
    ensures q[0] == last ==> Descended(q[..i], last) == Descended(q[1..][..i - 1], last)
    ensures q[0] != last ==> var rest := LowerAll(Descended(q[1..][..i - 1], last));
                             LowerAll(Descended(q[..i], last)) == [Lower(q[0])] + rest
                             && LowerAll(Descended(q[..i], last))[1..] == rest
  {
    assert q[..i][1..] == q[1..][..i - 1];
    var rest := Descended(q[1..][..i - 1], last);
    assert LowerAll([q[0]] + rest) == [Lower(q[0])] + LowerAll(rest);
  }

  /** A successful walk has found something at each of its lookups. */
  lemma {:induction false} FollowLooksUp(fs: Fs, d: nat, q: seq<string>, last: string, i: nat)
    requires q != [] && q[|q| - 1] == last && Follow(fs, d, q, last).Ok? && i < |q|
    ensures var w := Walk(fs, d, LowerAll(Descended(q[..i], last)));
      w.Some? && (q[i] == last ==> Has(fs, w.value, Lower(last)))
    decreases |q|
  {
    if i > 0 {
      DescendedFirst(q, last, i);
      FollowLooksUp(fs, if q[0] != last then At(fs, d, Lower(q[0])).cluster else d, q[1..], last, i - 1);
    }
  }

  lemma FollowArrives(fs: Fs, d: nat, q: seq<string>, last: string)
    requires q != [] && q[|q| - 1] == last && Follow(fs, d, q, last).Ok?
    ensures var t := Follow(fs, d, q, last).value;
      && Walk(fs, d, LowerAll(Descended(q[..|q| - 1], last))) == Some(t.dir)
      && t.key == Lower(last) && Has(fs, t.dir, t.key) && t.meta == At(fs, t.dir, t.key)
    decreases |q|
  {
    if |q| > 1 {
      DescendedFirst(q, last, |q| - 1);
      FollowArrives(fs, if q[0] != last then At(fs, d, Lower(q[0])).cluster else d, q[1..], last);
    }
  }

  /** The directories on the way are the same, and the lookups still find something: then
      the walk ends in the same directory. */
  lemma {:induction false} FollowKept(fs: Fs, fs': Fs, d: nat, q: seq<string>, last: string)
    requires q != [] && q[|q| - 1] == last && Follow(fs, d, q, last).Ok?
    requires forall i :: 0 <= i < |q| ==>
               Walk(fs', d, LowerAll(Descended(q[..i], last))) == Walk(fs, d, LowerAll(Descended(q[..i], last)))
    requires forall i :: 0 <= i < |q| && q[i] == last ==>
               var w := Walk(fs', d, LowerAll(Descended(q[..i], last))); w.Some? && Has(fs', w.value, Lower(last))
    ensures Follow(fs', d, q, last).Ok?
    decreases |q|
  {
    hide LowerAll, Lower, Descended;
    assert q[..0] == [];
    NoneDescended(last);
    if |q| > 1 {
      var next := if q[0] != last then At(fs, d, Lower(q[0])).cluster else d;
      if q[0] != last {
        DescendedFirst(q, last, 1);
        assert q[1..][..0] == [];
        OneStep(fs, d, Lower(q[0]), next);
        OneStepBack(fs', d, Lower(q[0]), next);
      }
      forall i | 0 <= i < |q[1..]|
        ensures Walk(fs, next, LowerAll(Descended(q[1..][..i], last))) == Walk(fs, d, LowerAll(Descended(q[..i + 1], last)))
        ensures Walk(fs', next, LowerAll(Descended(q[1..][..i], last))) == Walk(fs', d, LowerAll(Descended(q[..i + 1], last)))
      {
        DescendedFirst(q, last, i + 1);
      }
      assert forall i :: 0 <= i < |q[1..]| ==> q[1..][i] == q[i + 1];
      FollowKept(fs, fs', next, q[1..], last);
    }
  }

  lemma NoneDescended(last: string)
    ensures Descended([], last) == [] && LowerAll([]) == []
  {
  }

  lemma OneStep(fs: Fs, d: nat, key: string, next: nat)
    requires IsDirectoryEntry(fs, d, key, next)
    ensures Walk(fs, d, [key]) == Some(next)
  {
    assert [key][1..] == [];
  }

  lemma OneStepBack(fs: Fs, d: nat, key: string, next: nat)
    requires Walk(fs, d, [key]) == Some(next)
    ensures IsDirectoryEntry(fs, d, key, next)
  {
    assert [key][1..] == [];
  }

  lemma EffectiveSplits(q: seq<string>)
    requires q != []
    ensures Parents(Effective(q)) == LowerAll(Descended(q[..|q| - 1], q[|q| - 1]))
    ensures LowerAll(Effective(q)) == Parents(Effective(q)) + [Lower(q[|q| - 1])]
  {
    LowerSplit(Effective(q));
    assert Effective(q)[..|Effective(q)| - 1] == Descended(q[..|q| - 1], q[|q| - 1]);
  }

  lemma SplitEqual(p: seq<string>, x: string, q: seq<string>, y: string)
    requires p + [x] == q + [y]
    ensures p == q && x == y
  {
    assert |p| == |q| && (p + [x])[..|p|] == p && (q + [y])[..|q|] == q;
    assert (p + [x])[|p|] == x && (q + [y])[|q|] == y;
  }

  lemma ReadIsFollow(v: Volume, dirs: set<nat>, q: seq<string>)
    requires Sound(v, dirs) && q != []
    ensures var r := Follow(Abs(v, dirs), ROOT, q, q[|q| - 1]);
      ReadPath(v, q) == if r.Err? then Err(r.error) else if r.value.meta.IsDir() then Err(NotFound) else ReadFile(v, r.value.meta)
  {
    hide Inv, WellFormed, Cells, Listing, Locate, Follow, ReadFile;
    RootListed(v, dirs);
    LocateIsFollow(v, dirs, ROOT, q, q[|q| - 1]);
  }

  /** The directory in which component i is looked up is reached as before. */
  lemma StillReached(fs: Fs, fs': Fs, d0: nat, k0: string, parts: seq<string>, q: seq<string>, i: nat)
    requires Inv(fs) && Inv(fs') && parts != [] && EntriesKept(fs, fs', d0, k0) && AtPath(fs, fs', Parents(parts), d0)
    requires d0 != 0 ==> k0 == Lower(LastName(parts))
    requires q != [] && i < |q| && Follow(fs, ROOT, q, q[|q| - 1]).Ok?
    requires !(LowerAll(parts) <= Parents(Effective(q)))
    ensures var keys := LowerAll(Descended(q[..i], q[|q| - 1]));
      && Walk(fs, ROOT, keys).Some? && Walk(fs', ROOT, keys) == Walk(fs, ROOT, keys)
      && Walk(fs, ROOT, keys).value in fs'.dirs
      && (q[i] == q[|q| - 1] ==> Has(fs, Walk(fs, ROOT, keys).value, Lower(q[|q| - 1])))
  {
    hide Inv, EntriesKept, Walk, Follow, Lower, LowerAll, Descended, Effective;
    var last := q[|q| - 1];
    FollowLooksUp(fs, ROOT, q, last, i);
    DescendedPrefix(q, last, i, |q| - 1);
    EffectiveSplits(q);
    LowerSplit(parts);
    WalkAround(fs, fs', Parents(parts), d0, k0, LowerAll(Descended(q[..i], last)));
  }

  /** If no directory on the way is overwritten and every lookup still finds something, the
      walk ends in the same directory as before. */
  lemma StillArrives(v: Volume, dirs: set<nat>, v': Volume, dirs': set<nat>, d0: nat, k0: string, parts: seq<string>, q: seq<string>)
    requires parts != [] && WrittenAtPath(v, dirs, v', dirs', d0, k0, parts)
    requires q != [] && Follow(Abs(v, dirs), ROOT, q, q[|q| - 1]).Ok?
    requires !(LowerAll(parts) <= Parents(Effective(q)))
    requires (d0 != 0 && Has(Abs(v', dirs'), d0, k0)) || !LooksUp(q, LowerAll(parts))
    ensures Follow(Abs(v', dirs'), ROOT, q, q[|q| - 1]).Ok?
  {
    hide Inv, WellFormed, Cells, Listing, Around, EntriesKept, Walk, Follow, Lower, LowerAll, Descended,
         Effective, Overwrites, LooksUpAt;
    var fs, fs', last := Abs(v, dirs), Abs(v', dirs'), q[|q| - 1];
    AroundKeepsEntries(v, dirs, v', dirs', d0, k0);
    RootThere(fs');
    forall i | 0 <= i < |q|
      ensures var keys := LowerAll(Descended(q[..i], last)); Walk(fs', ROOT, keys) == Walk(fs, ROOT, keys)
      ensures q[i] == last ==> var w := Walk(fs', ROOT, LowerAll(Descended(q[..i], last))); w.Some? && Has(fs', w.value, Lower(last))
    {
      StillReached(fs, fs', d0, k0, parts, q, i);
      if q[i] == last {
        StillFound(fs, fs', d0, k0, parts, q, i);
      }
    }
    FollowKept(fs, fs', ROOT, q, last);
  }

  lemma StillFound(fs: Fs, fs': Fs, d0: nat, k0: string, parts: seq<string>, q: seq<string>, i: nat)
    requires Inv(fs) && Inv(fs') && parts != [] && EntriesKept(fs, fs', d0, k0)
    requires d0 != 0 ==> k0 == Lower(LastName(parts)) && Walk(fs', ROOT, Parents(parts)) == Some(d0)
    requires i < |q| && q[i] == q[|q| - 1]
    requires var w := Walk(fs', ROOT, LowerAll(Descended(q[..i], q[|q| - 1])));
      w.Some? && w.value in fs'.dirs && w.value != 0 && Has(fs, w.value, Lower(q[|q| - 1]))
    requires (d0 != 0 && Has(fs', d0, k0)) || !LooksUp(q, LowerAll(parts))
    ensures Has(fs', Walk(fs', ROOT, LowerAll(Descended(q[..i], q[|q| - 1]))).value, Lower(q[|q| - 1]))
  {
    hide Inv, Walk, Lower, LowerAll, Descended;
    var keys := LowerAll(Descended(q[..i], q[|q| - 1]));
    var w := Walk(fs', ROOT, keys).value;
    if w == d0 && Lower(q[|q| - 1]) == k0 {
      WalkUnique(fs', keys, Parents(parts), d0);
      LowerSplit(parts);
      assert LooksUpAt(q, LowerAll(parts), i);
    }
  }

  /** Below an overwritten directory nothing can be read, repeated components included. */
  lemma BelowUnreadable(v: Volume, dirs: set<nat>, v': Volume, dirs': set<nat>, d0: nat, k0: string, parts: seq<string>, q: seq<string>)
    requires parts != [] && WrittenAtPath(v, dirs, v', dirs', d0, k0, parts)
    requires q != [] && Walk(Abs(v, dirs), ROOT, Parents(parts)).Some?
    requires LowerAll(parts) <= Parents(Effective(q))
    ensures ReadPath(v', q).Err?
  {
    hide Inv, WellFormed, Cells, Listing, Around, Walk, Follow, Lower, LowerAll, Descended, Effective,
         Overwrites, ReadFile;
    var fs', last := Abs(v', dirs'), q[|q| - 1];
    ReadIsFollow(v', dirs', q);
    EffectiveSplits(q);
    NoLongerDirectory(v, dirs, v', dirs', d0, k0, parts);
    if Follow(fs', ROOT, q, last).Ok? {
      FollowArrives(fs', ROOT, q, last);
      WalkPrefix(fs', ROOT, LowerAll(parts), Parents(Effective(q)));
    }
  }

  /** A readable path, and where its walk ends. */
  lemma ReadableArrives(v: Volume, dirs: set<nat>, q: seq<string>)
    requires Sound(v, dirs) && q != [] && ReadPath(v, q).Ok?
    ensures var r := Follow(Abs(v, dirs), ROOT, q, q[|q| - 1]);
      && r.Ok? && !r.value.meta.IsDir() && ReadPath(v, q) == ReadFile(v, r.value.meta)
      && Walk(Abs(v, dirs), ROOT, Parents(Effective(q))) == Some(r.value.dir) && r.value.key == Lower(q[|q| - 1])
      && Has(Abs(v, dirs), r.value.dir, r.value.key) && r.value.meta == At(Abs(v, dirs), r.value.dir, r.value.key)
  {
    hide Inv, WellFormed, Cells, Listing, Walk, Follow, Lower, LowerAll, Descended, Effective, ReadFile;
    ReadIsFollow(v, dirs, q);
    FollowArrives(Abs(v, dirs), ROOT, q, q[|q| - 1]);
    EffectiveSplits(q);
  }

  /** A walk to another path ends at the same entry as before, not at the written one. */
  lemma SameEnd(v: Volume, dirs: set<nat>, v': Volume, dirs': set<nat>, d0: nat, k0: string, parts: seq<string>, q: seq<string>)
    requires parts != [] && WrittenAtPath(v, dirs, v', dirs', d0, k0, parts)
    requires q != [] && ReadPath(v, q).Ok? && LowerAll(Effective(q)) != LowerAll(parts)
    requires !(LowerAll(parts) <= Parents(Effective(q))) && Follow(Abs(v', dirs'), ROOT, q, q[|q| - 1]).Ok?
    ensures var r, r' := Follow(Abs(v, dirs), ROOT, q, q[|q| - 1]), Follow(Abs(v', dirs'), ROOT, q, q[|q| - 1]);
      && r.Ok? && r'.value.dir == r.value.dir && r'.value.key == r.value.key && r.value.dir in dirs'
      && (r.value.dir != d0 || r.value.key != k0)
  {
    hide Inv, WellFormed, Cells, Listing, Around, EntriesKept, Walk, Follow, Lower, LowerAll, Descended,
         Effective, Overwrites, ReadPath;
    var fs, fs', last := Abs(v, dirs), Abs(v', dirs'), q[|q| - 1];
    ReadableArrives(v, dirs, q);
    AroundKeepsEntries(v, dirs, v', dirs', d0, k0);
    StillReached(fs, fs', d0, k0, parts, q, |q| - 1);
    EffectiveSplits(q);
    LowerSplit(parts);
    FollowArrives(fs', ROOT, q, last);
    RootListed(v', dirs');
    var t := Follow(fs, ROOT, q, last).value;
    if t.dir == d0 && t.key == k0 {
      WalkUnique(fs', Parents(Effective(q)), Parents(parts), d0);
    }
  }

  lemma ReadsElsewhere(v: Volume, dirs: set<nat>, v': Volume, dirs': set<nat>, d0: nat, k0: string, parts: seq<string>, q: seq<string>)
    requires parts != [] && WrittenAtPath(v, dirs, v', dirs', d0, k0, parts)
    requires q != [] && ReadPath(v, q).Ok? && LowerAll(Effective(q)) != LowerAll(parts)
    requires !(LowerAll(parts) <= Parents(Effective(q))) && Follow(Abs(v', dirs'), ROOT, q, q[|q| - 1]).Ok?
    ensures ReadPath(v', q) == ReadPath(v, q)
  {
    hide Inv, WellFormed, Cells, Listing, Around, Walk, Follow, Lower, LowerAll, Descended, Effective,
         Overwrites, ReadFile, FileKept,
         ReadPath;
    ReadableArrives(v, dirs, q);
    SameEnd(v, dirs, v', dirs', d0, k0, parts, q);
    ReadIsFollow(v', dirs', q);
    FollowArrives(Abs(v', dirs'), ROOT, q, q[|q| - 1]);
    var t := Follow(Abs(v, dirs), ROOT, q, q[|q| - 1]).value;
    AroundAt(v, dirs, v', dirs', d0, k0, t.dir, t.key);
    KeptHas(v, dirs, v', dirs', t.dir, t.key);
    KeptReads(v, dirs, v', dirs', t.dir, t.key);
  }

  /** What every path reads once a file has been stored, whatever the written path named:
      a path that could be read before, repeated components included, gives the new file
      exactly if it effectively leads to the written path, nothing if it leads below it,
      and else the same bytes as before. */
  lemma CompletedWrite(v: Volume, dirs: set<nat>, parts: seq<string>, data: seq<byte>, layout: Layout,
                       q: seq<string>, bytes: seq<byte>)
    requires Sound(v, dirs) && parts != [] && ValidNames(parts)
    requires Store(v, parts, data, layout).result.Ok?
    requires q != [] && ReadPath(v, q) == Ok(bytes)
    ensures var s := Store(v, parts, data, layout);
            var r := ReadPath(WritePath(v, parts, data, layout).vol, q);
      && s.result.value != []
      && (LowerAll(parts) <= Parents(Effective(q)) ==> r.Err?)
      && (LowerAll(parts) == LowerAll(Effective(q)) ==>
            r == if CutAt(s.result.value, 1) == |s.result.value| then Ok(data) else Err(ShortChain))
      && (!(LowerAll(parts) <= LowerAll(Effective(q))) ==> r == Ok(bytes))
  {
    hide Inv, WellFormed, Cells, Listing, Around, Store, Walk, Follow, Effective, LowerAll, Lower, ReadFile,
         Holds, ReadPath, LooksUp,
         Overwrites;
    var dirs', d, k := StoreStep(v, dirs, parts, data, layout);
    var v' := Store(v, parts, data, layout).vol;
    ReadableArrives(v, dirs, q);
    EffectiveSplits(q);
    if LowerAll(parts) <= Parents(Effective(q)) {
      LowerSplit(parts);
      WalkPrefix(Abs(v, dirs), ROOT, Parents(parts), Parents(Effective(q)));
      BelowUnreadable(v, dirs, v', dirs', d, k, parts, q);
    } else {
      StillArrives(v, dirs, v', dirs', d, k, parts, q);
      if LowerAll(parts) == LowerAll(Effective(q)) {
        ReadsStored(v, dirs, v', dirs', d, k, parts, q, data, Store(v, parts, data, layout).result.value);
      } else {
        ReadsElsewhere(v, dirs, v', dirs', d, k, parts, q);
      }
    }
  }

  lemma ReadsStored(v: Volume, dirs: set<nat>, v': Volume, dirs': set<nat>, d: nat, k: string, parts: seq<string>, q: seq<string>,
                    data: seq<byte>, cs: seq<nat>)
    requires parts != [] && WrittenAtPath(v, dirs, v', dirs', d, k, parts) && d != 0 && FileStored(v', dirs', d, k, data, cs)
    requires q != [] && LowerAll(parts) == LowerAll(Effective(q)) && Follow(Abs(v', dirs'), ROOT, q, q[|q| - 1]).Ok?
    ensures ReadPath(v', q) == if CutAt(cs, 1) == |cs| then Ok(data) else Err(ShortChain)
  {
    hide Inv, WellFormed, Cells, Listing, Around, Walk, Follow, Effective, LowerAll, Lower, ReadFile, Holds,
         Descended, Chain;
    ReadIsFollow(v', dirs', q);
    FollowArrives(Abs(v', dirs'), ROOT, q, q[|q| - 1]);
    EffectiveSplits(q);
    LowerSplit(parts);
    SplitEqual(Parents(Effective(q)), Lower(q[|q| - 1]), Parents(parts), Lower(LastName(parts)));
    ReadStored(v', dirs', d, k, data, cs);
  }

  /** What every path reads after a write that raised before its file was stored: a path
      that could be read before is still read exactly if it does not lead below the written
      path and none of its components that equal the last one is looked up there. */
  lemma RaisedWrite(v: Volume, dirs: set<nat>, parts: seq<string>, data: seq<byte>, layout: Layout,
                    q: seq<string>, bytes: seq<byte>)
    requires Sound(v, dirs) && parts != [] && ValidNames(parts)
    requires Store(v, parts, data, layout).result.Err?
    requires q != [] && ReadPath(v, q) == Ok(bytes)
    ensures var r := ReadPath(WritePath(v, parts, data, layout).vol, q);
      if LowerAll(parts) <= Parents(Effective(q)) || LooksUp(q, LowerAll(parts)) then r.Err? else r == Ok(bytes)
  {
    hide Inv, WellFormed, Cells, Listing, Around, Store, Walk, Follow, Effective, LowerAll, Lower, ReadFile,
         ReadPath, LooksUp,
         Overwrites;
    var dirs', d, k := StoreStep(v, dirs, parts, data, layout);
    var v' := Store(v, parts, data, layout).vol;
    ReadableArrives(v, dirs, q);
    EffectiveSplits(q);
    if LowerAll(parts) <= Parents(Effective(q)) {
      LowerSplit(parts);
      WalkPrefix(Abs(v, dirs), ROOT, Parents(parts), Parents(Effective(q)));
      BelowUnreadable(v, dirs, v', dirs', d, k, parts, q);
    } else if LooksUp(q, LowerAll(parts)) {
      LookedUpInVain(v, dirs, v', dirs', d, k, parts, q);
    } else {
      StillArrives(v, dirs, v', dirs', d, k, parts, q);
      LastLookup(q);
      ReadsElsewhere(v, dirs, v', dirs', d, k, parts, q);
    }
  }

  lemma LastLookup(q: seq<string>)
    requires q != []
    ensures LooksUp(q, LowerAll(Effective(q)))
  {
    hide Lower, LowerAll, Descended, Effective;
    EffectiveSplits(q);
    assert LooksUpAt(q, LowerAll(Effective(q)), |q| - 1);
  }

  lemma LookedUpInVain(v: Volume, dirs: set<nat>, v': Volume, dirs': set<nat>, d: nat, k: string, parts: seq<string>, q: seq<string>)
    requires parts != [] && WrittenAtPath(v, dirs, v', dirs', d, k, parts) && !Has(Abs(v', dirs'), d, k)
    requires q != [] && Follow(Abs(v, dirs), ROOT, q, q[|q| - 1]).Ok? && LooksUp(q, LowerAll(parts))
    ensures ReadPath(v', q).Err?
  {
    hide Inv, WellFormed, Cells, Listing, Around, Walk, Follow, Effective, LowerAll, Lower, ReadFile, Descended;
    var last := q[|q| - 1];
    var i :| 0 <= i < |q| && q[i] == last && LooksUpAt(q, LowerAll(parts), i);
    LowerSplit(parts);
    SplitEqual(LowerAll(Descended(q[..i], last)), Lower(last), Parents(parts), Lower(LastName(parts)));
    FollowLooksUp(Abs(v, dirs), ROOT, q, last, i);
    ReadIsFollow(v', dirs', q);
    if Follow(Abs(v', dirs'), ROOT, q, last).Ok? {
      FollowLooksUp(Abs(v', dirs'), ROOT, q, last, i);
    }
  }

  // ------------------------------------------------------ overwriting a directory

  /** Writing a file to the path of a directory takes away everything below it, whether
      the write completes or raises: no plain path through it reads any more. */
  lemma OverwrittenDirectoryIsLost(v: Volume, dirs: set<nat>, parts: seq<string>, data: seq<byte>, layout: Layout, q: seq<string>)
    requires Sound(v, dirs) && parts != [] && ValidNames(parts) && NamesDirectory(Abs(v, dirs), parts)
    requires q != [] && Plain(q) && LowerAll(parts) <= Parents(q)
    ensures ReadPath(WritePath(v, parts, data, layout).vol, q).Err?
  {
    hide Inv, WellFormed, Cells, Listing, Around, Store, ReadPath, Walk, LowerAll, Lower, FileStored;
    var dirs', d, k := StoreStep(v, dirs, parts, data, layout);
    var v' := Store(v, parts, data, layout).vol;
    LowerSplit(parts);
    WalkPrefix(Abs(v, dirs), ROOT, Parents(parts), LowerAll(parts));
    NoLongerDirectory(v, dirs, v', dirs', d, k, parts);
    ReadNamed(v', dirs', q);
    if Named(Abs(v', dirs'), ROOT, q).Some? {
      WalkPrefix(Abs(v', dirs'), ROOT, LowerAll(parts), Parents(q));
    }
  }
}
