/** The files that a staging run writes besides the payload: the boot configuration,
    the kernel and the initial ramdisk. */
module FatxConfig {
  import opened Bytes
  import opened FatAlloc
  import opened FatxText

  datatype File = File(path: string, data: seq<byte>)

  datatype Options = Options(
    kernel: seq<byte>, kernelName: string,
    initrd: Option<seq<byte>>, initrdName: string,
    append: string, title: string,
    payload: Option<seq<byte>>, payloadName: string,
    appendPayloadInfo: bool, bootFirst: bool, cleanKnownBoot: bool,
    bootLayout: Layout, payloadLayout: Layout)

  function Config(o: Options, append: string): string {
    "title " + o.title + "\n" + "kernel " + o.kernelName + "\n"
    + (if o.initrd.Some? then "initrd " + o.initrdName + "\n" else "initrd no\n")
    + "append " + append + "\n"
  }

  /** Setting a key of an insertion-ordered dictionary. */
  function Put(files: seq<File>, f: File): (r: seq<File>)
    ensures r != []
  {
    if files == [] then [f]
    else if files[0].path == f.path then [f] + files[1..]
    else [files[0]] + Put(files[1..], f)
  }

  function BootFiles(o: Options, config: seq<byte>): seq<File> {
    var files := Put([File("linuxboot.cfg", config)], File(o.kernelName, o.kernel));
    if o.initrd.Some? then Put(files, File(o.initrdName, o.initrd.value)) else files
  }

  lemma FourLines(a: string, b: string, c: string, d: string)
    requires OneLine(a) && OneLine(b) && OneLine(c) && OneLine(d)
    ensures Lines(a + ("\n" + (b + ("\n" + (c + ("\n" + (d + ("\n" + ""))))))), "") == [a, b, c, d]
  {
    hide Lines, OneLine;
    var rest3 := d + ("\n" + "");
    var rest2 := c + ("\n" + rest3);
    var rest1 := b + ("\n" + rest2);
    LineThen(a, rest1, "");
    LineThen(b, rest2, "");
    LineThen(c, rest3, "");
    LineThen(d, "", "");
    NoLines();
    assert "" + a == a && "" + b == b && "" + c == c && "" + d == d;
    assert [c] + ([d] + []) == [c, d];
    assert [a] + ([b] + [c, d]) == [a, b, c, d];
  }

  /** Unless one of its texts holds a newline, the configuration has these four lines. */
  lemma ConfigLines(o: Options, append: string)
    requires OneLine(o.title) && OneLine(o.kernelName) && OneLine(o.initrdName) && OneLine(append)
    ensures Lines(Config(o, append), "") ==
            ["title " + o.title, "kernel " + o.kernelName,
             if o.initrd.Some? then "initrd " + o.initrdName else "initrd no", "append " + append]
  {
    hide Lines;
    var initrd := if o.initrd.Some? then "initrd " + o.initrdName else "initrd no";
    var a, b, c, d := "title " + o.title, "kernel " + o.kernelName, initrd, "append " + append;
    assert Config(o, append) == a + ("\n" + (b + ("\n" + (c + ("\n" + (d + ("\n" + "")))))));
    FourLines(a, b, c, d);
  }

  lemma NoLines()
    ensures Lines("", "") == []
  {
  }

  // --------------------------------------------------------------- the dictionary

  ghost predicate DistinctPaths(files: seq<File>) {
    forall i, j :: 0 <= i < j < |files| ==> files[i].path != files[j].path
  }

  /** The first file of that path. */
  ghost function Get(files: seq<File>, path: string): Option<seq<byte>> {
    if files == [] then None
    else if files[0].path == path then Some(files[0].data)
    else Get(files[1..], path)
  }

  /** Setting a key changes what is found under it and nothing else. */
  lemma {:induction false} PutIsUpdate(files: seq<File>, f: File, path: string)
    ensures Get(Put(files, f), path) == if path == f.path then Some(f.data) else Get(files, path)
  {
    if files != [] {
      PutIsUpdate(files[1..], f, path);
      assert ([f] + files[1..])[1..] == files[1..];
      assert ([files[0]] + Put(files[1..], f))[1..] == Put(files[1..], f);
    }
  }

  /** The keys stay in their order, and a new one comes last. */
  lemma {:induction false} PutInOrder(files: seq<File>, f: File)
    requires DistinctPaths(files)
    ensures Put(files, f) ==
            if HasPath(files, f.path) then Replaced(files, f) else files + [f]
  {
    if files != [] {
      PutInOrder(files[1..], f);
      var rest := Put(files[1..], f);
      assert forall i :: 1 <= i < |files| ==> files[i] == files[1..][i - 1];
      assert forall i :: 0 <= i < |files| - 1 ==> files[1..][i] == files[i + 1];
      if files[0].path != f.path {
        assert HasPath(files, f.path) <==> HasPath(files[1..], f.path);
      } else {
        assert [f] + files[1..] == Replaced(files, f);
      }
    }
  }

  ghost predicate HasPath(files: seq<File>, path: string) {
    exists i :: 0 <= i < |files| && files[i].path == path
  }

  ghost function Replaced(files: seq<File>, f: File): (r: seq<File>)
    ensures |r| == |files|
  {
    seq(|files|, i requires 0 <= i < |files| => if files[i].path == f.path then f else files[i])
  }

  lemma StaysDistinct(files: seq<File>, f: File)
    requires DistinctPaths(files)
    ensures DistinctPaths(Put(files, f))
  {
    hide Put;
    PutInOrder(files, f);
  }

  /** What is staged under each path: the initial ramdisk shadows the kernel and both shadow
      the configuration; every path is written once. */
  lemma BootFilesAre(o: Options, config: seq<byte>, path: string)
    ensures DistinctPaths(BootFiles(o, config))
    ensures Get(BootFiles(o, config), path) ==
            if o.initrd.Some? && path == o.initrdName then o.initrd
            else if path == o.kernelName then Some(o.kernel)
            else if path == "linuxboot.cfg" then Some(config)
            else None
  {
    hide Put;
    var first := [File("linuxboot.cfg", config)];
    assert first[1..] == [];
    assert Get(first, path) == if path == "linuxboot.cfg" then Some(config) else None;
    PutIsUpdate(first, File(o.kernelName, o.kernel), path);
    StaysDistinct(first, File(o.kernelName, o.kernel));
    if o.initrd.Some? {
      StaysDistinct(Put(first, File(o.kernelName, o.kernel)), File(o.initrdName, o.initrd.value));
      PutIsUpdate(Put(first, File(o.kernelName, o.kernel)), File(o.initrdName, o.initrd.value), path);
    }
  }

  /** With three different names the configuration is written first, then the kernel, then
      the initial ramdisk. */
  lemma BootFilesInOrder(o: Options, config: seq<byte>)
    requires o.kernelName != "linuxboot.cfg" && (o.initrd.Some? ==> o.initrdName !in {"linuxboot.cfg", o.kernelName})
    ensures BootFiles(o, config) ==
            [File("linuxboot.cfg", config), File(o.kernelName, o.kernel)]
            + if o.initrd.Some? then [File(o.initrdName, o.initrd.value)] else []
  {
    hide Put;
    var first, kernel := File("linuxboot.cfg", config), File(o.kernelName, o.kernel);
    PutInOrder([first], kernel);
    assert Put([first], kernel) == [first, kernel];
    if o.initrd.Some? {
      PutInOrder([first, kernel], File(o.initrdName, o.initrd.value));
      assert Put([first, kernel], File(o.initrdName, o.initrd.value)) == [first, kernel, File(o.initrdName, o.initrd.value)];
    }
  }
}
