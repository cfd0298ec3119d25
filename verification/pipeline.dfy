/**
 The body of `main` between the file listing and the printed digest: one
 task per file, spawned in list order; the tasks finish in any order; the
 handles are awaited in list order and folded by the aggregation loop.
 Concurrency is reduced to what it can change: the order in which tasks
 complete, given as a parameter. The semaphore bounds how many tasks run at
 once, which only restricts that order further.
 */
module Pipeline {
  import opened Wrappers
  import opened Md5Context
  import opened HexFormat
  import opened Utf8
  import opened FileDigest
  import opened LexOrder
  import opened Sorting
  import opened Enumerate
  import opened Aggregate
  import opened Sequences

  /** The file system as the tasks find it: what opening each path yields. */
  type FileSystem = string -> File

  /** An order in which `n` spawned tasks complete: every task exactly once. */
  predicate IsCompletionOrder(order: seq<nat>, n: nat) {
    && |order| == n
    && (forall k :: 0 <= k < n ==> order[k] < n)
    && (forall i :: 0 <= i < n ==> i in order)
  }

  /** Result `i` of the handle vector comes from file `i`. */
  function PerFileResults(files: seq<string>, fs: FileSystem, md5: Md5): (rs: seq<Result<string, IoError>>)
    ensures |rs| == |files|
  {
    seq(|files|, i requires 0 <= i < |files| => FileDigestSpec(fs(files[i]), md5))
  }

  /** Lines 99-113 and the awaits of line 117: tasks run `file_md5` in the
      completion order `order`, each storing into its own slot; the slots are
      then read in spawn order. */
  method RunTasks(files: seq<string>, fs: FileSystem, md5: Md5, order: seq<nat>)
    returns (results: seq<Result<string, IoError>>)
    requires IsCompletionOrder(order, |files|)
    ensures |results| == |files|
    ensures forall i :: 0 <= i < |files| ==> results[i] == FileDigestSpec(fs(files[i]), md5)
  {
    var n := |files|;
    var slots: seq<Option<Result<string, IoError>>> := seq(n, _ => None);
    for k := 0 to n
      invariant |slots| == n
      invariant forall i :: 0 <= i < n ==> (slots[i].Some? <==> i in order[..k])
      invariant forall i :: 0 <= i < n && slots[i].Some? ==> slots[i].value == FileDigestSpec(fs(files[i]), md5)
    {
      var task := order[k];
      var r, _ := FileMd5(fs(files[task]), md5);
      slots := slots[task := Some(r)];
      assert order[..k + 1] == order[..k] + [task];
    }
    assert order[..n] == order;
    results := [];
    for i := 0 to n
      invariant |results| == i
      invariant forall j :: 0 <= j < i ==> results[j] == FileDigestSpec(fs(files[j]), md5)
    {
      results := results + [slots[i].value];
    }
  }

  /** What one run of the program prints (without the label), or the error that aborted it. */
  function TreeDigest(entries: seq<WalkEntry>, fs: FileSystem, md5: Md5): Result<string, IoError>
  {
    AggregateSpec(PerFileResults(GetFilesRecursively(entries), fs, md5), md5)
  }

  /** The whole pipeline: list, hash under the given completion order, aggregate. */
  method Md5Tree(entries: seq<WalkEntry>, fs: FileSystem, md5: Md5, order: seq<nat>)
    returns (r: Result<string, IoError>)
    requires IsCompletionOrder(order, |GetFilesRecursively(entries)|)
    ensures r == TreeDigest(entries, fs, md5)
    ensures r.Ok? ==> |r.value| == 32 && IsLowerHex(r.value)
  {
    var files := GetFilesRecursively(entries);
    var results := RunTasks(files, fs, md5, order);
    assert results == PerFileResults(files, fs, md5);
    r := AggregateDigests(results, md5);
  }

  /** Reordering the directory walk changes nothing in the output. */
  lemma TreeDigestIgnoresWalkOrder(e1: seq<WalkEntry>, e2: seq<WalkEntry>, fs: FileSystem, md5: Md5)
    requires multiset(e1) == multiset(e2)
    ensures TreeDigest(e1, fs, md5) == TreeDigest(e2, fs, md5)
  {
    GetFilesIgnoresWalkOrder(e1, e2);
  }

  /** A tree without regular files yields the hex MD5 of the empty message. */
  lemma EmptyTreeDigest(entries: seq<WalkEntry>, fs: FileSystem, md5: Md5)
    requires forall p :: Entry(RegularFile, p) !in entries
    ensures TreeDigest(entries, fs, md5) == Ok(LowerHex(md5([])))
  {
    NoRegularFilesNoPaths(entries);
    var files := GetFilesRecursively(entries);
    assert files == [];
    assert Collect(PerFileResults(files, fs, md5)) == Ok([]);
  }

  lemma {:induction false} NoRegularFilesNoPaths(entries: seq<WalkEntry>)
    requires forall p :: Entry(RegularFile, p) !in entries
    ensures FilePaths(entries) == []
  {
    if |entries| > 0 {
      assert entries[0] in entries;
      assert forall e :: e in entries[1..] ==> e in entries;
      NoRegularFilesNoPaths(entries[1..]);
    }
  }

  /** A root that cannot be walked: a missing root makes the walk yield a
      single error item; a root that exists but cannot be listed yields its own
      directory entry and then the error of listing it. Either way the run
      hashes no file and succeeds with the MD5 of the empty message. */
  lemma MissingRootDigestsEmpty(root: string, fs: FileSystem, md5: Md5)
    ensures TreeDigest([WalkError], fs, md5) == Ok(LowerHex(md5([])))
    ensures TreeDigest([Entry(Directory, root), WalkError], fs, md5) == Ok(LowerHex(md5([])))
  {
    EmptyTreeDigest([WalkError], fs, md5);
    EmptyTreeDigest([Entry(Directory, root), WalkError], fs, md5);
  }

  /** Any failing file aborts the run; the error reported is that of the first
      failing file in sorted order, which need not be the first to fail in time. */
  lemma FailingFileAborts(entries: seq<WalkEntry>, fs: FileSystem, md5: Md5, i: nat)
    requires i < |GetFilesRecursively(entries)|
    requires FileDigestSpec(fs(GetFilesRecursively(entries)[i]), md5).Err?
    ensures TreeDigest(entries, fs, md5).Err?
    ensures exists j :: 0 <= j <= i
                        && TreeDigest(entries, fs, md5) == FileDigestSpec(fs(GetFilesRecursively(entries)[j]), md5)
                        && forall k :: 0 <= k < j ==> FileDigestSpec(fs(GetFilesRecursively(entries)[k]), md5).Ok?
  {
    var files := GetFilesRecursively(entries);
    var results := PerFileResults(files, fs, md5);
    assert results[i].Err?;
    var c := Collect(results);
    var j :| 0 <= j < |results| && results[j] == Err(c.error) && forall k :: 0 <= k < j ==> results[k].Ok?;
    assert j <= i;
    assert TreeDigest(entries, fs, md5) == Err(c.error) == results[j];
    assert results[j] == FileDigestSpec(fs(files[j]), md5);
    assert forall k :: 0 <= k < j ==> results[k] == FileDigestSpec(fs(files[k]), md5);
  }

  /** The hex renderings `file_md5` produces for files that read successfully. */
  function FileHexes(files: seq<string>, fs: FileSystem, md5: Md5): (hexes: seq<string>)
    requires forall i :: 0 <= i < |files| ==> FileDigestSpec(fs(files[i]), md5).Ok?
    ensures |hexes| == |files|
  {
    seq(|files|, i requires 0 <= i < |files| => FileDigestSpec(fs(files[i]), md5).value)
  }

  /** When every file reads successfully, the handle results collect to their hex renderings. */
  lemma CollectReadableResults(files: seq<string>, fs: FileSystem, md5: Md5)
    requires forall i :: 0 <= i < |files| ==> FileDigestSpec(fs(files[i]), md5).Ok?
    ensures Collect(PerFileResults(files, fs, md5)) == Ok(FileHexes(files, fs, md5))
    ensures AllHex32(FileHexes(files, fs, md5))
  {
    var results, hexes := PerFileResults(files, fs, md5), FileHexes(files, fs, md5);
    forall i | 0 <= i < |files|
      ensures results[i] == Ok(hexes[i])
    {
      assert results[i] == FileDigestSpec(fs(files[i]), md5);
    }
    CollectAllOk(results, hexes);
  }

  /** When every file reads successfully, the output is the hex MD5 of the
      per-file hex digests concatenated in sorted order, 32 ASCII bytes per file. */
  lemma TreeDigestOfHexConcatenation(entries: seq<WalkEntry>, fs: FileSystem, md5: Md5)
    requires var files := GetFilesRecursively(entries);
             forall i :: 0 <= i < |files| ==> FileDigestSpec(fs(files[i]), md5).Ok?
    ensures var files := GetFilesRecursively(entries);
            var hexes := FileHexes(files, fs, md5);
            && TreeDigest(entries, fs, md5) == Ok(LowerHex(md5(Encode(Concat(hexes)))))
            && |Encode(Concat(hexes))| == 32 * |files|
            && forall i :: 0 <= i < |files| ==>
                 && fs(files[i]).Readable?
                 && Encode(Concat(hexes))[32 * i .. 32 * i + 32] == Encode(LowerHex(md5(fs(files[i]).contents)))
  {
    AggregateOfReadableFiles(GetFilesRecursively(entries), fs, md5);
  }

  lemma AggregateOfReadableFiles(files: seq<string>, fs: FileSystem, md5: Md5)
    requires forall i :: 0 <= i < |files| ==> FileDigestSpec(fs(files[i]), md5).Ok?
    ensures var hexes := FileHexes(files, fs, md5);
            && AggregateSpec(PerFileResults(files, fs, md5), md5) == Ok(LowerHex(md5(Encode(Concat(hexes)))))
            && |Encode(Concat(hexes))| == 32 * |files|
            && forall i :: 0 <= i < |files| ==>
                 && fs(files[i]).Readable?
                 && Encode(Concat(hexes))[32 * i .. 32 * i + 32] == Encode(LowerHex(md5(fs(files[i]).contents)))
  {
    var hexes := FileHexes(files, fs, md5);
    CollectReadableResults(files, fs, md5);
    JoinedHexLayout(hexes);
    assert forall i :: 0 <= i < |files| ==> fs(files[i]).Readable? && hexes[i] == LowerHex(md5(fs(files[i]).contents));
  }

  /** Files with the same contents give the same output however their reads are split. */
  lemma TreeDigestIgnoresReadSplits(entries: seq<WalkEntry>, fs1: FileSystem, fs2: FileSystem, md5: Md5)
    requires forall p :: p in GetFilesRecursively(entries) ==>
               && FileDigestSpec(fs1(p), md5).Ok? && FileDigestSpec(fs2(p), md5).Ok?
               && fs1(p).contents == fs2(p).contents
    ensures TreeDigest(entries, fs1, md5) == TreeDigest(entries, fs2, md5)
  {
    var files := GetFilesRecursively(entries);
    assert forall i :: 0 <= i < |files| ==> files[i] in files;
    assert PerFileResults(files, fs1, md5) == PerFileResults(files, fs2, md5);
  }

  /** The bytes of "hello" and "world". */
  const Hello: seq<bv8> := [0x68, 0x65, 0x6c, 0x6c, 0x6f]
  const World: seq<bv8> := [0x77, 0x6f, 0x72, 0x6c, 0x64]

  /** A directory `d` holding `a.txt` = "hello" and `b.txt` = "world", walked b first. */
  const ExampleWalk: seq<WalkEntry> :=
    [Entry(Directory, "d"), Entry(RegularFile, "d/b.txt"), WalkError, Entry(RegularFile, "d/a.txt")]

  function ExampleFs(): FileSystem
  {
    p => if p == "d/a.txt" then Readable(Hello, WholeBufferReads(Hello))
         else if p == "d/b.txt" then Readable(World, WholeBufferReads(World))
         else Unopenable(NotFound)
  }

  lemma ExampleFilePaths()
    ensures FilePaths(ExampleWalk) == ["d/b.txt", "d/a.txt"]
  {
    var w := ExampleWalk;
    assert w[1..][1..][1..][1..] == [];
    assert FilePaths(w[1..][1..][1..]) == ["d/a.txt"];
  }

  lemma ExampleFileList()
    ensures GetFilesRecursively(ExampleWalk) == ["d/a.txt", "d/b.txt"]
  {
    var files: seq<string> := ["d/a.txt", "d/b.txt"];
    assert LexLe("/a.txt", "/b.txt");
    assert Sorted(files);
    ExampleFilePaths();
    assert multiset(FilePaths(ExampleWalk)) == multiset(files);
    SortedUnique(GetFilesRecursively(ExampleWalk), files);
  }

  lemma ExampleFileDigests(md5: Md5)
    ensures PerFileResults(["d/a.txt", "d/b.txt"], ExampleFs(), md5)
         == [Ok(LowerHex(md5(Hello))), Ok(LowerHex(md5(World)))]
  {
    var fs := ExampleFs();
    NoFailingReply(Hello, WholeBufferReads(Hello), 0);
    NoFailingReply(World, WholeBufferReads(World), 0);
    assert FileDigestSpec(fs("d/a.txt"), md5) == Ok(LowerHex(md5(Hello)));
    assert FileDigestSpec(fs("d/b.txt"), md5) == Ok(LowerHex(md5(World)));
  }

  /** Two successful results aggregate to the digest of their concatenation. */
  lemma AggregateOfTwo(a: string, b: string, md5: Md5)
    ensures AggregateSpec([Ok(a), Ok(b)], md5) == Ok(LowerHex(md5(Encode(a + b))))
  {
    var results: seq<Result<string, IoError>> := [Ok(a), Ok(b)];
    CollectAllOk(results, [a, b]);
    assert [a, b][..1] == [a] && [a][..0] == [];
    assert Concat([a]) == a;
    assert Concat([a, b]) == a + b;
  }

  /** The example run: the list puts `d/a.txt` first even though the walk
      visits `d/b.txt` first (for every walk order see
      `TreeDigestIgnoresWalkOrder`), and the output is the hex MD5 of
      hex(MD5("hello")) followed by hex(MD5("world")). */
  lemma HelloWorldExample(md5: Md5)
    ensures GetFilesRecursively(ExampleWalk) == ["d/a.txt", "d/b.txt"]
    ensures TreeDigest(ExampleWalk, ExampleFs(), md5)
         == Ok(LowerHex(md5(Encode(LowerHex(md5(Hello)) + LowerHex(md5(World))))))
  {
    ExampleFileList();
    ExampleFileDigests(md5);
    AggregateOfTwo(LowerHex(md5(Hello)), LowerHex(md5(World)), md5);
  }
}
