/**
 `get_files_recursively`: the entries a recursive directory walk yields,
 minus the errored ones and everything that is not a regular file, as path
 strings in sorted order. The walk itself is the input sequence, in
 whatever order the directory traversal produced it.
 */
module Enumerate {
  import opened Sorting

  /** What `DirEntry::file_type` reports; only `RegularFile` passes `is_file()`. */
  datatype FileType = Directory | RegularFile | Symlink | Special

  /** One item of the walk: an `Err` or an entry with its type and displayed path. */
  datatype WalkEntry = WalkError | Entry(fileType: FileType, path: string)

  /** The filter_map / filter / map stages, in walk order. */
  function FilePaths(entries: seq<WalkEntry>): (r: seq<string>)
    ensures forall p :: p in r <==> Entry(RegularFile, p) in entries
  {
    if |entries| == 0 then []
    else
      var rest := FilePaths(entries[1..]);
      assert forall e :: e in entries <==> e == entries[0] || e in entries[1..];
      match entries[0]
      case Entry(RegularFile, p) => [p] + rest
      case _ => rest
  }

  /** Each path occurs in the filtered output as often as a regular-file entry
      with that path occurs in the walk. */
  lemma {:induction false} FilePathsCount(entries: seq<WalkEntry>, p: string)
    ensures multiset(FilePaths(entries))[p] == multiset(entries)[Entry(RegularFile, p)]
  {
    if |entries| > 0 {
      var e, rest := entries[0], entries[1..];
      FilePathsCount(rest, p);
      assert entries == [e] + rest;
      assert multiset(entries)[Entry(RegularFile, p)]
          == multiset{e}[Entry(RegularFile, p)] + multiset(rest)[Entry(RegularFile, p)];
      if e.Entry? && e.fileType == RegularFile {
        assert FilePaths(entries) == [e.path] + FilePaths(rest);
        assert multiset(FilePaths(entries))[p] == multiset{e.path}[p] + multiset(FilePaths(rest))[p];
      } else {
        assert FilePaths(entries) == FilePaths(rest);
      }
    }
  }

  /** The filtered paths, as a multiset, depend only on the multiset of walk entries. */
  lemma FilePathsPermutation(e1: seq<WalkEntry>, e2: seq<WalkEntry>)
    requires multiset(e1) == multiset(e2)
    ensures multiset(FilePaths(e1)) == multiset(FilePaths(e2))
  {
    forall p: string
      ensures multiset(FilePaths(e1))[p] == multiset(FilePaths(e2))[p]
    {
      FilePathsCount(e1, p);
      FilePathsCount(e2, p);
    }
  }

  /** `get_files_recursively`. */
  function GetFilesRecursively(entries: seq<WalkEntry>): (r: seq<string>)
    ensures Sorted(r)
    ensures multiset(r) == multiset(FilePaths(entries))
    ensures forall p :: p in r <==> Entry(RegularFile, p) in entries
  {
    var r := Sort(FilePaths(entries));
    assert forall p :: p in r <==> p in multiset(r);
    r
  }

  /** The file list does not depend on the order in which the walk visited the tree. */
  lemma GetFilesIgnoresWalkOrder(e1: seq<WalkEntry>, e2: seq<WalkEntry>)
    requires multiset(e1) == multiset(e2)
    ensures GetFilesRecursively(e1) == GetFilesRecursively(e2)
  {
    FilePathsPermutation(e1, e2);
    SortedUnique(GetFilesRecursively(e1), GetFilesRecursively(e2));
  }
}
