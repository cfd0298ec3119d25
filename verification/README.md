# md5h in Dafny

md5h prints one MD5 fingerprint for a whole directory tree. It walks the tree and keeps the regular files. It sorts their paths. It hashes every file in its own task, streaming the file through an MD5 context in reads of at most 1 MiB. Then it awaits the tasks in sorted order and feeds each file's hex digest into one more MD5 context. The hex rendering of that context's digest is the output.

This project models that pipeline from `src/main.rs` and proves what makes the fingerprint well defined:

- **`file_md5`** (`file_digest.dfy`, `FileDigest.FileMd5`). It is modelled as a read loop over a file whose reads may be split in any legal way. The file is `Readable(contents, device)`. The device answers the read issued at each offset: how many bytes land in the buffer, or an I/O error. The `File` subset type holds the `Read` contract of a regular file: before end of file a read returns between 1 and `BUFFER_SIZE` (= `1 << 20`) bytes, at end of file it returns 0, and any read may fail. `Unopenable(e)` is a path whose `File::open` fails. The loop invariant is that the bytes consumed so far are exactly the prefix of the contents read so far. So on success the result is the hex MD5 of the whole contents, however the reads were split. On failure the result is the open error or the first read error.
- **MD5** is not modelled. Every operation takes `md5: seq<bv8> -> Digest` as a parameter, with `Digest` the 16-byte sequences. The `md5::Context` of the crate is abstracted (`md5_context.dfy`) to the byte sequence it has consumed: `new` starts it empty, `consume` appends, and `compute` applies `md5` to everything consumed. Being a stand-in for the crate by definition, it carries no property of its own in the table below.
- **`format!("{:x}", digest)`** (`hex_format.dfy`) renders two lower-case digits per byte. Parsing the rendering back gives the bytes, so the rendering is injective.
- **`get_files_recursively`** (`enumerate.dfy`, `sorting.dfy`, `lex_order.dfy`). The walk's output is an input sequence of `WalkEntry` values: errors, and entries with a type and a displayed path. The model drops errors and everything that is not a regular file, then sorts with a functional insertion sort. The sort order is lexicographic by character. Rust compares `String`s by their UTF-8 bytes, and UTF-8 preserves code-point order, so this is the same order. A sorted permutation is unique, so the file list depends only on the multiset of walk entries and not on traversal order.
- **Aggregation** (`aggregate.dfy`). The handles are awaited in list order. The first `Err` aborts the run through `unwrap`, and no digest is computed. Otherwise the UTF-8 bytes of each hex string are consumed in order (`utf8.dfy`). The result is therefore the hex MD5 of the per-file hex strings concatenated, which is 32 ASCII bytes per file.
- **Tasks** (`pipeline.dfy`). Concurrency is reduced to the order in which tasks complete, given as a permutation `order`. Each task writes its own slot, and the slots are read back in spawn order. `Md5Tree` is proved to equal the reference `TreeDigest` for every completion order.

Three behaviours of the code worth stating:

- The aggregate context consumes the bytes of each file's **hex string** (src/main.rs:105, 110, 118), not the raw 16-byte digest.
- A per-file failure is a panic from `unwrap` (src/main.rs:117). Its message carries only the `io::Error`, which names no path. The model's error likewise carries no path.
- A root that cannot be walked is not an error. For a missing root the walk yields a single `Err` item; for a root that exists but cannot be listed it yields the root's own directory entry and then the `Err` of listing it. The filters at src/main.rs:29-30 drop both, so the run prints the MD5 of the empty message (`Pipeline.MissingRootDigestsEmpty`).

## Model

| member | source | states |
|---|---|---|
| HexFormat.LowerHex | src/main.rs:22-23 | the rendering has two characters per digest byte, each in `0-9a-f` (32 for an MD5 digest) |
| HexFormat.ParseLowerHexRoundTrip | src/main.rs:23 | parsing the hex rendering gives back exactly the digest bytes |
| HexFormat.LowerHexInjective | src/main.rs:23 | different digests render to different strings |
| FileDigest.NoFailingReply | src/main.rs:15-21 | when no read reply is an error, reading from any offset reaches end of file without a failure |
| FileDigest.FileMd5 | src/main.rs:11-24 | an open failure is returned as is; otherwise the result is the first failing read's error or, when every read succeeds until one returns 0, the lowercase 32-digit hex MD5 of the complete contents; the consumed chunks are each 1..1 MiB long and concatenate to the contents, whatever the read split |
| Utf8.EncodeAppend | src/main.rs:118 | the bytes of a concatenation of strings are the concatenation of their bytes, so consuming strings one by one consumes their concatenation |
| Utf8.EncodeAscii | src/main.rs:118 | a hex string contributes one byte per character |
| LexOrder.LexLeReflexive | src/main.rs:32 | string order is reflexive |
| LexOrder.LexLeTotal | src/main.rs:32 | any two strings are comparable |
| LexOrder.LexLeAntisymmetric | src/main.rs:32 | strings that precede each other are equal |
| LexOrder.LexLeTransitive | src/main.rs:32 | string order is transitive |
| Sorting.Sort | src/main.rs:32 | `.sorted()` returns a non-decreasing permutation of its input |
| Sorting.SortedUnique | src/main.rs:32 | two sorted sequences with the same elements are identical |
| Sorting.SortIgnoresOrder | src/main.rs:32 | permuted inputs sort to the same sequence |
| Enumerate.FilePaths | src/main.rs:29-31 | a path survives the filters exactly when the walk holds a regular-file entry with that path |
| Enumerate.FilePathsCount | src/main.rs:29-31 | each path is kept as many times as regular-file entries carry it; errors and non-files contribute nothing |
| Enumerate.FilePathsPermutation | src/main.rs:27-31 | the filtered paths, as a multiset, depend only on the multiset of walk entries |
| Enumerate.GetFilesRecursively | src/main.rs:26-34 | the file list is sorted, is a permutation of the filtered paths, and holds exactly the regular-file paths of the walk |
| Enumerate.GetFilesIgnoresWalkOrder | src/main.rs:26-34 | any reordering of the walk yields the identical file list |
| Aggregate.Collect | src/main.rs:116-117 | awaiting in order either yields every value in index order, or stops at the earliest `Err`, all results before it being `Ok` |
| Aggregate.CollectEarliestErr | src/main.rs:116-117 | an `Err` preceded only by `Ok`s is the error that awaiting in order stops at |
| Aggregate.CollectAllOk | src/main.rs:116-117 | when every result is `Ok`, collecting yields exactly their values |
| Aggregate.AggregateDigests | src/main.rs:115-120 | the fold succeeds exactly when every result is `Ok`; it then returns the 32-digit hex MD5 of the concatenated hex strings' bytes; otherwise it returns the earliest error in index order |
| Aggregate.JoinedHexLayout | src/main.rs:116-118 | with 32-digit hex results the aggregate message is 32 bytes per file, block `i` being file `i`'s hex text |
| Pipeline.RunTasks | src/main.rs:99-117 | whatever order the tasks complete in, result `i` is `file_md5` of file `i` |
| Pipeline.Md5Tree | src/main.rs:80-120 | the run's output equals the reference fingerprint for every completion order and is 32 lowercase hex digits |
| Pipeline.TreeDigestIgnoresWalkOrder | src/main.rs:26-34 | reordering the walk does not change the output |
| Pipeline.EmptyTreeDigest | src/main.rs:115-120 | a tree without regular files yields the hex MD5 of the empty message, not an error |
| Pipeline.MissingRootDigestsEmpty | src/main.rs:27-30 | a walk of a missing root (only an error) or of an unlistable root (its directory entry, then an error) gives the hex MD5 of the empty message |
| Pipeline.FailingFileAborts | src/main.rs:105-117 | one failing file makes the run fail, with the error of the earliest failing file in sorted order |
| Pipeline.TreeDigestOfHexConcatenation | src/main.rs:99-120 | when every file reads, the output is the hex MD5 of the per-file hex digests concatenated in sorted order, 32 bytes per file |
| Pipeline.TreeDigestIgnoresReadSplits | src/main.rs:15-21 | files with the same contents give the same output however their reads are split |
| Pipeline.HelloWorldExample | src/main.rs:26-34 | walking `d/b.txt` before `d/a.txt` still lists `d/a.txt` first, and the output is the hex MD5 of hex(MD5("hello")) followed by hex(MD5("world")) |

## Left out

- The MD5 compression function and `md5::Context` internals (src/main.rs:14, 20, 22, 115, 118, 120) are a foreign crate. MD5 is a parameter of type `seq<bv8> -> Digest`.
- The `WalkDir` traversal and file-system access (src/main.rs:27-31) are I/O. The walk is an input sequence of entries. `Path::display` is taken to give the path string unchanged, so the lossy conversion of non-UTF-8 paths is not modelled.
- `File::open` and `read` (src/main.rs:12, 16) are I/O. Their outcomes are given by the file system parameter, a map from path to `File`. An `Interrupted` read is an ordinary failure, as in the code, which does not retry.
- Tokio task spawning and the semaphore (src/main.rs:98-113) are concurrency. Only the completion order is kept. A semaphore limit bounds how many tasks run together, which only restricts that order. The model has no thread count. With `--threads 0` and at least one file, no task ever gets a permit (src/main.rs:104) and the run hangs at the first `handle.await` (src/main.rs:117), where the model still produces an output. With no files nothing is spawned or awaited, and the run prints the hex MD5 of the empty message, as the model does.
- A `JoinError` from `handle.await?` (src/main.rs:117) is not modelled. No task here panics: the semaphore is never closed, so `acquire().await.unwrap()` cannot fail.
- The progress bar, timing and printing (src/main.rs:73-94, 96, 122-127) have no effect on the digest. This includes the `MD5: ` label.
- Command-line parsing (src/main.rs:36-67, src/args.rs:3-34) is a wrapper over `clap` and `num_cpus`.
- The global logger (src/logger.rs:1-15) is process-wide output glue with no logic.
- Utf8.EncodeAscii: states only the length of an ASCII string's bytes, not that each byte equals its character code.
