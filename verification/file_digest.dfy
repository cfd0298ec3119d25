/**
 `file_md5`: open a file, stream it through an MD5 context in chunks of at
 most `BUFFER_SIZE` bytes until a read returns 0, and render the digest as
 lower-case hexadecimal.

 The operating system is a parameter. A readable file carries its contents
 and a `device` that answers the read issued at each offset: how many bytes
 land in the buffer, or an I/O error. Every way the kernel may split a file
 into reads (and every point where a read may fail) is some device.
 */
module FileDigest {
  import opened Wrappers
  import opened Md5Context
  import opened HexFormat
  import opened Sequences

  /** `let mut buffer = [0; 1 << 20]`. */
  const BUFFER_SIZE: nat := 0x10_0000

  /** The `io::Error` kinds the model distinguishes. */
  datatype IoError = NotFound | PermissionDenied | Interrupted | Other

  /** The outcome of one `f.read(&mut buffer)`. */
  datatype ReadReply = Filled(n: nat) | Failed(err: IoError)

  /** A path as the file system presents it when `file_md5` opens it. */
  datatype FileState =
    | Unopenable(openErr: IoError)
    | Readable(contents: seq<bv8>, device: nat -> ReadReply)
  {
    /** The `Read` contract of a file: before end of file a read fills between
        one byte and a whole buffer, at end of file it returns 0; any read may fail. */
    ghost predicate WellBehaved() {
      Readable? ==>
        forall off: nat :: off <= |contents| ==> LegalReply(device(off), |contents| - off)
    }
  }

  predicate LegalReply(reply: ReadReply, remaining: nat) {
    match reply
    case Failed(_) => true
    case Filled(n) => if remaining == 0 then n == 0 else 0 < n <= BUFFER_SIZE && n <= remaining
  }

  /** A file whose reads obey the `Read` contract. */
  type File = f: FileState | f.WellBehaved() witness Unopenable(NotFound)

  /** The error of the first failing read when reading from `off` onwards, if any. */
  function FirstReadFailure(contents: seq<bv8>, device: nat -> ReadReply, off: nat): Option<IoError>
    requires Readable(contents, device).WellBehaved()
    requires off <= |contents|
    decreases |contents| - off
  {
    match device(off)
    case Failed(e) => Some(e)
    case Filled(n) => if n == 0 then None else FirstReadFailure(contents, device, off + n)
  }

  /** No read fails when the device never answers with a failure. */
  lemma {:induction false} NoFailingReply(contents: seq<bv8>, device: nat -> ReadReply, off: nat)
    requires Readable(contents, device).WellBehaved()
    requires off <= |contents|
    requires forall o :: device(o).Filled?
    ensures FirstReadFailure(contents, device, off) == None
    decreases |contents| - off
  {
    var n := device(off).n;
    if n > 0 {
      NoFailingReply(contents, device, off + n);
    }
  }

  /** A device that fills the whole buffer on every read before end of file. */
  function WholeBufferReads(contents: seq<bv8>): (device: nat -> ReadReply)
    ensures Readable(contents, device).WellBehaved()
    ensures forall o :: device(o).Filled?
  {
    off => if off >= |contents| then Filled(0)
           else if |contents| - off <= BUFFER_SIZE then Filled(|contents| - off)
           else Filled(BUFFER_SIZE)
  }

  /** What `file_md5` returns: the open error, the first read error, or the
      hex MD5 of the complete contents, however the reads split them. */
  function FileDigestSpec(f: File, md5: Md5): Result<string, IoError>
  {
    match f
    case Unopenable(e) => Err(e)
    case Readable(contents, device) =>
      match FirstReadFailure(contents, device, 0)
      case Some(e) => Err(e)
      case None => Ok(LowerHex(md5(contents)))
  }

  /** `file_md5`. The ghost `chunks` records the slices handed to `context.consume`, in order;
      the source returns only the result. */
  method FileMd5(f: File, md5: Md5) returns (r: Result<string, IoError>, ghost chunks: seq<seq<bv8>>)
    ensures r == FileDigestSpec(f, md5)
    ensures f.Unopenable? ==> r == Err(f.openErr)
    ensures r.Ok? ==> f.Readable? && Concat(chunks) == f.contents
    ensures r.Ok? ==> r.value == LowerHex(md5(f.contents))
    ensures r.Ok? ==> |r.value| == 32 && IsLowerHex(r.value)
    ensures forall k :: 0 <= k < |chunks| ==> 0 < |chunks[k]| <= BUFFER_SIZE
  {
    chunks := [];
    if f.Unopenable? {
      return Err(f.openErr), chunks;
    }
    var contents, device := f.contents, f.device;
    var context := NewContext();
    var off: nat := 0;
    while true
      invariant off <= |contents|
      invariant context.consumed == contents[..off]
      invariant Concat(chunks) == contents[..off]
      invariant forall k :: 0 <= k < |chunks| ==> 0 < |chunks[k]| <= BUFFER_SIZE
      invariant FirstReadFailure(contents, device, off) == FirstReadFailure(contents, device, 0)
      decreases |contents| - off
    {
      var reply := device(off);
      if reply.Failed? {
        return Err(reply.err), chunks;
      }
      var n := reply.n;
      if n == 0 {
        break;
      }
      var chunk := contents[off..off + n];
      context := context.Consume(chunk);
      chunks := chunks + [chunk];
      assert Concat(chunks) == Concat(chunks[..|chunks| - 1]) + chunk;
      assert contents[..off + n] == contents[..off] + chunk;
      off := off + n;
    }
    assert context.consumed == contents;
    r := Ok(LowerHex(context.Compute(md5)));
  }
}
