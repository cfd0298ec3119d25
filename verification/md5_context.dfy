/**
 The streaming MD5 context of the `md5` crate, abstracted to the bytes it has
 consumed. The compression function (RFC 1321) is not modelled: `compute`
 applies a digest function supplied by the caller.
 */
module Md5Context {

  /** A 128-bit MD5 digest. */
  type Digest = s: seq<bv8> | |s| == 16
    witness [0, 0, 0, 0, 0, 0, 0, 0, 0, 0, 0, 0, 0, 0, 0, 0]

  /** MD5 itself, as an uninterpreted total function of the message bytes. */
  type Md5 = seq<bv8> -> Digest

  /** `md5::Context`: everything passed to `consume` so far, in order. */
  datatype Context = Context(consumed: seq<bv8>)
  {
    /** `context.consume(data)`. */
    function Consume(data: seq<bv8>): Context
    {
      Context(consumed + data)
    }

    /** `context.compute()`: the digest of the whole consumed message. */
    function Compute(md5: Md5): Digest
    {
      md5(consumed)
    }
  }

  /** `md5::Context::new()`. */
  function NewContext(): Context
  {
    Context([])
  }
}
