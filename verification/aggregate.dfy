/**
 The aggregation loop of `main`: the per-file results are awaited in file
 order, each hex string's bytes are fed to one fresh MD5 context, and the
 final digest is rendered as hex. The first `Err` met in that order aborts
 the run through `unwrap`, before anything is computed.
 */
module Aggregate {
  import opened Wrappers
  import opened Md5Context
  import opened HexFormat
  import opened Utf8
  import opened FileDigest
  import opened Sequences

  /** The values of a sequence of results, or the error of the earliest failed one. */
  function Collect<T, E>(results: seq<Result<T, E>>): (r: Result<seq<T>, E>)
    ensures r.Ok? <==> forall i :: 0 <= i < |results| ==> results[i].Ok?
    ensures r.Ok? ==> |r.value| == |results| && forall i :: 0 <= i < |results| ==> results[i] == Ok(r.value[i])
    ensures r.Err? ==> exists i :: 0 <= i < |results| && results[i] == Err(r.error)
                                   && forall j :: 0 <= j < i ==> results[j].Ok?
  {
    if |results| == 0 then Ok([])
    else
      var init, last := results[..|results| - 1], results[|results| - 1];
      assert forall i :: 0 <= i < |init| ==> results[i] == init[i];
      match Collect(init)
      case Err(e) => Err(e)
      case Ok(vs) =>
        match last
        case Err(e) => Err(e)
        case Ok(v) => Ok(vs + [v])
  }

  /** Results that are all `Ok` collect to exactly their values. */
  lemma CollectAllOk<T, E>(results: seq<Result<T, E>>, values: seq<T>)
    requires |results| == |values|
    requires forall i :: 0 <= i < |results| ==> results[i] == Ok(values[i])
    ensures Collect(results) == Ok(values)
  {
    var c := Collect(results);
    assert c.Ok?;
    forall i | 0 <= i < |values|
      ensures c.value[i] == values[i]
    {
      assert results[i] == Ok(c.value[i]);
    }
    assert c.value == values;
  }

  /** An `Err` with only `Ok`s before it is the one collecting returns. */
  lemma CollectEarliestErr<T, E>(results: seq<Result<T, E>>, i: nat)
    requires i < |results| && results[i].Err?
    requires forall j :: 0 <= j < i ==> results[j].Ok?
    ensures Collect(results) == Err(results[i].error)
  {
    var c := Collect(results);
    var k :| 0 <= k < |results| && results[k] == Err(c.error)
             && forall j :: 0 <= j < k ==> results[j].Ok?;
    assert k == i;
  }

  /** The run's outcome: the earliest per-file error, or the hex MD5 of the
      bytes of all per-file hex strings concatenated in file order. */
  function AggregateSpec(results: seq<Result<string, IoError>>, md5: Md5): Result<string, IoError>
  {
    match Collect(results)
    case Err(e) => Err(e)
    case Ok(hexes) => Ok(LowerHex(md5(Encode(Concat(hexes)))))
  }

  /** Lines 115-120 of `main`: await in index order, consume, compute, format. */
  method AggregateDigests(results: seq<Result<string, IoError>>, md5: Md5) returns (r: Result<string, IoError>)
    ensures r == AggregateSpec(results, md5)
    ensures r.Ok? <==> forall i :: 0 <= i < |results| ==> results[i].Ok?
    ensures r.Err? ==> exists i :: 0 <= i < |results| && results[i] == Err(r.error)
                                   && forall j :: 0 <= j < i ==> results[j].Ok?
    ensures r.Ok? ==> |r.value| == 32 && IsLowerHex(r.value)
  {
    var context := NewContext();
    for i := 0 to |results|
      invariant Collect(results[..i]).Ok?
      invariant context.consumed == Encode(Concat(Collect(results[..i]).value))
    {
      assert results[..i + 1][..i] == results[..i];
      match results[i]
      case Err(e) =>
        CollectEarliestErr(results, i);
        return Err(e);
      case Ok(hex) =>
        var done := Collect(results[..i]).value;
        assert Concat(done + [hex]) == Concat(done) + hex by {
          assert (done + [hex])[..|done|] == done;
        }
        EncodeAppend(Concat(done), hex);
        context := context.Consume(Encode(hex));
    }
    assert results[..|results|] == results;
    r := Ok(LowerHex(context.Compute(md5)));
  }

  lemma HexIsAscii(s: string)
    requires IsLowerHex(s)
    ensures IsAscii(s)
  {
    forall k | 0 <= k < |s| ensures s[k] as int < 0x80 {
      assert IsHexDigit(s[k]);
    }
  }

  lemma SliceOfAppend(a: seq<bv8>, b: seq<bv8>, lo: int, hi: int)
    requires 0 <= lo <= hi <= |a|
    ensures (a + b)[lo..hi] == a[lo..hi]
  {
  }

  lemma SliceAfterPrefix(a: seq<bv8>, b: seq<bv8>)
    ensures (a + b)[|a|..|a| + |b|] == b
  {
  }

  ghost predicate AllHex32(hexes: seq<string>) {
    forall i :: 0 <= i < |hexes| ==> |hexes[i]| == 32 && IsLowerHex(hexes[i])
  }

  lemma {:induction false} JoinedHexLength(hexes: seq<string>)
    requires AllHex32(hexes)
    ensures |Encode(Concat(hexes))| == 32 * |hexes|
  {
    if |hexes| > 0 {
      var n := |hexes| - 1;
      JoinedHexLength(hexes[..n]);
      EncodeAppend(Concat(hexes[..n]), hexes[n]);
      HexIsAscii(hexes[n]);
      EncodeAscii(hexes[n]);
    }
  }

  /** `Encode(Concat(hexes))` split at its last string. */
  lemma JoinedLast(hexes: seq<string>)
    requires |hexes| > 0
    ensures Encode(Concat(hexes))
         == Encode(Concat(hexes[..|hexes| - 1])) + Encode(hexes[|hexes| - 1])
  {
    EncodeAppend(Concat(hexes[..|hexes| - 1]), hexes[|hexes| - 1]);
  }

  /** The `i`-th 32-byte block of `front + back`, where `back` is one block after `n` blocks. */
  lemma BlockOfAppend(front: seq<bv8>, back: seq<bv8>, n: nat, i: nat)
    requires |front| == 32 * n && |back| == 32 && i <= n
    ensures i < n ==> (front + back)[32 * i .. 32 * i + 32] == front[32 * i .. 32 * i + 32]
    ensures i == n ==> (front + back)[32 * i .. 32 * i + 32] == back
  {
    if i < n {
      SliceOfAppend(front, back, 32 * i, 32 * i + 32);
    } else {
      SliceAfterPrefix(front, back);
    }
  }

  lemma {:induction false} JoinedHexSegment(hexes: seq<string>, i: nat)
    requires AllHex32(hexes)
    requires i < |hexes|
    ensures 32 * i + 32 <= |Encode(Concat(hexes))|
    ensures Encode(Concat(hexes))[32 * i .. 32 * i + 32] == Encode(hexes[i])
    decreases |hexes|
  {
    var n := |hexes| - 1;
    var init := hexes[..n];
    assert AllHex32(init) by {
      assert forall k :: 0 <= k < n ==> init[k] == hexes[k];
    }
    JoinedHexLength(init);
    HexIsAscii(hexes[n]);
    EncodeAscii(hexes[n]);
    JoinedLast(hexes);
    BlockOfAppend(Encode(Concat(init)), Encode(hexes[n]), n, i);
    if i < n {
      JoinedHexSegment(init, i);
    }
  }

  /** When every result is a 32-digit hex string, the aggregate context consumes
      exactly 32 ASCII bytes per file, file by file: the hex text, not the raw digest. */
  lemma JoinedHexLayout(hexes: seq<string>)
    requires AllHex32(hexes)
    ensures |Encode(Concat(hexes))| == 32 * |hexes|
    ensures forall i :: 0 <= i < |hexes| ==>
              Encode(Concat(hexes))[32 * i .. 32 * i + 32] == Encode(hexes[i])
  {
    JoinedHexLength(hexes);
    forall i | 0 <= i < |hexes|
      ensures Encode(Concat(hexes))[32 * i .. 32 * i + 32] == Encode(hexes[i])
    {
      JoinedHexSegment(hexes, i);
    }
  }
}
