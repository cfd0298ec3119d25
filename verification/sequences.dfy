/** Sequence helpers shared by the file reader and the aggregation loop. */
module Sequences {

  /** The pieces joined in order: the bytes of a file's chunks, or the
      characters of a list of strings. */
  function Concat<T>(pieces: seq<seq<T>>): seq<T>
  {
    if |pieces| == 0 then [] else Concat(pieces[..|pieces| - 1]) + pieces[|pieces| - 1]
  }
}
