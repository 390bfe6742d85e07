/** Bytes, the delimiter constants, and the small sequence vocabulary shared by
    every variant of the pipeline: first-occurrence search, the split of a
    buffer at its first newline, zero padding and concatenation. */
module Common {

  newtype byte = b: int | 0 <= b < 256

  /** The record separator `b'\n'`. */
  const NL: byte := 10
  /** The field separator `b';'`. */
  const SEMI: byte := 59
  /** The zero byte used as padding and as a sentinel. */
  const NUL: byte := 0

  datatype Option<+T> = None | Some(value: T)

  datatype Result<+T, +E> = Ok(value: T) | Err(error: E)

  /** What one iteration of a reader loop does: keep the first buffer without
      sending it, send a chunk, stop at end of file (sending a final chunk or
      not), or panic. */
  datatype Outcome = Buffered | Dispatched(chunk: seq<byte>) | Finished(last: Option<seq<byte>>) | Panicked

  /** Index of the first occurrence of `b` in `s`, as `s.iter().position(|&x| x == b)`. */
  function Position(s: seq<byte>, b: byte): (r: Option<nat>)
    ensures r.None? <==> b !in s
    ensures r.Some? ==> r.value < |s| && s[r.value] == b && b !in s[..r.value]
  {
    if |s| == 0 then None
    else if s[0] == b then Some(0)
    else
      match Position(s[1..], b)
      case None => None
      case Some(i) =>
        assert s[..i + 1] == [s[0]] + s[1..][..i];
        Some(i + 1)
  }

  /** The first occurrence is unique: an index holding `b` with no `b` before it is the position. */
  lemma PositionAt(s: seq<byte>, b: byte, i: nat)
    requires i < |s| && s[i] == b && b !in s[..i]
    ensures Position(s, b) == Some(i)
  {
  }

  /** The head of `s` up to and including its first newline; all of `s` when it has none. */
  function ThroughNewline(s: seq<byte>): (h: seq<byte>)
    ensures |h| <= |s| && h == s[..|h|]
    ensures NL in s ==> |h| > 0 && h[|h| - 1] == NL && NL !in h[..|h| - 1]
    ensures NL !in s ==> h == s
  {
    match Position(s, NL)
    case None => s
    case Some(i) =>
      assert s[..i + 1][..i] == s[..i];
      s[..i + 1]
  }

  /** What follows the first newline of `s`; all of `s` when it has none. */
  function AfterNewline(s: seq<byte>): (t: seq<byte>)
    ensures NL in s ==> ThroughNewline(s) + t == s && |t| < |s|
    ensures NL !in s ==> t == s
  {
    match Position(s, NL)
    case None => s
    case Some(i) =>
      assert s[..i + 1] + s[i + 1..] == s;
      s[i + 1..]
  }

  /** Splitting at a known first newline. */
  lemma SplitAtFirstNewline(s: seq<byte>, i: nat)
    requires i < |s| && s[i] == NL && NL !in s[..i]
    ensures ThroughNewline(s) == s[..i + 1] && AfterNewline(s) == s[i + 1..]
  {
    PositionAt(s, NL, i);
  }

  /** A slice grown by the byte after it. */
  lemma SliceSnoc(s: seq<byte>, i: nat, j: nat)
    requires i <= j < |s|
    ensures s[i..j + 1] == s[i..j] + [s[j]]
  {
  }

  /** A buffer of `n` zero bytes, as `vec![0; n]`. */
  function Zeros(n: nat): (z: seq<byte>)
    ensures |z| == n && forall i :: 0 <= i < n ==> z[i] == NUL
  {
    seq(n, _ => NUL)
  }

  /** Concatenation of a sequence of byte strings. */
  function Flatten(ss: seq<seq<byte>>): seq<byte>
  {
    if |ss| == 0 then [] else Flatten(ss[..|ss| - 1]) + ss[|ss| - 1]
  }

  lemma FlattenAppend(ss: seq<seq<byte>>, s: seq<byte>)
    ensures Flatten(ss + [s]) == Flatten(ss) + s
  {
    assert (ss + [s])[..|ss|] == ss;
  }
}
