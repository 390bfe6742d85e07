/** The boundary splice of the `all_goes` and `tokio` variants (the same code in
    both): the pending buffer is cloned and, unless it already ends in a
    newline, the current buffer's bytes are pushed onto it one at a time up to
    and including the first newline, after which the current buffer is
    `split_off` to what follows that newline. */
module Boundary {
  import opened Common

  /** The chunk built from `pending`, and what the current buffer becomes;
      `None` when `pending` is empty and `last().unwrap()` panics. When the
      current buffer has no newline, all of it is pushed and it is kept whole. */
  function Spliced(pending: seq<byte>, current: seq<byte>): Option<(seq<byte>, seq<byte>)>
  {
    if |pending| == 0 then None
    else if pending[|pending| - 1] == NL then Some((pending, current))
    else if NL in current then Some((pending + ThroughNewline(current), AfterNewline(current)))
    else Some((pending + current, current))
  }

  /** The loop that builds the chunk: a copy of `pending`, then bytes of
      `current` pushed up to and including the first newline. */
  method Splice(pending: seq<byte>, current: seq<byte>) returns (r: Option<(seq<byte>, seq<byte>)>)
    ensures r == Spliced(pending, current)
  {
    if |pending| == 0 {
      return None;
    }
    var chunk := pending;
    if chunk[|chunk| - 1] != NL {
      for idx := 0 to |current|
        invariant chunk == pending + current[..idx] && NL !in current[..idx]
      {
        var ch := current[idx];
        assert current[..idx + 1] == current[..idx] + [ch];
        chunk := chunk + [ch];
        assert chunk == pending + current[..idx + 1];
        if ch == NL {
          PushedThrough(pending, current, idx);
          return Some((chunk, current[idx + 1..]));
        }
      }
      assert current[..|current|] == current;
    }
    return Some((chunk, current));
  }

  lemma PushedThrough(pending: seq<byte>, current: seq<byte>, idx: nat)
    requires |pending| > 0 && pending[|pending| - 1] != NL
    requires idx < |current| && current[idx] == NL && NL !in current[..idx]
    ensures Spliced(pending, current) == Some((pending + current[..idx + 1], current[idx + 1..]))
  {
    SplitAtFirstNewline(current, idx);
  }

  /** The chunk always starts with the whole pending buffer and continues with
      a prefix of the current one. */
  lemma SplicedPrefix(pending: seq<byte>, current: seq<byte>)
    requires |pending| > 0
    ensures Spliced(pending, current).Some?
    ensures var (chunk, _) := Spliced(pending, current).value;
      |pending| <= |chunk| <= |pending| + |current| && chunk == (pending + current)[..|chunk|]
  {
    var (chunk, _) := Spliced(pending, current).value;
    if pending[|pending| - 1] != NL {
      var h := ThroughNewline(current);
      assert (pending + current)[..|pending| + |h|] == pending + current[..|h|];
    }
  }

  /** A pending buffer that ends in a newline is sent as it is and the current
      buffer is left untouched. */
  lemma SplicedWhole(pending: seq<byte>, current: seq<byte>)
    requires |pending| > 0 && pending[|pending| - 1] == NL
    ensures Spliced(pending, current) == Some((pending, current))
  {
  }

  /** Otherwise, when the current buffer holds a newline: no byte is lost or
      repeated (`chunk ++ current' == pending ++ current`), the chunk ends in
      its only newline after `pending`, and the current buffer shrinks. */
  lemma SplicedConserves(pending: seq<byte>, current: seq<byte>)
    requires |pending| > 0 && pending[|pending| - 1] != NL && NL in current
    ensures Spliced(pending, current).Some?
    ensures var (chunk, rest) := Spliced(pending, current).value;
      chunk + rest == pending + current && chunk[|chunk| - 1] == NL && |rest| < |current| &&
      NL !in chunk[|pending|..|chunk| - 1]
  {
    var h, t := ThroughNewline(current), AfterNewline(current);
    assert (pending + h) + t == pending + (h + t);
    assert (pending + h)[|pending|..|pending| + |h| - 1] == h[..|h| - 1];
  }

  /** When the current buffer has no newline and `pending` does not end in
      one, the whole current buffer is appended and also kept: its bytes will
      be sent a second time. */
  lemma SplicedRepeats(pending: seq<byte>, current: seq<byte>)
    requires |pending| > 0 && pending[|pending| - 1] != NL && NL !in current
    ensures Spliced(pending, current) == Some((pending + current, current))
  {
  }

  /** The two read buffers and the iteration counter of the `all_goes` and
      `tokio` loops. */
  datatype Buffers = Buffers(chunk1: seq<byte>, chunk2: seq<byte>, chunkIdx: nat)

  /** The buffer the next read fills: `chunk1` on even iterations, `chunk2` on odd ones. */
  function Target(b: Buffers): seq<byte>
  {
    if b.chunkIdx % 2 == 0 then b.chunk1 else b.chunk2
  }

  /** The other buffer, holding what the previous iteration left pending. */
  function Pending(b: Buffers): seq<byte>
  {
    if b.chunkIdx % 2 == 0 then b.chunk2 else b.chunk1
  }

  /** The buffers with the target buffer replaced by `t`. */
  function WithTarget(b: Buffers, t: seq<byte>): (r: Buffers)
    ensures Target(r) == t && Pending(r) == Pending(b) && r.chunkIdx == b.chunkIdx
  {
    if b.chunkIdx % 2 == 0 then b.(chunk1 := t) else b.(chunk2 := t)
  }

  /** The rest of an iteration once a non-empty read has left `cur` in the
      target buffer: the first read is only kept; every later one is spliced
      onto the pending buffer, the chunk is sent and what remains of `cur` is
      left in the target buffer. */
  function Advance(b: Buffers, cur: seq<byte>): (Buffers, Outcome)
  {
    if b.chunkIdx == 0 then (Buffers(cur, b.chunk2, 1), Buffered)
    else
      match Spliced(Pending(b), cur)
      case None => (WithTarget(b, cur), Panicked)
      case Some((chunk, rest)) => (WithTarget(b, rest).(chunkIdx := b.chunkIdx + 1), Dispatched(chunk))
  }

  lemma AdvanceFails(b: Buffers, cur: seq<byte>)
    requires b.chunkIdx > 0 && Spliced(Pending(b), cur).None?
    ensures Advance(b, cur) == (WithTarget(b, cur), Panicked)
  {
  }

  lemma AdvanceSplices(b: Buffers, cur: seq<byte>, chunk: seq<byte>, rest: seq<byte>)
    requires b.chunkIdx > 0 && Spliced(Pending(b), cur) == Some((chunk, rest))
    ensures Advance(b, cur) == (WithTarget(b, rest).(chunkIdx := b.chunkIdx + 1), Dispatched(chunk))
  {
  }

  /** The first read is never sent; it becomes the pending buffer of the next iteration. */
  lemma AdvanceFirst(b: Buffers, cur: seq<byte>)
    requires b.chunkIdx == 0
    ensures Advance(b, cur).1 == Buffered && Pending(Advance(b, cur).0) == cur
  {
  }

  /** The splice repeats no byte: the pending buffer is not empty and either
      ends in a newline or the read holds one. */
  predicate Exact(b: Buffers, cur: seq<byte>)
  {
    |Pending(b)| > 0 && (Pending(b)[|Pending(b)| - 1] == NL || NL in cur)
  }

  /** Moving to the next iteration swaps the roles of the two buffers. */
  lemma Swap(b: Buffers, t: seq<byte>)
    ensures var r := WithTarget(b, t).(chunkIdx := b.chunkIdx + 1);
      Target(r) == Pending(b) && Pending(r) == t
  {
    if b.chunkIdx % 2 == 0 {
      assert (b.chunkIdx + 1) % 2 == 1;
    } else {
      assert (b.chunkIdx + 1) % 2 == 0;
    }
  }

  /** A later read panics exactly when the pending buffer is empty. */
  lemma AdvancePanics(b: Buffers, cur: seq<byte>)
    requires b.chunkIdx > 0
    ensures Advance(b, cur).1.Panicked? <==> |Pending(b)| == 0
    ensures Advance(b, cur).1.Panicked? || Advance(b, cur).1.Dispatched?
  {
  }

  /** Otherwise it sends a chunk; what is left of the read becomes the next
      pending buffer, and the buffer that was pending is the next one read
      into. When no byte is repeated, the chunk and the new pending buffer hold
      exactly the old pending buffer and the read, and the chunk ends in a
      newline. */
  lemma AdvanceLater(b: Buffers, cur: seq<byte>)
    requires b.chunkIdx > 0 && Exact(b, cur)
    ensures Advance(b, cur).1.Dispatched?
    ensures var (next, out) := Advance(b, cur);
      next.chunkIdx == b.chunkIdx + 1 && Target(next) == Pending(b) &&
      out.chunk + Pending(next) == Pending(b) + cur && out.chunk[|out.chunk| - 1] == NL
  {
    var p := Pending(b);
    var (chunk, rest) := Spliced(p, cur).value;
    assert Advance(b, cur) == (WithTarget(b, rest).(chunkIdx := b.chunkIdx + 1), Dispatched(chunk));
    Swap(b, rest);
    if p[|p| - 1] != NL {
      SplicedConserves(p, cur);
    }
  }

  /** One dispatching iteration as seen by the conservation law: where the
      law held before and the splice repeats nothing, it holds after. */
  lemma DispatchStep(b: Buffers, cur: seq<byte>, chunk: seq<byte>, rest: seq<byte>,
                     sent: seq<seq<byte>>, image: seq<byte>)
    requires b.chunkIdx > 0 && Spliced(Pending(b), cur) == Some((chunk, rest))
    ensures var next := WithTarget(b, rest).(chunkIdx := b.chunkIdx + 1);
      Advance(b, cur) == (next, Dispatched(chunk)) &&
      (Flatten(sent) + Pending(b) == image && Exact(b, cur) ==>
        Flatten(sent + [chunk]) + Pending(next) == image + cur)
  {
    AdvanceSplices(b, cur, chunk, rest);
    Swap(b, rest);
    if Exact(b, cur) {
      AdvanceLater(b, cur);
      if Flatten(sent) + Pending(b) == image {
        Conserve(sent, Pending(b), cur, chunk, rest, image);
      }
    }
  }

  /** A chunk and the new pending buffer that hold exactly the old pending
      buffer and the read extend the conservation law by one chunk. */
  lemma Conserve(sent: seq<seq<byte>>, pending: seq<byte>, buf: seq<byte>, chunk: seq<byte>, rest: seq<byte>, image: seq<byte>)
    requires Flatten(sent) + pending == image && chunk + rest == pending + buf
    ensures Flatten(sent + [chunk]) + rest == image + buf
  {
    FlattenAppend(sent, chunk);
    calc {
      Flatten(sent + [chunk]) + rest;
      Flatten(sent) + (chunk + rest);
      Flatten(sent) + (pending + buf);
      (Flatten(sent) + pending) + buf;
    }
  }
}
