/** The reader loop of the `all_goes` variant's `main`: two `Vec` buffers of
    `SIZE` bytes are read into alternately; a short read zero-fills the rest of
    the buffer; the first read is kept, every later one is spliced onto the
    pending buffer and the chunk is sent; at end of file the pending buffer is
    sent whole. */
module AllGoesScanner {
  import opened Common
  import opened Boundary

  /** `SIZE`, 2^20 bytes. */
  const SIZE: nat := 0x10_0000

  /** The buffer after a read of `data`: the bytes read, then zeros to the
      buffer's end when the read was short. */
  function Filled(buf: seq<byte>, data: seq<byte>): (b: seq<byte>)
    requires |data| <= |buf|
    ensures |b| == |buf| && b[..|data|] == data
    ensures forall i :: |data| <= i < |b| ==> b[i] == NUL
  {
    data + Zeros(|buf| - |data|)
  }

  /** One iteration of the loop, reading `data`. At end of file the two
      debugging `eprintln!`s slice the last ten bytes of each buffer, which
      panics when a buffer has become shorter than ten bytes. */
  function Next(b: Buffers, data: seq<byte>): (Buffers, Outcome)
    requires |data| <= |Target(b)|
  {
    if |data| == 0 then
      if |b.chunk1| < 10 || |b.chunk2| < 10 then (b, Panicked)
      else (b, Finished(Some(Pending(b))))
    else Advance(b, Filled(Target(b), data))
  }

  /** End of file sends the pending buffer whole. */
  lemma EndSendsPending(b: Buffers)
    requires |b.chunk1| >= 10 && |b.chunk2| >= 10
    ensures Next(b, []) == (b, Finished(Some(Pending(b))))
  {
  }

  /** A short read leaves zeros after the bytes read, up to the buffer's end;
      the first read is kept without being sent. */
  lemma FirstRead(b: Buffers, data: seq<byte>)
    requires b.chunkIdx == 0 && 0 < |data| <= |Target(b)|
    ensures Next(b, data).1 == Buffered
    ensures var p := Pending(Next(b, data).0);
      |p| == |b.chunk1| && p[..|data|] == data && forall i :: |data| <= i < |p| ==> p[i] == NUL
  {
    AdvanceFirst(b, Filled(Target(b), data));
  }

  /** The reader loop's variables. */
  class Reader {
    var chunk1: seq<byte>
    var chunk2: seq<byte>
    var chunkIdx: nat
    /** Set once the loop has ended, by end of file or a panic. */
    var done: bool
    /** The chunks sent so far. */
    ghost var sent: seq<seq<byte>>
    /** The buffers' contents after each read, zero padding included, in order. */
    ghost var image: seq<byte>
    /** No chunk so far repeated bytes or carried bytes never read. */
    ghost var exact: bool

    function State(): Buffers
      reads this
    {
      Buffers(chunk1, chunk2, chunkIdx)
    }

    /** While the loop runs, the chunks sent and the pending buffer hold every
        byte read exactly once, as long as no splice has repeated bytes. */
    ghost predicate Valid()
      reads this
    {
      (!done && chunkIdx == 0 ==> sent == [] && image == []) &&
      (!done && chunkIdx > 0 && exact ==> Flatten(sent) + Pending(State()) == image)
    }

    /** `vec![0; SIZE]` twice, `chunk_idx = 0`. */
    constructor ()
      ensures State() == Buffers(Zeros(SIZE), Zeros(SIZE), 0) && !done
      ensures Valid() && exact
    {
      chunk1, chunk2, chunkIdx, done := Zeros(SIZE), Zeros(SIZE), 0, false;
      sent, image, exact := [], [], true;
    }

    /** One iteration of the loop, where the read returned `data`. */
    method Step(data: seq<byte>) returns (out: Outcome)
      requires Valid() && !done && |data| <= |Target(State())|
      modifies this
      ensures (State(), out) == Next(old(State()), data)
      ensures done <==> out.Finished? || out.Panicked?
      ensures Valid()
      ensures out.Finished? && exact ==> Flatten(sent) == image
      ensures sent == old(sent) +
        if out.Dispatched? then [out.chunk] else if out.Finished? && out.last.Some? then [out.last.value] else []
      ensures image == if |data| > 0 && !out.Panicked? then old(image) + Filled(Target(old(State())), data) else old(image)
      ensures exact ==
        if out.Dispatched? then old(exact) && Exact(old(State()), Filled(Target(old(State())), data))
        else if out.Finished? && out.last.Some? then old(exact) && old(chunkIdx) > 0
        else old(exact)
    {
      if |data| == 0 {
        out := Finish();
        return;
      }
      var buf := if chunkIdx % 2 == 0 then chunk1 else chunk2;
      buf := Fill(buf, data);
      out := Deliver(buf);
    }

    /** End of file: the pending buffer is the final chunk. */
    method Finish() returns (out: Outcome)
      requires Valid() && !done
      modifies this
      ensures State() == old(State()) && done
      ensures out == if |chunk1| < 10 || |chunk2| < 10 then Panicked else Finished(Some(Pending(State())))
      ensures Valid()
      ensures out.Finished? && exact ==> Flatten(sent) == image
      ensures sent == old(sent) + if out.Finished? then [Pending(State())] else []
      ensures image == old(image)
      ensures exact == if out.Finished? then old(exact) && chunkIdx > 0 else old(exact)
    {
      if |chunk1| < 10 || |chunk2| < 10 {
        done := true;
        return Panicked;
      }
      var chunk := if chunkIdx % 2 == 0 then chunk2 else chunk1;
      assert chunk == Pending(State());
      FlattenAppend(sent, chunk);
      done, sent, exact := true, sent + [chunk], exact && chunkIdx > 0;
      return Finished(Some(chunk));
    }

    /** The rest of an iteration after a non-empty read left `buf` in the target buffer. */
    method Deliver(buf: seq<byte>) returns (out: Outcome)
      requires Valid() && !done
      modifies this
      ensures (State(), out) == Advance(old(State()), buf)
      ensures done <==> out.Panicked?
      ensures Valid()
      ensures sent == old(sent) + if out.Dispatched? then [out.chunk] else []
      ensures image == if out.Panicked? then old(image) else old(image) + buf
      ensures exact == if out.Dispatched? then old(exact) && Exact(old(State()), buf) else old(exact)
    {
      if chunkIdx == 0 {
        chunk1, chunkIdx, image := buf, 1, buf;
        return Buffered;
      }
      var pending := if chunkIdx % 2 == 0 then chunk2 else chunk1;
      var r := Splice(pending, buf);
      if r.None? {
        AdvanceFails(State(), buf);
        var next := WithTarget(State(), buf);
        chunk1, chunk2, done := next.chunk1, next.chunk2, true;
        return Panicked;
      }
      var (chunk, rest) := r.value;
      DispatchStep(State(), buf, chunk, rest, sent, image);
      ghost var keeps := exact && Exact(State(), buf);
      var next := WithTarget(State(), rest).(chunkIdx := chunkIdx + 1);
      chunk1, chunk2, chunkIdx, sent, image, exact := next.chunk1, next.chunk2, next.chunkIdx, sent + [chunk], image + buf, keeps;
      return Dispatched(chunk);
    }
  }

  /** The zero-fill after a short read, in place. */
  method Fill(buf: seq<byte>, data: seq<byte>) returns (b: seq<byte>)
    requires |data| <= |buf|
    ensures b == Filled(buf, data)
  {
    var len, chunkSize := |data|, |buf|;
    b := data + buf[len..];
    if len < chunkSize {
      for i := len to chunkSize
        invariant |b| == chunkSize && b[..len] == data && forall k :: len <= k < i ==> b[k] == NUL
      {
        b := b[i := NUL];
      }
    }
    assert b == Filled(buf, data);
  }
}
