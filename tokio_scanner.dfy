/** The reader loop of the `tokio` variant's `main`: two `Vec` buffers of
    `buf_size` bytes are read into alternately; a buffer that has shrunk below
    half of `buf_size` is first resized back with zeros; a read shorter than
    the buffer was before the resize writes a single zero byte after the bytes
    read and leaves the older bytes behind it in place; the first read is
    kept, every later one is spliced onto the pending buffer and the chunk is
    sent; at end of file the pending buffer is sent whole. */
module TokioScanner {
  import opened Common
  import opened Boundary

  /** `buf_size` when no second argument is given. */
  const DEFAULT_BUF_SIZE: nat := 2097152

  /** `resize(buf_size, 0)` for a buffer shorter than half of `buf_size`. */
  function Resized(buf: seq<byte>, bufSize: nat): (r: seq<byte>)
    ensures |buf| < bufSize / 2 ==>
      |r| == bufSize && r[..|buf|] == buf && forall i :: |buf| <= i < bufSize ==> r[i] == NUL
    ensures |buf| >= bufSize / 2 ==> r == buf
  {
    if |buf| < bufSize / 2 then buf + Zeros(bufSize - |buf|) else buf
  }

  /** The buffer after a read of `data`: the bytes read overwrite its head;
      when fewer bytes than `chunkSize` (the length before any resize) arrived,
      the byte after them is set to zero. */
  function AfterRead(buf: seq<byte>, data: seq<byte>, chunkSize: nat): (r: seq<byte>)
    requires |data| <= |buf| && chunkSize <= |buf|
    ensures |r| == |buf| && r[..|data|] == data
    ensures |data| < chunkSize ==> r[|data|] == NUL && r[|data| + 1..] == buf[|data| + 1..]
    ensures |data| >= chunkSize ==> r[|data|..] == buf[|data|..]
  {
    var b := data + buf[|data|..];
    if |data| < chunkSize then b[|data| := NUL] else b
  }

  /** One iteration of the loop with `buf_size` = `bufSize`, reading `data`. */
  function Next(b: Buffers, bufSize: nat, data: seq<byte>): (Buffers, Outcome)
    requires |data| <= |Resized(Target(b), bufSize)|
  {
    var buf := Resized(Target(b), bufSize);
    if |data| == 0 then (WithTarget(b, buf), Finished(Some(Pending(b))))
    else Advance(b, AfterRead(buf, data, |Target(b)|))
  }

  /** End of file sends the pending buffer whole. */
  lemma EndSendsPending(b: Buffers, bufSize: nat)
    ensures Next(b, bufSize, []).1 == Finished(Some(Pending(b)))
  {
  }

  /** A read that does not fill the buffer is always followed by a zero byte:
      the sentinel when it is shorter than the buffer was before the resize,
      the resize's padding otherwise. */
  lemma ShortReadMarked(buf: seq<byte>, bufSize: nat, data: seq<byte>)
    requires |data| < |Resized(buf, bufSize)|
    ensures AfterRead(Resized(buf, bufSize), data, |buf|)[|data|] == NUL
  {
  }

  /** The first read is kept without being sent. */
  lemma FirstRead(b: Buffers, bufSize: nat, data: seq<byte>)
    requires b.chunkIdx == 0 && 0 < |data| <= |Resized(Target(b), bufSize)|
    ensures Next(b, bufSize, data).1 == Buffered
    ensures Pending(Next(b, bufSize, data).0) == AfterRead(Resized(Target(b), bufSize), data, |Target(b)|)
  {
  }

  /** The reader loop's variables. */
  class Reader {
    var chunk1: seq<byte>
    var chunk2: seq<byte>
    var chunkIdx: nat
    const bufSize: nat
    /** Set once the loop has ended, by end of file or a panic. */
    var done: bool
    /** The chunks sent so far. */
    ghost var sent: seq<seq<byte>>
    /** The buffers' contents after each read, in order. */
    ghost var image: seq<byte>
    /** No chunk so far repeated bytes or carried bytes never read. */
    ghost var exact: bool

    function State(): Buffers
      reads this
    {
      Buffers(chunk1, chunk2, chunkIdx)
    }

    /** While the loop runs, the chunks sent and the pending buffer hold every
        byte read exactly once, as long as no splice has repeated bytes. */
    ghost predicate Valid()
      reads this
    {
      (!done && chunkIdx == 0 ==> sent == [] && image == []) &&
      (!done && chunkIdx > 0 && exact ==> Flatten(sent) + Pending(State()) == image)
    }

    /** `vec![0; buf_size]` twice, `chunk_idx = 0`. */
    constructor (bufSize: nat)
      ensures State() == Buffers(Zeros(bufSize), Zeros(bufSize), 0) && this.bufSize == bufSize && !done
      ensures Valid() && exact
    {
      this.bufSize := bufSize;
      chunk1, chunk2, chunkIdx, done := Zeros(bufSize), Zeros(bufSize), 0, false;
      sent, image, exact := [], [], true;
    }

    /** One iteration of the loop, where the read returned `data`. */
    method Step(data: seq<byte>) returns (out: Outcome)
      requires Valid() && !done && |data| <= |Resized(Target(State()), bufSize)|
      modifies this
      ensures (State(), out) == Next(old(State()), bufSize, data)
      ensures done <==> out.Finished? || out.Panicked?
      ensures Valid()
      ensures out.Finished? && exact ==> Flatten(sent) == image
      ensures sent == old(sent) +
        if out.Dispatched? then [out.chunk] else if out.Finished? && out.last.Some? then [out.last.value] else []
      ensures image ==
        if |data| > 0 && !out.Panicked?
        then old(image) + AfterRead(Resized(Target(old(State())), bufSize), data, |Target(old(State()))|)
        else old(image)
      ensures exact ==
        if out.Dispatched?
        then old(exact) && Exact(old(State()), AfterRead(Resized(Target(old(State())), bufSize), data, |Target(old(State()))|))
        else if out.Finished? && out.last.Some? then old(exact) && old(chunkIdx) > 0
        else old(exact)
    {
      var chunk := if chunkIdx % 2 == 0 then chunk1 else chunk2;
      var chunkSize := |chunk|;
      chunk := Resize(chunk, bufSize);
      if |data| == 0 {
        out := Finish(chunk);
        return;
      }
      chunk := Overwrite(chunk, data, chunkSize);
      out := Deliver(chunk);
    }

    /** End of file, after the target buffer became `buf`: the pending buffer
        is the final chunk. */
    method Finish(buf: seq<byte>) returns (out: Outcome)
      requires Valid() && !done
      modifies this
      ensures State() == WithTarget(old(State()), buf) && done
      ensures out == Finished(Some(Pending(old(State()))))
      ensures Valid()
      ensures exact ==> Flatten(sent) == image
      ensures sent == old(sent) + [Pending(old(State()))] && image == old(image)
      ensures exact == (old(exact) && old(chunkIdx) > 0)
    {
      var chunk := if chunkIdx % 2 == 0 then chunk2 else chunk1;
      FlattenAppend(sent, chunk);
      var next := WithTarget(State(), buf);
      chunk1, chunk2, done, sent, exact := next.chunk1, next.chunk2, true, sent + [chunk], exact && chunkIdx > 0;
      return Finished(Some(chunk));
    }

    /** The rest of an iteration after a non-empty read left `buf` in the target buffer. */
    method Deliver(buf: seq<byte>) returns (out: Outcome)
      requires Valid() && !done
      modifies this
      ensures (State(), out) == Advance(old(State()), buf)
      ensures done <==> out.Panicked?
      ensures Valid()
      ensures sent == old(sent) + if out.Dispatched? then [out.chunk] else []
      ensures image == if out.Panicked? then old(image) else old(image) + buf
      ensures exact == if out.Dispatched? then old(exact) && Exact(old(State()), buf) else old(exact)
    {
      if chunkIdx == 0 {
        chunk1, chunkIdx, image := buf, 1, buf;
        return Buffered;
      }
      var pending := if chunkIdx % 2 == 0 then chunk2 else chunk1;
      var r := Splice(pending, buf);
      if r.None? {
        AdvanceFails(State(), buf);
        var next := WithTarget(State(), buf);
        chunk1, chunk2, done := next.chunk1, next.chunk2, true;
        return Panicked;
      }
      var (chunk, rest) := r.value;
      DispatchStep(State(), buf, chunk, rest, sent, image);
      ghost var keeps := exact && Exact(State(), buf);
      var next := WithTarget(State(), rest).(chunkIdx := chunkIdx + 1);
      chunk1, chunk2, chunkIdx, sent, image, exact := next.chunk1, next.chunk2, next.chunkIdx, sent + [chunk], image + buf, keeps;
      return Dispatched(chunk);
    }
  }

  /** `resize(buf_size, 0)` when the buffer is shorter than half of `buf_size`. */
  method Resize(buf: seq<byte>, bufSize: nat) returns (r: seq<byte>)
    ensures r == Resized(buf, bufSize)
  {
    r := buf;
    if |buf| < bufSize / 2 {
      r := buf + Zeros(bufSize - |buf|);
    }
  }

  /** The read into the buffer, and the zero sentinel after a read shorter than `chunkSize`. */
  method Overwrite(buf: seq<byte>, data: seq<byte>, chunkSize: nat) returns (r: seq<byte>)
    requires |data| <= |buf| && chunkSize <= |buf|
    ensures r == AfterRead(buf, data, chunkSize)
  {
    var len := |data|;
    r := data + buf[len..];
    if len < chunkSize {
      r := r[len := NUL];
    }
  }
}
