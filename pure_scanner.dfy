/** The reader loop of the `pure` variant's `do_main`: two fixed arrays of
    `BUF_SIZE` bytes are read into alternately and `prev_len` keeps the length
    of the last read. The first read is kept; at the second, the chunk is all
    of the first array followed by the second array's bytes up to its first
    newline; at every later one, the chunk is the pending array after its
    first newline followed by the current array's bytes up to its first
    newline. At end of file the pending array is sent from its first newline
    to `prev_len`. */
module PureScanner {
  import opened Common
  import opened Records
  import opened Encoding
  import opened PureParser

  /** `BUF_SIZE`, 2^18 bytes. */
  const BUF_SIZE: nat := 0x4_0000

  /** The two arrays' contents, `chunk_idx` and `prev_len`. */
  datatype Arrays = Arrays(chunk1: seq<byte>, chunk2: seq<byte>, chunkIdx: nat, prevLen: nat)

  /** The state `do_main` starts the loop in. */
  const Initial: Arrays := Arrays(Zeros(BUF_SIZE), Zeros(BUF_SIZE), 0, 0)

  /** Both arrays have `BUF_SIZE` bytes and no read is longer. */
  predicate Sized(a: Arrays)
  {
    |a.chunk1| == BUF_SIZE && |a.chunk2| == BUF_SIZE && a.prevLen <= BUF_SIZE
  }

  /** The array the next read fills: `chunk1` on even iterations, `chunk2` on odd ones. */
  function ReadTarget(a: Arrays): seq<byte>
  {
    if a.chunkIdx % 2 == 0 then a.chunk1 else a.chunk2
  }

  /** The other array, read by the previous iteration. */
  function PendingArray(a: Arrays): seq<byte>
  {
    if a.chunkIdx % 2 == 0 then a.chunk2 else a.chunk1
  }

  /** An array after a read of `data`: the bytes read, then what the array held before. */
  function Overwritten(buf: seq<byte>, data: seq<byte>): (r: seq<byte>)
    requires |data| <= |buf|
    ensures |r| == |buf| && r[..|data|] == data && r[|data|..] == buf[|data|..]
  {
    data + buf[|data|..]
  }

  /** The pending array's part of the chunk of iteration `chunkIdx` (at least
      1): all of it at iteration 1 or when it has no newline, otherwise what
      follows its first newline, which the previous chunk already carried. */
  function Head(pending: seq<byte>, chunkIdx: nat): seq<byte>
  {
    match Position(pending, NL)
    case Some(idx) => if chunkIdx != 1 then pending[idx + 1..] else pending
    case None => pending
  }

  /** The end-of-file branch as written: the pending array from its first
      newline to `prev_len`; nothing when it has no newline; a panic when that
      newline lies after `prev_len`. */
  function FinalAsWritten(pending: seq<byte>, prevLen: nat): Outcome
    requires prevLen <= |pending|
  {
    match Position(pending, NL)
    case None => Finished(None)
    case Some(idx) => if idx <= prevLen then Finished(Some(pending[idx..prevLen])) else Panicked
  }

  /** The end-of-file branch with the case the splice already makes: at
      iteration 1 the pending array was never sent, so all of its first
      `prev_len` bytes are. */
  function Final(pending: seq<byte>, chunkIdx: nat, prevLen: nat): Outcome
    requires prevLen <= |pending|
  {
    if chunkIdx == 1 then Finished(Some(pending[..prevLen])) else FinalAsWritten(pending, prevLen)
  }

  /** One iteration of the loop, reading `data`. */
  function Next(a: Arrays, data: seq<byte>): (r: (Arrays, Outcome))
    requires Sized(a) && |data| <= BUF_SIZE
    ensures Sized(r.0)
  {
    if |data| == 0 then (a, Final(PendingArray(a), a.chunkIdx, a.prevLen))
    else
      var cur := Overwritten(ReadTarget(a), data);
      var b := if a.chunkIdx % 2 == 0 then a.(chunk1 := cur) else a.(chunk2 := cur);
      var next := b.(chunkIdx := a.chunkIdx + 1, prevLen := |data|);
      if a.chunkIdx == 0 then (next, Buffered)
      else (next, Dispatched(Head(PendingArray(a), a.chunkIdx) + ThroughNewline(cur)))
  }

  lemma Swap(a: Arrays, cur: seq<byte>, len: nat)
    ensures var b := if a.chunkIdx % 2 == 0 then a.(chunk1 := cur) else a.(chunk2 := cur);
      var next := b.(chunkIdx := a.chunkIdx + 1, prevLen := len);
      PendingArray(next) == cur && ReadTarget(next) == PendingArray(a)
  {
    if a.chunkIdx % 2 == 0 {
      assert (a.chunkIdx + 1) % 2 == 1;
    } else {
      assert (a.chunkIdx + 1) % 2 == 0;
    }
  }

  /** The first read is not sent; it becomes the pending array, and `prev_len` its length. */
  lemma FirstReadKept(a: Arrays, data: seq<byte>)
    requires Sized(a) && a.chunkIdx == 0 && 0 < |data| <= BUF_SIZE
    ensures var (next, out) := Next(a, data);
      out == Buffered && next.chunkIdx == 1 && next.prevLen == |data| &&
      PendingArray(next) == Overwritten(a.chunk1, data)
  {
    Swap(a, Overwritten(ReadTarget(a), data), |data|);
  }

  /** The second read sends all of the first array and the new bytes up to
      and including their first newline. */
  lemma SecondChunk(a: Arrays, data: seq<byte>)
    requires Sized(a) && a.chunkIdx == 1 && 0 < |data| <= BUF_SIZE
    ensures Next(a, data).1 == Dispatched(a.chunk1 + ThroughNewline(Overwritten(a.chunk2, data)))
  {
    assert ReadTarget(a) == a.chunk2 && PendingArray(a) == a.chunk1;
    assert Head(a.chunk1, 1) == a.chunk1;
  }

  /** A later read sends the pending array after its first newline (all of
      it when it has none) followed by the current array up to and including
      its first newline (all of it when it has none); the chunk ends in a
      newline whenever the current array holds one. */
  lemma LaterChunk(a: Arrays, data: seq<byte>)
    requires Sized(a) && a.chunkIdx >= 2 && 0 < |data| <= BUF_SIZE
    ensures var cur := Overwritten(ReadTarget(a), data);
      Next(a, data).1 == Dispatched(AfterNewline(PendingArray(a)) + ThroughNewline(cur)) &&
      (NL !in PendingArray(a) ==> Next(a, data).1 == Dispatched(PendingArray(a) + ThroughNewline(cur))) &&
      (NL in cur ==> Next(a, data).1.chunk[|Next(a, data).1.chunk| - 1] == NL)
  {
    var p := PendingArray(a);
    if NL in p {
      var idx := Position(p, NL).value;
      SplitAtFirstNewline(p, idx);
    }
  }

  /** When the current array has no newline, the chunk sent now ends with all
      of it and the next chunk starts with all of it again: its bytes are sent
      twice. */
  lemma ResentWithoutNewline(a: Arrays, d1: seq<byte>, d2: seq<byte>)
    requires Sized(a) && a.chunkIdx >= 1 && 0 < |d1| <= BUF_SIZE && 0 < |d2| <= BUF_SIZE
    requires NL !in Overwritten(ReadTarget(a), d1)
    ensures var cur := Overwritten(ReadTarget(a), d1);
      var (b, o1) := Next(a, d1);
      o1 == Dispatched(Head(PendingArray(a), a.chunkIdx) + cur) &&
      Next(b, d2).1 == Dispatched(cur + ThroughNewline(Overwritten(PendingArray(a), d2)))
  {
    var cur := Overwritten(ReadTarget(a), d1);
    Swap(a, cur, |d1|);
    LaterChunk(Next(a, d1).0, d2);
  }

  /** Consecutive chunks meet exactly at the array between them: the first
      ends with that array's bytes up to its first newline, the second starts
      with the bytes after it, and the two parts make up the array. */
  lemma ChunksMeet(a: Arrays, d1: seq<byte>, d2: seq<byte>)
    requires Sized(a) && a.chunkIdx >= 1 && 0 < |d1| <= BUF_SIZE && 0 < |d2| <= BUF_SIZE
    requires NL in Overwritten(ReadTarget(a), d1)
    ensures var cur := Overwritten(ReadTarget(a), d1);
      var (b, o1) := Next(a, d1);
      o1 == Dispatched(Head(PendingArray(a), a.chunkIdx) + ThroughNewline(cur)) &&
      Next(b, d2).1 == Dispatched(AfterNewline(cur) + ThroughNewline(Overwritten(PendingArray(a), d2))) &&
      ThroughNewline(cur) + AfterNewline(cur) == cur
  {
    var cur := Overwritten(ReadTarget(a), d1);
    Swap(a, cur, |d1|);
    LaterChunk(Next(a, d1).0, d2);
  }

  /** At end of file after iteration 2 or later, the final chunk is the
      pending array from its first newline to `prev_len`, so it never holds a
      byte past the last read; nothing is sent when the array has no newline,
      and the loop panics when its first newline lies past `prev_len`. */
  lemma FinalWithinRead(pending: seq<byte>, chunkIdx: nat, prevLen: nat)
    requires prevLen <= |pending| && chunkIdx != 1
    ensures Final(pending, chunkIdx, prevLen).Finished? && Final(pending, chunkIdx, prevLen).last.None? <==> NL !in pending
    ensures Final(pending, chunkIdx, prevLen).Panicked? <==> NL in pending && Position(pending, NL).value > prevLen
    ensures Final(pending, chunkIdx, prevLen).Finished? && Final(pending, chunkIdx, prevLen).last.Some? ==>
      exists idx: nat :: idx <= prevLen && idx < |pending| && pending[idx] == NL && NL !in pending[..idx] &&
        Final(pending, chunkIdx, prevLen).last.value == pending[idx..prevLen]
  {
  }

  /** A file that fits in one read is sent whole at end of file. */
  lemma SingleReadSent(data: seq<byte>)
    requires 0 < |data| <= BUF_SIZE
    ensures Next(Next(Initial, data).0, []).1 == Finished(Some(data))
  {
    var a := Next(Initial, data).0;
    FirstReadKept(Initial, data);
    assert PendingArray(a)[..a.prevLen] == data;
  }

  /** As written, the same file loses the bytes before its first newline:
      `A;1\nB;2\n` is read at once, and end of file sends only `\nB;2\n`,
      whose records miss `A;1`. */
  lemma FirstLineLost()
    ensures var data: seq<byte> := [65, 59, 49, 10, 66, 59, 50, 10];
      var a := Next(Initial, data).0;
      FinalAsWritten(PendingArray(a), a.prevLen) == Finished(Some(data[3..])) &&
      PureRecords(data) == [Record([65], [49]), Record([66], [50])] &&
      PureRecords(data[3..]) == [Record([66], [50])]
  {
    var data: seq<byte> := [65, 59, 49, 10, 66, 59, 50, 10];
    LostChunk(data);
    LostRecords(data);
  }

  lemma LostChunk(data: seq<byte>)
    requires data == [65, 59, 49, 10, 66, 59, 50, 10]
    ensures var a := Next(Initial, data).0;
      FinalAsWritten(PendingArray(a), a.prevLen) == Finished(Some(data[3..]))
  {
    var a := Next(Initial, data).0;
    FirstReadKept(Initial, data);
    var p := PendingArray(a);
    assert p[..3] == data[..3] == [65, 59, 49];
    PositionAt(p, NL, 3);
    assert p[3..8] == data[3..];
  }

  lemma LostRecords(data: seq<byte>)
    requires data == [65, 59, 49, 10, 66, 59, 50, 10]
    ensures PureRecords(data) == [Record([65], [49]), Record([66], [50])]
    ensures PureRecords(data[3..]) == [Record([66], [50])]
  {
    var r1, r2 := Record([65], [49]), Record([66], [50]);
    CleanPair(r1, r2);
    EncodePair(r1, r2, data);
    PureRoundTrip([r1, r2]);
    PureRoundTrip([r2]);
    LeadingNewlineSkipped(data[4..]);
  }

  lemma EncodePair(r1: Record, r2: Record, data: seq<byte>)
    requires r1 == Record([65], [49]) && r2 == Record([66], [50])
    requires data == [65, 59, 49, 10, 66, 59, 50, 10]
    ensures Encode([r1, r2]) == data && Encode([r2]) == data[4..] && data[3..] == [NL] + data[4..]
  {
    EncodeTwo(r1, r2);
    var l1, l2 := Line(r1), Line(r2);
    assert l1 == [65, 59, 49] && l2 == [66, 59, 50];
    assert data == (l1 + [NL]) + (l2 + [NL]);
  }

  lemma EncodeTwo(r1: Record, r2: Record)
    ensures Encode([r2]) == Line(r2) + [NL]
    ensures Encode([r1, r2]) == (Line(r1) + [NL]) + (Line(r2) + [NL])
  {
    EncodeSnoc([], r1);
    EncodeSnoc([], r2);
    assert [] + [r1] == [r1] && [] + [r2] == [r2];
    EncodeSnoc([r1], r2);
    assert [r1] + [r2] == [r1, r2];
  }

  lemma EncodeSnoc(recs: seq<Record>, r: Record)
    ensures Encode(recs + [r]) == Encode(recs) + Line(r) + [NL]
  {
    assert (recs + [r])[..|recs|] == recs;
  }

  lemma CleanPair(r1: Record, r2: Record)
    requires r1 == Record([65], [49]) && r2 == Record([66], [50])
    ensures Clean([r1, r2]) && Absent([r1, r2], NUL) && Clean([r2]) && Absent([r2], NUL)
  {
    assert [r1, r2][..1] == [r1] && [r1][..0] == [] && [r2][..0] == [];
  }

  /** The reader loop's variables: the two arrays, `chunk_idx` and `prev_len`. */
  class Reader {
    const chunk1: array<byte>
    const chunk2: array<byte>
    var chunkIdx: nat
    var prevLen: nat
    /** Set once the loop has ended, by end of file or a panic. */
    var done: bool

    ghost predicate Valid()
      reads this
    {
      chunk1.Length == BUF_SIZE && chunk2.Length == BUF_SIZE && chunk1 != chunk2 && prevLen <= BUF_SIZE
    }

    function State(): Arrays
      reads this, chunk1, chunk2
    {
      Arrays(chunk1[..], chunk2[..], chunkIdx, prevLen)
    }

    /** `[0; BUF_SIZE]` twice, `chunk_idx = 0`, `prev_len = 0`. */
    constructor ()
      ensures Valid() && State() == Initial && !done
    {
      chunk1 := new byte[BUF_SIZE](_ => NUL);
      chunk2 := new byte[BUF_SIZE](_ => NUL);
      chunkIdx, prevLen, done := 0, 0, false;
      new;
      assert chunk1[..] == Zeros(BUF_SIZE) && chunk2[..] == Zeros(BUF_SIZE);
    }

    /** One iteration of the loop, where the read returned `data`. */
    method Step(data: seq<byte>) returns (out: Outcome)
      requires Valid() && !done && |data| <= BUF_SIZE
      modifies this, chunk1, chunk2
      ensures Valid() && (State(), out) == Next(old(State()), data)
      ensures done <==> out.Finished? || out.Panicked?
    {
      var len := |data|;
      if len == 0 {
        out := Finish();
        return;
      }
      var target := if chunkIdx % 2 == 0 then chunk1 else chunk2;
      Read(target, data);
      prevLen := len;
      if chunkIdx == 0 {
        chunkIdx := 1;
        return Buffered;
      }
      var pending := if chunkIdx % 2 == 1 then chunk1 else chunk2;
      var head := Head(pending[..], chunkIdx);
      var chunk := PushThrough(head, target);
      chunkIdx := chunkIdx + 1;
      return Dispatched(chunk);
    }

    /** End of file: the pending array from its first newline to `prev_len`,
        or all of its first `prev_len` bytes at iteration 1. */
    method Finish() returns (out: Outcome)
      requires Valid() && !done
      modifies this
      ensures Valid() && done && State() == old(State())
      ensures out == Final(PendingArray(State()), chunkIdx, prevLen)
    {
      done := true;
      var chunk := if chunkIdx % 2 == 0 then chunk2 else chunk1;
      if chunkIdx == 1 {
        return Finished(Some(chunk[..prevLen]));
      }
      var idx := Position(chunk[..], NL);
      if idx.None? {
        return Finished(None);
      }
      if idx.value > prevLen {
        return Panicked;
      }
      return Finished(Some(chunk[idx.value..prevLen]));
    }
  }

  /** A read of `data` into `buf`: its first `|data|` bytes are overwritten. */
  method Read(buf: array<byte>, data: seq<byte>)
    requires |data| <= buf.Length
    modifies buf
    ensures buf[..] == Overwritten(old(buf[..]), data)
  {
    forall i | 0 <= i < |data| {
      buf[i] := data[i];
    }
  }

  /** The push loop: `head`, then the bytes of `current` up to and including
      its first newline. */
  method PushThrough(head: seq<byte>, current: array<byte>) returns (chunk: seq<byte>)
    ensures chunk == head + ThroughNewline(current[..])
  {
    chunk := head;
    for i := 0 to current.Length
      invariant chunk == head + current[..i] && NL !in current[..i]
    {
      var ch := current[i];
      assert current[..i + 1] == current[..i] + [ch];
      chunk := chunk + [ch];
      if ch == NL {
        SplitAtFirstNewline(current[..], i);
        return;
      }
    }
    assert current[..current.Length] == current[..];
  }
}
