/** The per-chunk worker of the `pure` variant (`spawned_working`): leading
    newlines are skipped, then a two-state machine reads a name up to the first
    `;` and a number up to the newline, and stops at the first zero byte. */
module PureParser {
  import opened Common
  import opened Stats
  import opened Text
  import opened Records
  import opened Encoding

  /** The chunk without its leading run of newlines (`skip_while`). */
  function DropLeadingNewlines(s: seq<byte>): (r: seq<byte>)
    ensures |r| <= |s| && (|r| == 0 || r[0] != NL)
  {
    if |s| > 0 && s[0] == NL then DropLeadingNewlines(s[1..]) else s
  }

  /** What `DropLeadingNewlines` leaves is a suffix, and every byte it drops is a newline. */
  lemma {:induction false} DroppedNewlines(s: seq<byte>)
    ensures DropLeadingNewlines(s) == s[|s| - |DropLeadingNewlines(s)|..]
    ensures forall i :: 0 <= i < |s| - |DropLeadingNewlines(s)| ==> s[i] == NL
  {
    if |s| > 0 && s[0] == NL {
      DroppedNewlines(s[1..]);
    }
  }


  /** The bytes before the first zero byte (`break` on `b'\0'`). */
  function UpToNul(s: seq<byte>): (r: seq<byte>)
    ensures NUL !in r && |r| <= |s| && r == s[..|r|]
    ensures |r| == |s| || s[|r|] == NUL
  {
    match Position(s, NUL)
    case None => s
    case Some(i) => s[..i]
  }

  /** The bytes the state machine acts on. */
  function Scanned(chunk: seq<byte>): seq<byte>
  {
    UpToNul(DropLeadingNewlines(chunk))
  }

  /** `s` with every `;` removed: once the name is done, further `;` are skipped. */
  function DropSemis(s: seq<byte>): (r: seq<byte>)
    ensures SEMI !in r && |r| <= |s|
  {
    if |s| == 0 then []
    else DropSemis(s[..|s| - 1]) + (if s[|s| - 1] == SEMI then [] else [s[|s| - 1]])
  }

  /** The name of a line: the bytes before its first `;`, the whole line without one. */
  function KeyField(line: seq<byte>): (k: seq<byte>)
    ensures SEMI !in k && |k| <= |line| && k == line[..|k|]
    ensures SEMI in line ==> line[|k|] == SEMI
    ensures SEMI !in line ==> k == line
  {
    match Position(line, SEMI)
    case None => line
    case Some(i) => line[..i]
  }

  /** The number text of a line: the bytes after its first `;`, without further
      `;`; empty when the line has no `;`. */
  function ValueField(line: seq<byte>): (v: seq<byte>)
    ensures SEMI !in line ==> v == []
    ensures SEMI in line ==> v == DropSemis(line[|KeyField(line)| + 1..])
  {
    match Position(line, SEMI)
    case None => []
    case Some(i) => DropSemis(line[i + 1..])
  }

  function LineRecord(line: seq<byte>): Record
  {
    Record(KeyField(line), ValueField(line))
  }

  /** One record per line, in order. */
  function LineRecords(ls: seq<seq<byte>>): (recs: seq<Record>)
    ensures |recs| == |ls|
  {
    if |ls| == 0 then [] else LineRecords(ls[..|ls| - 1]) + [LineRecord(ls[|ls| - 1])]
  }

  lemma {:induction false} LineRecordsMeaning(ls: seq<seq<byte>>)
    ensures forall i :: 0 <= i < |ls| ==> LineRecords(ls)[i] == LineRecord(ls[i])
  {
    if |ls| > 0 {
      LineRecordsMeaning(ls[..|ls| - 1]);
    }
  }

  lemma {:induction false} LineRecordsAppend(ls: seq<seq<byte>>, ms: seq<seq<byte>>)
    ensures LineRecords(ls + ms) == LineRecords(ls) + LineRecords(ms)
    decreases |ms|
  {
    if |ms| == 0 {
      assert ls + ms == ls;
    } else {
      var init, last := ms[..|ms| - 1], ms[|ms| - 1];
      assert ms == init + [last];
      assert ls + ms == (ls + init) + [last];
      calc {
        LineRecords(ls + ms);
        { LineRecordsSnoc(ls + init, last); }
        LineRecords(ls + init) + [LineRecord(last)];
        { LineRecordsAppend(ls, init); }
        (LineRecords(ls) + LineRecords(init)) + [LineRecord(last)];
        LineRecords(ls) + (LineRecords(init) + [LineRecord(last)]);
        { LineRecordsSnoc(init, last); }
        LineRecords(ls) + LineRecords(ms);
      }
    }
  }

  lemma LineRecordsSnoc(ls: seq<seq<byte>>, l: seq<byte>)
    ensures LineRecords(ls + [l]) == LineRecords(ls) + [LineRecord(l)]
  {
    assert (ls + [l])[..|ls|] == ls;
  }

  /** One more byte scanned: a newline completes the partial line into a
      record, any other byte extends the partial line. */
  lemma ScanByte(seen: seq<byte>, ch: byte)
    ensures ch == NL ==> Rest(seen + [ch]) == []
    ensures ch == NL ==> LineRecords(Lines(seen + [ch])) == LineRecords(Lines(seen)) + [LineRecord(Rest(seen))]
    ensures ch != NL ==> Rest(seen + [ch]) == Rest(seen) + [ch]
    ensures ch != NL ==> LineRecords(Lines(seen + [ch])) == LineRecords(Lines(seen))
  {
    assert (seen + [ch])[..|seen|] == seen;
    if ch == NL {
      var ls := Lines(seen) + [Rest(seen)];
      assert ls[..|ls| - 1] == Lines(seen);
    }
  }

  /** The records of a chunk: one per complete line of the scanned bytes. */
  function PureRecords(chunk: seq<byte>): seq<Record>
  {
    LineRecords(Lines(Scanned(chunk)))
  }

  /** One byte more of a line that is not yet complete, as the state machine
      sees it: before the first `;` a byte extends the name, the first `;`
      ends it, and after it every byte but `;` extends the number. */
  lemma FieldsSnoc(line: seq<byte>, b: byte)
    ensures SEMI in line ==>
      KeyField(line + [b]) == KeyField(line) &&
      ValueField(line + [b]) == ValueField(line) + (if b == SEMI then [] else [b])
    ensures SEMI !in line && b == SEMI ==> KeyField(line + [b]) == line && ValueField(line + [b]) == []
    ensures SEMI !in line && b != SEMI ==> KeyField(line + [b]) == line + [b] && ValueField(line + [b]) == []
  {
    if SEMI in line {
      AfterSemiSnoc(line, b);
    } else if b == SEMI {
      var l := line + [b];
      assert l[..|line|] == line;
      PositionAt(l, SEMI, |line|);
      assert l[|line| + 1..] == [];
    } else {
      assert SEMI !in line + [b];
    }
  }

  lemma AfterSemiSnoc(line: seq<byte>, b: byte)
    requires SEMI in line
    ensures KeyField(line + [b]) == KeyField(line)
    ensures ValueField(line + [b]) == ValueField(line) + (if b == SEMI then [] else [b])
  {
    var l := line + [b];
    var i := |KeyField(line)|;
    assert l[..i] == line[..i];
    PositionAt(l, SEMI, i);
    var t := line[i + 1..];
    assert l[i + 1..] == t + [b];
    DropSemisSnoc(t, b);
  }

  lemma DropSemisSnoc(t: seq<byte>, b: byte)
    ensures DropSemis(t + [b]) == DropSemis(t) + (if b == SEMI then [] else [b])
  {
    assert (t + [b])[..|t|] == t;
  }

  /** The worker's variables: the records folded so far (as parsed pairs),
      the name and number being read, and the `doing_name` flag. */
  datatype Machine = Machine(ps: seq<(Key, Value)>, name: seq<byte>, number: seq<byte>, doingName: bool)

  /** One byte fed to the state machine (the zero byte, which stops it, is
      handled by the caller). */
  ghost function Feed(m: Machine, ch: byte, parse: Parser): Result<Machine, ParseError>
  {
    if ch == SEMI then Ok(m.(doingName := false))
    else if ch == NL then
      match parse(m.number)
      case None => Err(ParseError(m.name, m.number))
      case Some(v) => Ok(Machine(m.ps + [(m.name, v)], [], [], true))
    else if m.doingName then Ok(m.(name := m.name + [ch]))
    else Ok(m.(number := m.number + [ch]))
  }

  /** The state machine run over `s`. */
  ghost function Run(s: seq<byte>, parse: Parser): Result<Machine, ParseError>
  {
    if |s| == 0 then Ok(Machine([], [], [], true))
    else
      match Run(s[..|s| - 1], parse)
      case Err(e) => Err(e)
      case Ok(m) => Feed(m, s[|s| - 1], parse)
  }

  lemma RunSnoc(s: seq<byte>, ch: byte, parse: Parser)
    ensures Run(s + [ch], parse) == match Run(s, parse) case Err(e) => Err(e) case Ok(m) => Feed(m, ch, parse)
  {
    assert (s + [ch])[..|s|] == s;
  }

  /** The state machine computes the line-by-line reading: it fails exactly
      where parsing the records of the complete lines fails, and otherwise
      holds their parsed values and the name, number and flag of the partial line. */
  lemma {:induction false} RunMeaning(s: seq<byte>, parse: Parser)
    ensures Run(s, parse).Err? ==> ParseRecords(LineRecords(Lines(s)), parse) == Err(Run(s, parse).error)
    ensures Run(s, parse).Ok? ==> ParseRecords(LineRecords(Lines(s)), parse) == Ok(Run(s, parse).value.ps)
    ensures Run(s, parse).Ok? ==>
      Run(s, parse).value == Machine(Run(s, parse).value.ps, KeyField(Rest(s)), ValueField(Rest(s)), SEMI !in Rest(s))
  {
    if |s| > 0 {
      var init, ch := s[..|s| - 1], s[|s| - 1];
      assert s == init + [ch];
      RunMeaning(init, parse);
      RunSnoc(init, ch, parse);
      ScanByte(init, ch);
      if Run(init, parse).Ok? {
        if ch == NL {
          ParseSnoc(LineRecords(Lines(init)), LineRecord(Rest(init)), parse);
        } else {
          FieldsSnoc(Rest(init), ch);
        }
      }
    }
  }

  lemma SliceSplit(s: seq<byte>, i: nat, j: nat)
    requires i <= j <= |s|
    ensures s[i..] == s[i..j] + s[j..]
  {
  }

  /** `spawned_working`: the table of the chunk's records, or the first record
      whose number does not parse (where the source panics). */
  method SpawnedWorking(chunk: seq<byte>, parse: Parser) returns (r: Result<Table, ParseError>)
    ensures r == FoldRecords(PureRecords(chunk), parse)
  {
    var results: Table := map[];
    var name: seq<byte> := [];
    var number: seq<byte> := [];
    var doingName := true;
    var start := SkipNewlines(chunk);
    ghost var ps: seq<(Key, Value)> := [];
    var j := start;
    while j < |chunk|
      invariant start <= j <= |chunk|
      invariant NUL !in chunk[start..j]
      invariant Run(chunk[start..j], parse) == Ok(Machine(ps, name, number, doingName))
      invariant results == Tabulate(ps)
    {
      var ch := chunk[j];
      if ch == NUL {
        break;
      }
      ScanOn(chunk, start, j, parse);
      var failure;
      failure, results, name, number, doingName, ps := Consume(ps, results, name, number, doingName, ch, parse);
      if failure.Some? {
        Abort(chunk, start, j + 1, parse);
        return Err(failure.value);
      }
      j := j + 1;
    }
    Finish(chunk, start, j, parse);
    return Ok(results);
  }

  /** The `skip_while` over leading newlines. */
  method SkipNewlines(chunk: seq<byte>) returns (start: nat)
    ensures start <= |chunk| && DropLeadingNewlines(chunk) == chunk[start..]
  {
    start := 0;
    while start < |chunk| && chunk[start] == NL
      invariant 0 <= start <= |chunk|
      invariant DropLeadingNewlines(chunk) == DropLeadingNewlines(chunk[start..])
    {
      assert chunk[start..][1..] == chunk[start + 1..];
      start := start + 1;
    }
  }

  /** The loop body for one byte other than the zero byte: a `;` ends the
      name, a newline folds the record (or reports the number that does not
      parse), any other byte extends the name or the number. */
  method Consume(ghost ps: seq<(Key, Value)>, results: Table, name: seq<byte>, number: seq<byte>, doingName: bool,
                 ch: byte, parse: Parser)
    returns (failure: Option<ParseError>, results': Table, name': seq<byte>, number': seq<byte>, doingName': bool,
             ghost ps': seq<(Key, Value)>)
    requires ch != NUL && results == Tabulate(ps)
    ensures failure.None? ==>
      Feed(Machine(ps, name, number, doingName), ch, parse) == Ok(Machine(ps', name', number', doingName')) &&
      results' == Tabulate(ps')
    ensures failure.Some? ==> ch == NL && Feed(Machine(ps, name, number, doingName), ch, parse) == Err(failure.value)
  {
    failure, results', name', number', doingName', ps' := None, results, name, number, doingName, ps;
    if ch == SEMI {
      doingName' := false;
    } else if ch == NL {
      match parse(number)
      case None =>
        failure := Some(ParseError(name, number));
      case Some(v) =>
        TabulateSnoc(ps, (name, v));
        results' := Insert(results, name, v);
        ps' := ps + [(name, v)];
        doingName', name', number' := true, [], [];
    } else if doingName {
      name' := name + [ch];
    } else {
      number' := number + [ch];
    }
  }

  /** One more byte, not a zero byte, is one more `Feed`. */
  lemma ScanOn(chunk: seq<byte>, start: nat, j: nat, parse: Parser)
    requires start <= j < |chunk| && chunk[j] != NUL && NUL !in chunk[start..j]
    ensures NUL !in chunk[start..j + 1]
    ensures Run(chunk[start..j + 1], parse) ==
      match Run(chunk[start..j], parse) case Err(e) => Err(e) case Ok(m) => Feed(m, chunk[j], parse)
  {
    SliceSnoc(chunk, start, j);
    RunSnoc(chunk[start..j], chunk[j], parse);
  }

  /** A run that fails on the complete lines scanned so far fails the whole chunk with the same error. */
  lemma Abort(chunk: seq<byte>, start: nat, j: nat, parse: Parser)
    requires start < j <= |chunk| && chunk[j - 1] == NL && NUL !in chunk[start..j]
    requires DropLeadingNewlines(chunk) == chunk[start..]
    requires Run(chunk[start..j], parse).Err?
    ensures FoldRecords(PureRecords(chunk), parse) == Err(Run(chunk[start..j], parse).error)
  {
    RunMeaning(chunk[start..j], parse);
    SliceSplit(chunk, start, j);
    AbortIsFirstError(chunk[start..j], chunk[j..], parse);
  }

  /** A run that reaches the end of the chunk, or its first zero byte, has folded every record. */
  lemma Finish(chunk: seq<byte>, start: nat, j: nat, parse: Parser)
    requires start <= j <= |chunk| && NUL !in chunk[start..j]
    requires DropLeadingNewlines(chunk) == chunk[start..]
    requires j == |chunk| || chunk[j] == NUL
    requires Run(chunk[start..j], parse).Ok?
    ensures FoldRecords(PureRecords(chunk), parse) == Ok(Tabulate(Run(chunk[start..j], parse).value.ps))
  {
    ScanEnds(chunk, start, j);
    RunMeaning(chunk[start..j], parse);
  }

  /** The scan stops at the first zero byte. */
  lemma ScanStops(chunk: seq<byte>, start: nat, j: nat)
    requires start <= j < |chunk| && chunk[j] == NUL && NUL !in chunk[start..j]
    requires DropLeadingNewlines(chunk) == chunk[start..]
    ensures Scanned(chunk) == chunk[start..j]
  {
    SliceSplit(chunk, start, j);
    UpToNulAppend(chunk[start..j], chunk[j..]);
    PositionAt(chunk[j..], NUL, 0);
    assert UpToNul(chunk[j..]) == [];
  }

  /** When the scan reaches the end of the chunk, or stopped at a zero byte, it has seen all of `Scanned`. */
  lemma ScanEnds(chunk: seq<byte>, start: nat, j: nat)
    requires start <= j <= |chunk| && NUL !in chunk[start..j]
    requires DropLeadingNewlines(chunk) == chunk[start..]
    requires j == |chunk| || chunk[j] == NUL
    ensures Scanned(chunk) == chunk[start..j]
  {
    if j < |chunk| {
      ScanStops(chunk, start, j);
    } else {
      assert chunk[start..j] == chunk[start..];
      assert Position(chunk[start..], NUL).None?;
    }
  }

  /** A parse failure found in the complete lines scanned so far is the result
      for the whole chunk, whatever follows. */
  lemma AbortIsFirstError(seen: seq<byte>, tail: seq<byte>, parse: Parser)
    requires |seen| > 0 && seen[|seen| - 1] == NL && NUL !in seen
    requires ParseRecords(LineRecords(Lines(seen)), parse).Err?
    ensures FoldRecords(LineRecords(Lines(UpToNul(seen + tail))), parse) ==
      Err(ParseRecords(LineRecords(Lines(seen)), parse).error)
  {
    UpToNulAppend(seen, tail);
    LinesAppend(seen, UpToNul(tail));
    LineRecordsAppend(Lines(seen), Lines(UpToNul(tail)));
    ParseErrorSticks(LineRecords(Lines(seen)), LineRecords(Lines(UpToNul(tail))), parse);
  }

  lemma UpToNulAppend(a: seq<byte>, b: seq<byte>)
    requires NUL !in a
    ensures UpToNul(a + b) == a + UpToNul(b)
  {
    if NUL in b {
      var i := |UpToNul(b)|;
      assert (a + b)[..|a| + i] == a + b[..i];
      PositionAt(a + b, NUL, |a| + i);
    } else {
      assert NUL !in a + b;
    }
  }

  /** Nothing after the first zero byte is ever read. */
  lemma NulEndsChunk(s: seq<byte>, t: seq<byte>)
    ensures PureRecords(s + [NUL] + t) == PureRecords(s)
  {
    var d := DropLeadingNewlines(s);
    if |d| == 0 {
      DropAllNewlines(s, [NUL] + t);
      assert s + [NUL] + t == s + ([NUL] + t);
      PositionAt([NUL] + t, NUL, 0);
    } else {
      DropThroughNonNewline(s, [NUL] + t);
      assert s + [NUL] + t == s + ([NUL] + t);
      if NUL in d {
        var i := |UpToNul(d)|;
        assert (d + ([NUL] + t))[..i] == d[..i];
        PositionAt(d + ([NUL] + t), NUL, i);
      } else {
        assert (d + ([NUL] + t))[..|d|] == d;
        PositionAt(d + ([NUL] + t), NUL, |d|);
      }
    }
  }

  /** A chunk's leading newlines are skipped: they add no record, not even an empty one. */
  lemma LeadingNewlineSkipped(s: seq<byte>)
    ensures PureRecords([NL] + s) == PureRecords(s)
  {
    assert ([NL] + s)[1..] == s;
  }

  /** The bytes after the chunk's last newline form no record. */
  lemma PartialLineDropped(s: seq<byte>, t: seq<byte>)
    requires NL !in t
    ensures PureRecords(s + t) == PureRecords(s)
  {
    var d := DropLeadingNewlines(s);
    if |d| == 0 {
      DropAllNewlines(s, t);
      NoNewlineTail([], UpToNul(DropLeadingNewlines(t)));
      assert [] + UpToNul(DropLeadingNewlines(t)) == UpToNul(DropLeadingNewlines(t));
    } else {
      DropThroughNonNewline(s, t);
      if NUL in d {
        var i := |UpToNul(d)|;
        assert (d + t)[..i] == d[..i];
        PositionAt(d + t, NUL, i);
      } else {
        UpToNulAppend(d, t);
        NoNewlineTail(d, UpToNul(t));
      }
    }
  }

  lemma {:induction false} DropAllNewlines(s: seq<byte>, t: seq<byte>)
    requires DropLeadingNewlines(s) == []
    ensures DropLeadingNewlines(s + t) == DropLeadingNewlines(t)
  {
    if |s| > 0 {
      assert (s + t)[1..] == s[1..] + t;
      DropAllNewlines(s[1..], t);
    } else {
      assert s + t == t;
    }
  }

  lemma {:induction false} DropThroughNonNewline(s: seq<byte>, t: seq<byte>)
    requires DropLeadingNewlines(s) != []
    ensures DropLeadingNewlines(s + t) == DropLeadingNewlines(s) + t
  {
    if s[0] == NL {
      assert (s + t)[1..] == s[1..] + t;
      DropThroughNonNewline(s[1..], t);
    }
  }

  lemma {:induction false} DropSemisNone(s: seq<byte>)
    requires SEMI !in s
    ensures DropSemis(s) == s
  {
    if |s| > 0 {
      DropSemisNone(s[..|s| - 1]);
      assert s == s[..|s| - 1] + [s[|s| - 1]];
    }
  }

  /** A well-formed line `key;value` reads back as its record. */
  lemma LineRecordOfLine(rec: Record)
    requires SEMI !in rec.key && SEMI !in rec.text
    ensures LineRecord(Line(rec)) == rec
  {
    var l := Line(rec);
    assert l[..|rec.key|] == rec.key;
    PositionAt(l, SEMI, |rec.key|);
    assert l[|rec.key| + 1..] == rec.text;
    DropSemisNone(rec.text);
  }

  lemma {:induction false} LineRecordsOfLines(recs: seq<Record>)
    requires Absent(recs, SEMI)
    ensures LineRecords(RecordLines(recs)) == recs
  {
    if |recs| > 0 {
      var init, last := recs[..|recs| - 1], recs[|recs| - 1];
      assert recs == init + [last];
      var ls := RecordLines(recs);
      assert ls == RecordLines(init) + [Line(last)];
      assert ls[..|ls| - 1] == RecordLines(init);
      assert ls[|ls| - 1] == Line(last);
      LineRecordsOfLines(init);
      LineRecordOfLine(last);
      assert LineRecords(ls) == LineRecords(RecordLines(init)) + [LineRecord(Line(last))];
    }
  }

  /** Reading an encoded file gives back its records, provided no key or value
      holds a separator or a zero byte. */
  lemma PureRoundTrip(recs: seq<Record>)
    requires Clean(recs) && Absent(recs, NUL)
    ensures PureRecords(Encode(recs)) == recs
  {
    var s := Encode(recs);
    EncodeStart(recs);
    EncodeAvoids(recs, NUL);
    assert Scanned(s) == s;
    EncodeLines(recs);
    LineRecordsOfLines(recs);
  }
}
