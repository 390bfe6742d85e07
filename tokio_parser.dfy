/** The per-chunk worker of the `tokio` variant (`spawned_working`): an index
    scanner over the whole chunk. Every `;` makes the bytes since the last
    separator the current name; every newline parses the bytes since the last
    separator as a number and folds it under the current name. The name is not
    reset at a newline, and zero bytes are ordinary bytes. */
module TokioParser {
  import opened Common
  import opened Stats
  import opened Text
  import opened Records
  import opened Encoding

  /** The bytes after the last `;` of `s`; all of `s` when it has none. */
  function LastField(s: seq<byte>): (f: seq<byte>)
    ensures SEMI !in f
  {
    if |s| == 0 then []
    else if s[|s| - 1] == SEMI then []
    else LastField(s[..|s| - 1]) + [s[|s| - 1]]
  }

  /** The last field is the suffix of `s` that starts at its beginning or
      right after a `;`. */
  lemma {:induction false} LastFieldSuffix(s: seq<byte>)
    ensures |LastField(s)| <= |s| && LastField(s) == s[|s| - |LastField(s)|..]
    ensures |LastField(s)| == |s| || s[|s| - |LastField(s)| - 1] == SEMI
  {
    if |s| > 0 && s[|s| - 1] != SEMI {
      var init := s[..|s| - 1];
      LastFieldSuffix(init);
      assert s == init + [s[|s| - 1]];
      assert s[|s| - |LastField(s)|..] == init[|init| - |LastField(init)|..] + [s[|s| - 1]];
    }
  }

  /** The bytes before the last `;` of `s`; empty when it has none. */
  function BeforeLastSemi(s: seq<byte>): seq<byte>
  {
    if |s| == 0 then []
    else if s[|s| - 1] == SEMI then s[..|s| - 1]
    else BeforeLastSemi(s[..|s| - 1])
  }

  /** The name a line assigns: the field just before its last `;`. */
  function LineKey(line: seq<byte>): Key
  {
    LastField(BeforeLastSemi(line))
  }

  /** The name in effect after the lines `ls`: that of the last line holding a
      `;`, or the empty name when none does. */
  function KeyAfter(ls: seq<seq<byte>>): Key
  {
    if |ls| == 0 then []
    else if SEMI in ls[|ls| - 1] then LineKey(ls[|ls| - 1])
    else KeyAfter(ls[..|ls| - 1])
  }

  /** One record per line: the value text is the line's last field; the key is
      the line's own name when it has a `;`, else the name carried over from
      the lines before it. */
  function TokioLineRecords(ls: seq<seq<byte>>): (recs: seq<Record>)
    ensures |recs| == |ls|
  {
    if |ls| == 0 then []
    else
      var init, line := ls[..|ls| - 1], ls[|ls| - 1];
      TokioLineRecords(init) + [Record(if SEMI in line then LineKey(line) else KeyAfter(init), LastField(line))]
  }

  /** The records of a chunk: one per complete line. */
  function TokioRecords(chunk: seq<byte>): seq<Record>
  {
    TokioLineRecords(Lines(chunk))
  }

  /** The name in effect after scanning `s`, partial line included. */
  function KeyNow(s: seq<byte>): Key
  {
    if SEMI in Rest(s) then LineKey(Rest(s)) else KeyAfter(Lines(s))
  }

  /** The worker's variables: the records folded so far (as parsed pairs), the
      current name, and the field `chunk[idx..j]` since the last separator. */
  datatype Scan = Scan(ps: seq<(Key, Value)>, name: seq<byte>, field: seq<byte>)

  /** One iteration of the index loop on byte `ch`. */
  ghost function Feed(st: Scan, ch: byte, parse: Parser): Result<Scan, ParseError>
  {
    if ch == SEMI then Ok(Scan(st.ps, st.field, []))
    else if ch == NL then
      match parse(st.field)
      case None => Err(ParseError(st.name, st.field))
      case Some(v) => Ok(Scan(st.ps + [(st.name, v)], st.name, []))
    else Ok(st.(field := st.field + [ch]))
  }

  /** The index loop run over `s`. */
  ghost function Run(s: seq<byte>, parse: Parser): Result<Scan, ParseError>
  {
    if |s| == 0 then Ok(Scan([], [], []))
    else
      match Run(s[..|s| - 1], parse)
      case Err(e) => Err(e)
      case Ok(st) => Feed(st, s[|s| - 1], parse)
  }

  lemma RunSnoc(s: seq<byte>, ch: byte, parse: Parser)
    ensures Run(s + [ch], parse) == match Run(s, parse) case Err(e) => Err(e) case Ok(st) => Feed(st, ch, parse)
  {
    assert (s + [ch])[..|s|] == s;
  }

  lemma FieldSnoc(s: seq<byte>, ch: byte)
    requires ch != SEMI
    ensures LastField(s + [ch]) == LastField(s) + [ch] && BeforeLastSemi(s + [ch]) == BeforeLastSemi(s)
  {
    assert (s + [ch])[..|s|] == s;
  }

  lemma SemiSnoc(s: seq<byte>)
    ensures LastField(s + [SEMI]) == [] && BeforeLastSemi(s + [SEMI]) == s
  {
    assert (s + [SEMI])[..|s|] == s;
  }

  lemma RecordsSnoc(ls: seq<seq<byte>>, line: seq<byte>)
    ensures TokioLineRecords(ls + [line]) ==
      TokioLineRecords(ls) + [Record(if SEMI in line then LineKey(line) else KeyAfter(ls), LastField(line))]
    ensures KeyAfter(ls + [line]) == if SEMI in line then LineKey(line) else KeyAfter(ls)
  {
    assert (ls + [line])[..|ls|] == ls;
  }

  /** The index loop computes the line-by-line reading: it fails exactly where
      parsing the records of the complete lines fails, and otherwise holds
      their parsed values, the name in effect and the partial line's last field. */
  lemma {:induction false} RunMeaning(s: seq<byte>, parse: Parser)
    ensures Run(s, parse).Err? ==> ParseRecords(TokioRecords(s), parse) == Err(Run(s, parse).error)
    ensures Run(s, parse).Ok? ==> ParseRecords(TokioRecords(s), parse) == Ok(Run(s, parse).value.ps)
    ensures Run(s, parse).Ok? ==>
      Run(s, parse).value.name == KeyNow(s) && Run(s, parse).value.field == LastField(Rest(s))
  {
    if |s| > 0 {
      var init, ch := s[..|s| - 1], s[|s| - 1];
      assert s == init + [ch];
      RunMeaning(init, parse);
      RunSnoc(init, ch, parse);
      LinesSnoc(init, ch);
      if Run(init, parse).Ok? {
        if ch == NL {
          RecordsSnoc(Lines(init), Rest(init));
          ParseSnoc(TokioRecords(init), Record(KeyNow(init), LastField(Rest(init))), parse);
        } else if ch == SEMI {
          SemiSnoc(Rest(init));
        } else {
          FieldSnoc(Rest(init), ch);
        }
      }
    }
  }

  /** `spawned_working`: the table of the chunk's records, or the first record
      whose number does not parse (where the source panics). */
  method SpawnedWorking(chunk: seq<byte>, parse: Parser) returns (r: Result<Table, ParseError>)
    ensures r == FoldRecords(TokioRecords(chunk), parse)
  {
    var results: Table := map[];
    var name: seq<byte> := [];
    var idx := 0;
    ghost var ps: seq<(Key, Value)> := [];
    for j := 0 to |chunk|
      invariant idx <= j
      invariant Run(chunk[..j], parse) == Ok(Scan(ps, name, chunk[idx..j]))
      invariant results == Tabulate(ps)
    {
      SliceSnoc(chunk, 0, j);
      SliceSnoc(chunk, idx, j);
      RunSnoc(chunk[..j], chunk[j], parse);
      assert chunk[j + 1..j + 1] == [];
      if chunk[j] == SEMI {
        name := chunk[idx..j];
        idx := j + 1;
      } else if chunk[j] == NL {
        match parse(chunk[idx..j])
        case None =>
          Abort(chunk, j + 1, parse);
          return Err(ParseError(name, chunk[idx..j]));
        case Some(number) =>
          TabulateSnoc(ps, (name, number));
          results := Insert(results, name, number);
          ps := ps + [(name, number)];
          idx := j + 1;
      } else {
        assert Feed(Scan(ps, name, chunk[idx..j]), chunk[j], parse) == Ok(Scan(ps, name, chunk[idx..j] + [chunk[j]]));
      }
    }
    assert chunk[..|chunk|] == chunk;
    RunMeaning(chunk, parse);
    return Ok(results);
  }

  /** A run that fails on the complete lines scanned so far fails the whole chunk with the same error. */
  lemma Abort(chunk: seq<byte>, j: nat, parse: Parser)
    requires 0 < j <= |chunk| && chunk[j - 1] == NL
    requires Run(chunk[..j], parse).Err?
    ensures FoldRecords(TokioRecords(chunk), parse) == Err(Run(chunk[..j], parse).error)
  {
    var seen, tail := chunk[..j], chunk[j..];
    assert chunk == seen + tail;
    RunMeaning(seen, parse);
    RecordsAfterNewline(seen, tail);
    var q := TokioRecords(seen);
    ParseErrorSticks(q, TokioRecords(chunk)[|q|..], parse);
  }

  /** The records of the lines before a newline are the first records of the
      whole chunk. */
  lemma RecordsAfterNewline(a: seq<byte>, b: seq<byte>)
    requires |a| > 0 && a[|a| - 1] == NL
    ensures |TokioRecords(a)| <= |TokioRecords(a + b)|
    ensures TokioRecords(a + b) == TokioRecords(a) + TokioRecords(a + b)[|TokioRecords(a)|..]
  {
    LinesAppend(a, b);
    LinesPrefix(Lines(a), Lines(b));
    PrefixSplit(TokioRecords(a + b), TokioRecords(a));
  }

  lemma PrefixSplit(r: seq<Record>, q: seq<Record>)
    requires |q| <= |r| && r[..|q|] == q
    ensures r == q + r[|q|..]
  {
    assert r == r[..|q|] + r[|q|..];
  }

  lemma {:induction false} LinesPrefix(ls: seq<seq<byte>>, ms: seq<seq<byte>>)
    ensures TokioLineRecords(ls + ms)[..|ls|] == TokioLineRecords(ls)
    decreases |ms|
  {
    if |ms| == 0 {
      assert ls + ms == ls;
    } else {
      var init := ms[..|ms| - 1];
      assert ls + ms == (ls + init) + [ms[|ms| - 1]];
      LinesPrefix(ls, init);
      RecordsSnoc(ls + init, ms[|ms| - 1]);
    }
  }

  /** The name carried to a line without `;` depends on where the file was
      cut: read at once, the second line of `l1\n l2\n` takes the name of
      `l1` (`a;1\n2\n` gives `2` the name `a`); cut after the first line, it
      takes the empty name. */
  lemma CutChangesName(l1: seq<byte>, l2: seq<byte>)
    requires NL !in l1 && NL !in l2 && SEMI in l1 && SEMI !in l2
    ensures TokioRecords((l1 + [NL]) + (l2 + [NL])) ==
      [Record(LineKey(l1), LastField(l1)), Record(LineKey(l1), LastField(l2))]
    ensures TokioRecords(l1 + [NL]) + TokioRecords(l2 + [NL]) ==
      [Record(LineKey(l1), LastField(l1)), Record([], LastField(l2))]
  {
    WholeChunk(l1, l2);
    CutChunks(l1, l2);
  }

  lemma CutChunks(l1: seq<byte>, l2: seq<byte>)
    requires NL !in l1 && NL !in l2 && SEMI in l1 && SEMI !in l2
    ensures TokioRecords(l1 + [NL]) + TokioRecords(l2 + [NL]) ==
      [Record(LineKey(l1), LastField(l1)), Record([], LastField(l2))]
  {
    var r1, r2 := Record(LineKey(l1), LastField(l1)), Record([], LastField(l2));
    FirstName(l1);
    FirstName(l2);
    assert [r1] + [r2] == [r1, r2];
  }

  lemma WholeChunk(l1: seq<byte>, l2: seq<byte>)
    requires NL !in l1 && NL !in l2 && SEMI in l1 && SEMI !in l2
    ensures TokioRecords((l1 + [NL]) + (l2 + [NL])) ==
      [Record(LineKey(l1), LastField(l1)), Record(LineKey(l1), LastField(l2))]
  {
    TwoLines(l1, l2);
    NameCarried(l1, l2);
  }

  lemma TwoLines(l1: seq<byte>, l2: seq<byte>)
    requires NL !in l1 && NL !in l2
    ensures Lines((l1 + [NL]) + (l2 + [NL])) == [l1, l2]
  {
    OneLine(l1);
    OneLine(l2);
    LinesAppend(l1 + [NL], l2 + [NL]);
    assert [l1] + [l2] == [l1, l2];
  }

  /** A line alone in its chunk has the empty name unless it holds a `;`. */
  lemma FirstName(l: seq<byte>)
    requires NL !in l
    ensures TokioRecords(l + [NL]) == [Record(if SEMI in l then LineKey(l) else [], LastField(l))]
  {
    OneLine(l);
    assert [l][..0] == [];
  }

  /** A line without `;` takes the name of the line before it. */
  lemma NameCarried(l1: seq<byte>, l2: seq<byte>)
    requires SEMI in l1 && SEMI !in l2
    ensures TokioLineRecords([l1, l2]) == [Record(LineKey(l1), LastField(l1)), Record(LineKey(l1), LastField(l2))]
  {
    var ls := [l1, l2];
    assert ls[..1] == [l1] && [l1][..0] == [];
    assert KeyAfter([l1]) == LineKey(l1);
    assert TokioLineRecords([l1]) == [Record(LineKey(l1), LastField(l1))];
  }

  /** The bytes after the chunk's last newline are never folded. */
  lemma PartialRecordDropped(s: seq<byte>, t: seq<byte>)
    requires NL !in t
    ensures TokioRecords(s + t) == TokioRecords(s)
  {
    NoNewlineTail(s, t);
  }

  lemma {:induction false} LastFieldNone(s: seq<byte>)
    requires SEMI !in s
    ensures LastField(s) == s
  {
    if |s| > 0 {
      LastFieldNone(s[..|s| - 1]);
      assert s == s[..|s| - 1] + [s[|s| - 1]];
    }
  }

  lemma {:induction false} BeforeLastSemiOf(k: seq<byte>, v: seq<byte>)
    requires SEMI !in v
    ensures BeforeLastSemi(k + [SEMI] + v) == k && LastField(k + [SEMI] + v) == v
    decreases |v|
  {
    if |v| == 0 {
      assert k + [SEMI] + v == k + [SEMI];
      SemiSnoc(k);
    } else {
      var init := v[..|v| - 1];
      assert k + [SEMI] + v == (k + [SEMI] + init) + [v[|v| - 1]];
      BeforeLastSemiOf(k, init);
      FieldSnoc(k + [SEMI] + init, v[|v| - 1]);
    }
  }

  lemma {:induction false} TokioLinesOfLines(recs: seq<Record>)
    requires Absent(recs, SEMI)
    ensures TokioLineRecords(RecordLines(recs)) == recs
  {
    if |recs| > 0 {
      var init, last := recs[..|recs| - 1], recs[|recs| - 1];
      assert recs == init + [last];
      var ls := RecordLines(recs);
      assert ls == RecordLines(init) + [Line(last)];
      TokioLinesOfLines(init);
      BeforeLastSemiOf(last.key, last.text);
      LastFieldNone(last.key);
      assert SEMI in Line(last) by {
        assert Line(last)[|last.key|] == SEMI;
      }
      RecordsSnoc(RecordLines(init), Line(last));
    }
  }

  /** Reading an encoded file gives back its records, provided no key or value
      holds a separator. */
  lemma TokioRoundTrip(recs: seq<Record>)
    requires Clean(recs)
    ensures TokioRecords(Encode(recs)) == recs
  {
    EncodeLines(recs);
    TokioLinesOfLines(recs);
  }
}
