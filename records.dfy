/** Records and per-key tables. A record is a key and its value text; a table
    maps each key to its statistics. `ParseRecords` converts value texts with
    the number parser and stops at the first failure (the source panics there);
    `Tabulate` folds parsed records into a table; `MergeTables` is the reducer's
    entry-by-entry merge of a local table into the global one. */
module Records {
  import opened Common
  import opened Stats

  type Key = seq<byte>

  type Table = map<Key, Stats>

  /** `str::parse::<f64>`, a partial function from text to a value. */
  type Parser = seq<byte> -> Option<Value>

  datatype Record = Record(key: Key, text: seq<byte>)

  /** The record whose value text did not parse. */
  datatype ParseError = ParseError(key: Key, text: seq<byte>)

  /** The entry of `k`, or the identity entry `or_insert` would create. */
  function Lookup(t: Table, k: Key): Stats
  {
    if k in t then t[k] else Identity
  }

  /** Folding the value `v` into the entry of key `k`. */
  function Insert(t: Table, k: Key, v: Value): Table
  {
    t[k := Add(Lookup(t, k), v)]
  }

  /** Every record's value text parsed, in order; the first record whose text
      does not parse is the error. */
  function ParseRecords(recs: seq<Record>, parse: Parser): (r: Result<seq<(Key, Value)>, ParseError>)
    ensures r.Ok? ==> |r.value| == |recs|
  {
    if |recs| == 0 then Ok([])
    else
      var init, last := recs[..|recs| - 1], recs[|recs| - 1];
      match ParseRecords(init, parse)
      case Err(e) => Err(e)
      case Ok(ps) =>
        match parse(last.text)
        case None => Err(ParseError(last.key, last.text))
        case Some(v) => Ok(ps + [(last.key, v)])
  }

  /** Parsing succeeds exactly when every value text parses, and then pairs
      each key with its value in order; otherwise the error is the first
      record whose text does not parse. */
  lemma {:induction false} ParseRecordsMeaning(recs: seq<Record>, parse: Parser)
    ensures ParseRecords(recs, parse).Ok? <==> forall i :: 0 <= i < |recs| ==> parse(recs[i].text).Some?
    ensures ParseRecords(recs, parse).Ok? ==> forall i :: 0 <= i < |recs| ==>
      parse(recs[i].text).Some? && ParseRecords(recs, parse).value[i] == (recs[i].key, parse(recs[i].text).value)
    ensures ParseRecords(recs, parse).Err? ==> exists i :: (0 <= i < |recs| && parse(recs[i].text).None? &&
      ParseRecords(recs, parse).error == ParseError(recs[i].key, recs[i].text) &&
      forall j :: 0 <= j < i ==> parse(recs[j].text).Some?)
  {
    if |recs| > 0 {
      ParseRecordsMeaning(recs[..|recs| - 1], parse);
    }
  }

  /** The keys that occur in `ps`. */
  function KeysOf(ps: seq<(Key, Value)>): set<Key>
  {
    if |ps| == 0 then {} else KeysOf(ps[..|ps| - 1]) + {ps[|ps| - 1].0}
  }

  /** The values recorded for key `k`, in order. */
  function ValuesOf(ps: seq<(Key, Value)>, k: Key): seq<Value>
  {
    if |ps| == 0 then []
    else if ps[|ps| - 1].0 == k then ValuesOf(ps[..|ps| - 1], k) + [ps[|ps| - 1].1]
    else ValuesOf(ps[..|ps| - 1], k)
  }

  lemma {:induction false} ValuesOfAbsent(ps: seq<(Key, Value)>, k: Key)
    requires k !in KeysOf(ps)
    ensures ValuesOf(ps, k) == []
  {
    if |ps| > 0 {
      ValuesOfAbsent(ps[..|ps| - 1], k);
    }
  }

  lemma {:induction false} ValuesOfAppend(ps: seq<(Key, Value)>, qs: seq<(Key, Value)>, k: Key)
    ensures ValuesOf(ps + qs, k) == ValuesOf(ps, k) + ValuesOf(qs, k)
    decreases |qs|
  {
    if |qs| == 0 {
      assert ps + qs == ps;
    } else {
      var init := qs[..|qs| - 1];
      assert (ps + qs)[..|ps + qs| - 1] == ps + init;
      assert (ps + qs)[|ps + qs| - 1] == qs[|qs| - 1];
      ValuesOfAppend(ps, init, k);
    }
  }

  lemma {:induction false} KeysOfAppend(ps: seq<(Key, Value)>, qs: seq<(Key, Value)>)
    ensures KeysOf(ps + qs) == KeysOf(ps) + KeysOf(qs)
    decreases |qs|
  {
    if |qs| == 0 {
      assert ps + qs == ps;
    } else {
      var init := qs[..|qs| - 1];
      assert (ps + qs)[..|ps + qs| - 1] == ps + init;
      assert (ps + qs)[|ps + qs| - 1] == qs[|qs| - 1];
      KeysOfAppend(ps, init);
    }
  }

  /** The table of parsed records: exactly the keys that occur, each mapped to
      the summary of that key's values. */
  function Tabulate(ps: seq<(Key, Value)>): Table
  {
    if |ps| == 0 then map[]
    else Insert(Tabulate(ps[..|ps| - 1]), ps[|ps| - 1].0, ps[|ps| - 1].1)
  }

  /** `t` is the table of `ps`: exactly the keys that occur, each mapped to
      the summary of that key's values. */
  ghost predicate Tabulates(t: Table, ps: seq<(Key, Value)>)
  {
    t.Keys == KeysOf(ps) && forall k :: k in t ==> t[k] == Summary(ValuesOf(ps, k))
  }

  /** The table of parsed records holds exactly the keys that occur, each
      mapped to the summary of that key's values. */
  lemma {:induction false} TabulateMeaning(ps: seq<(Key, Value)>)
    ensures Tabulates(Tabulate(ps), ps)
  {
    if |ps| > 0 {
      TabulateMeaning(ps[..|ps| - 1]);
      TabulateStep(ps);
    }
  }

  /** One more record: if the table of all records but the last is right, so is the table of all. */
  lemma TabulateStep(ps: seq<(Key, Value)>)
    requires |ps| > 0 && Tabulates(Tabulate(ps[..|ps| - 1]), ps[..|ps| - 1])
    ensures Tabulates(Tabulate(ps), ps)
  {
    var init := ps[..|ps| - 1];
    forall k | k in Tabulate(ps) ensures Tabulate(ps)[k] == Summary(ValuesOf(ps, k)) {
      if k !in Tabulate(init) { ValuesOfAbsent(init, k); }
      TabulateStepAt(ps, k);
    }
  }

  lemma TabulateStepAt(ps: seq<(Key, Value)>, k: Key)
    requires |ps| > 0 && k in Tabulate(ps)
    requires Lookup(Tabulate(ps[..|ps| - 1]), k) == Summary(ValuesOf(ps[..|ps| - 1], k))
    ensures Tabulate(ps)[k] == Summary(ValuesOf(ps, k))
  {
    var init, p := ps[..|ps| - 1], ps[|ps| - 1];
    if k == p.0 {
      SummarySnoc(ValuesOf(init, k), p.1);
    }
  }

  lemma ParseSnoc(recs: seq<Record>, rec: Record, parse: Parser)
    ensures ParseRecords(recs + [rec], parse) ==
      match ParseRecords(recs, parse)
      case Err(e) => Err(e)
      case Ok(ps) =>
        match parse(rec.text)
        case None => Err(ParseError(rec.key, rec.text))
        case Some(v) => Ok(ps + [(rec.key, v)])
  {
    assert (recs + [rec])[..|recs|] == recs;
  }

  /** Once a record fails to parse, later records do not change the error. */
  lemma {:induction false} ParseErrorSticks(recs: seq<Record>, more: seq<Record>, parse: Parser)
    requires ParseRecords(recs, parse).Err?
    ensures ParseRecords(recs + more, parse) == ParseRecords(recs, parse)
    decreases |more|
  {
    if |more| == 0 {
      assert recs + more == recs;
    } else {
      var init, last := more[..|more| - 1], more[|more| - 1];
      ParseErrorSticks(recs, init, parse);
      assert recs + more == (recs + init) + [last];
      ParseSnoc(recs + init, last, parse);
    }
  }

  lemma TabulateSnoc(ps: seq<(Key, Value)>, p: (Key, Value))
    ensures Tabulate(ps + [p]) == Insert(Tabulate(ps), p.0, p.1)
  {
    assert (ps + [p])[..|ps|] == ps;
  }

  /** Parse the records, then fold them into a fresh table. */
  function FoldRecords(recs: seq<Record>, parse: Parser): Result<Table, ParseError>
  {
    match ParseRecords(recs, parse)
    case Err(e) => Err(e)
    case Ok(ps) => Ok(Tabulate(ps))
  }

  /** The reducer's merge of the incoming table `l` into the global table `g`:
      an incoming key's entry is merged into the global entry (the identity
      entry for a key not seen before); global keys absent from `l` keep their entry. */
  function MergeTables(g: Table, l: Table): (r: Table)
    ensures r.Keys == g.Keys + l.Keys
    ensures forall k :: k in l ==> r[k] == Merge(Lookup(g, k), l[k])
    ensures forall k :: k in g && k !in l ==> r[k] == g[k]
  {
    map k | k in g.Keys + l.Keys :: if k in l then Merge(Lookup(g, k), l[k]) else g[k]
  }

  /** Merging the tables of two groups of records equals tabulating all the
      records at once, however the parsed records are grouped into tables. */
  lemma MergeTabulated(ps: seq<(Key, Value)>, qs: seq<(Key, Value)>)
    ensures MergeTables(Tabulate(ps), Tabulate(qs)) == Tabulate(ps + qs)
  {
    var l, r := MergeTables(Tabulate(ps), Tabulate(qs)), Tabulate(ps + qs);
    assert l.Keys == r.Keys by {
      TabulateMeaning(ps);
      TabulateMeaning(qs);
      TabulateMeaning(ps + qs);
      KeysOfAppend(ps, qs);
    }
    forall k | k in r ensures l[k] == r[k] {
      MergeTabulatedAt(ps, qs, k);
    }
  }

  lemma MergeTabulatedAt(ps: seq<(Key, Value)>, qs: seq<(Key, Value)>, k: Key)
    requires k in Tabulate(ps + qs)
    ensures k in MergeTables(Tabulate(ps), Tabulate(qs))
    ensures MergeTables(Tabulate(ps), Tabulate(qs))[k] == Tabulate(ps + qs)[k]
  {
    TabulateMeaning(ps);
    TabulateMeaning(qs);
    TabulateMeaning(ps + qs);
    KeysOfAppend(ps, qs);
    ValuesOfAppend(ps, qs, k);
    var vp, vq := ValuesOf(ps, k), ValuesOf(qs, k);
    if k !in KeysOf(ps) { ValuesOfAbsent(ps, k); }
    if k !in KeysOf(qs) {
      ValuesOfAbsent(qs, k);
      assert vp + vq == vp;
    } else {
      MergeSummaries(vp, vq);
    }
  }

  /** What a per-chunk parser promises once it is shown to compute
      `FoldRecords`: it fails exactly when some value text does not parse,
      reporting the first such record; otherwise its table holds exactly the
      records' keys, each with the summary of that key's values. */
  lemma FoldRecordsMeaning(recs: seq<Record>, parse: Parser)
    ensures FoldRecords(recs, parse).Err? <==> exists i :: 0 <= i < |recs| && parse(recs[i].text).None?
    ensures FoldRecords(recs, parse).Err? ==> exists i :: (0 <= i < |recs| && parse(recs[i].text).None? &&
      FoldRecords(recs, parse).error == ParseError(recs[i].key, recs[i].text) &&
      forall j :: 0 <= j < i ==> parse(recs[j].text).Some?)
    ensures FoldRecords(recs, parse).Ok? ==>
      ParseRecords(recs, parse).Ok? && Tabulates(FoldRecords(recs, parse).value, ParseRecords(recs, parse).value)
  {
    ParseRecordsMeaning(recs, parse);
    if ParseRecords(recs, parse).Ok? {
      TabulateMeaning(ParseRecords(recs, parse).value);
    }
  }
}
