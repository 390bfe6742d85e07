/** The input format the workers read: one `key;value` line per record, each
    ended by a newline. */
module Encoding {
  import opened Common
  import opened Text
  import opened Records

  /** A record as one line of the input file, without its newline. */
  function Line(rec: Record): seq<byte>
  {
    rec.key + [SEMI] + rec.text
  }

  /** The bytes of a file holding `recs`, in order. */
  function Encode(recs: seq<Record>): (s: seq<byte>)
    ensures |s| == 0 || s[|s| - 1] == NL
  {
    if |recs| == 0 then [] else Encode(recs[..|recs| - 1]) + Line(recs[|recs| - 1]) + [NL]
  }

  /** The lines of `recs`, one per record. */
  function RecordLines(recs: seq<Record>): (ls: seq<seq<byte>>)
    ensures |ls| == |recs| && forall i :: 0 <= i < |recs| ==> ls[i] == Line(recs[i])
  {
    if |recs| == 0 then [] else RecordLines(recs[..|recs| - 1]) + [Line(recs[|recs| - 1])]
  }

  /** `b` occurs in no key and no value text. */
  predicate Absent(recs: seq<Record>, b: byte)
  {
    |recs| == 0 ||
    (Absent(recs[..|recs| - 1], b) && b !in recs[|recs| - 1].key && b !in recs[|recs| - 1].text)
  }

  /** Records the format can carry: no key or value holds a separator. */
  predicate Clean(recs: seq<Record>)
  {
    Absent(recs, NL) && Absent(recs, SEMI)
  }

  /** The complete lines of an encoded file are the records' lines, and nothing is left over. */
  lemma {:induction false} EncodeLines(recs: seq<Record>)
    requires Absent(recs, NL)
    ensures Lines(Encode(recs)) == RecordLines(recs) && Rest(Encode(recs)) == []
  {
    if |recs| > 0 {
      var init, last := recs[..|recs| - 1], recs[|recs| - 1];
      EncodeLines(init);
      var line := Line(last);
      assert NL !in line;
      OneLine(line);
      LinesAppend(Encode(init), line + [NL]);
      assert Encode(recs) == Encode(init) + (line + [NL]);
    }
  }

  /** A byte absent from every record is absent from the encoding, unless it is one of the separators. */
  lemma {:induction false} EncodeAvoids(recs: seq<Record>, b: byte)
    requires Absent(recs, b) && b != NL && b != SEMI
    ensures b !in Encode(recs)
  {
    if |recs| > 0 {
      EncodeAvoids(recs[..|recs| - 1], b);
    }
  }

  /** An encoded file does not start with a newline. */
  lemma {:induction false} EncodeStart(recs: seq<Record>)
    requires Absent(recs, NL)
    ensures |Encode(recs)| == 0 || Encode(recs)[0] != NL
  {
    if |recs| > 0 {
      var init := recs[..|recs| - 1];
      EncodeStart(init);
      if |init| == 0 {
        var last := recs[|recs| - 1];
        assert Encode(recs) == Line(last) + [NL];
        if |last.key| > 0 {
          assert Encode(recs)[0] == last.key[0];
        }
      }
    }
  }
}
