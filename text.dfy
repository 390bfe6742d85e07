/** A chunk read as text: the complete, newline-terminated lines it holds and
    the partial line after its last newline. Both are defined by reading the
    chunk from its end, the order in which a left-to-right scanner has seen it. */
module Text {
  import opened Common

  /** The bytes after the last newline of `s` (the unterminated partial line). */
  function Rest(s: seq<byte>): (r: seq<byte>)
    ensures NL !in r && |r| <= |s|
  {
    if |s| == 0 then []
    else if s[|s| - 1] == NL then []
    else Rest(s[..|s| - 1]) + [s[|s| - 1]]
  }

  /** The complete lines of `s`, each without its terminating newline. */
  function Lines(s: seq<byte>): seq<seq<byte>>
  {
    if |s| == 0 then []
    else if s[|s| - 1] == NL then Lines(s[..|s| - 1]) + [Rest(s[..|s| - 1])]
    else Lines(s[..|s| - 1])
  }

  /** Lines put back together, each followed by its newline. */
  function Joined(ls: seq<seq<byte>>): seq<byte>
  {
    if |ls| == 0 then [] else Joined(ls[..|ls| - 1]) + ls[|ls| - 1] + [NL]
  }

  /** Rust's `split(|&b| b == b'\n')`: every line, then the remainder (possibly empty). */
  function Split(s: seq<byte>): (parts: seq<seq<byte>>)
    ensures |parts| > 0 && parts[|parts| - 1] == Rest(s)
  {
    Lines(s) + [Rest(s)]
  }

  /** No complete line holds a newline: the lines are the pieces between newlines. */
  lemma {:induction false} LinesHaveNoNewline(s: seq<byte>)
    ensures forall i :: 0 <= i < |Lines(s)| ==> NL !in Lines(s)[i]
  {
    if |s| > 0 {
      LinesHaveNoNewline(s[..|s| - 1]);
    }
  }

  /** The complete lines and the partial line partition the chunk. */
  lemma {:induction false} LinesPartition(s: seq<byte>)
    ensures Joined(Lines(s)) + Rest(s) == s
  {
    if |s| > 0 {
      var init, b := s[..|s| - 1], s[|s| - 1];
      LinesPartition(init);
      assert s == init + [b];
      if b == NL {
        var ls := Lines(init) + [Rest(init)];
        assert ls[..|ls| - 1] == Lines(init);
        calc {
          Joined(Lines(s)) + Rest(s);
          Joined(ls);
          Joined(Lines(init)) + Rest(init) + [NL];
          init + [NL];
        }
      } else {
        calc {
          Joined(Lines(s)) + Rest(s);
          Joined(Lines(init)) + (Rest(init) + [b]);
          (Joined(Lines(init)) + Rest(init)) + [b];
        }
      }
    }
  }

  /** Bytes that carry no newline add no complete line; they only extend the partial line. */
  lemma {:induction false} NoNewlineTail(s: seq<byte>, t: seq<byte>)
    requires NL !in t
    ensures Lines(s + t) == Lines(s) && Rest(s + t) == Rest(s) + t
    decreases |t|
  {
    if |t| == 0 {
      assert s + t == s;
    } else {
      var init := t[..|t| - 1];
      assert NL !in init by {
        forall i | 0 <= i < |init| ensures init[i] != NL { assert init[i] == t[i]; }
      }
      assert (s + t)[..|s + t| - 1] == s + init;
      assert (s + t)[|s + t| - 1] == t[|t| - 1];
      assert init + [t[|t| - 1]] == t;
      NoNewlineTail(s, init);
    }
  }

  /** After a newline the scan starts afresh: the lines of `a + b` are those of
      `a` followed by those of `b` when `a` is empty or ends in a newline. */
  lemma {:induction false} LinesAppend(a: seq<byte>, b: seq<byte>)
    requires |a| == 0 || a[|a| - 1] == NL
    ensures Lines(a + b) == Lines(a) + Lines(b) && Rest(a + b) == Rest(b)
    decreases |b|
  {
    if |b| == 0 {
      assert a + b == a;
      assert Rest(a) == [];
    } else {
      var init := b[..|b| - 1];
      assert (a + b)[..|a + b| - 1] == a + init;
      assert (a + b)[|a + b| - 1] == b[|b| - 1];
      LinesAppend(a, init);
    }
  }

  /** One byte more: a newline completes the partial line, any other byte extends it. */
  lemma LinesSnoc(s: seq<byte>, ch: byte)
    ensures ch == NL ==> Lines(s + [ch]) == Lines(s) + [Rest(s)] && Rest(s + [ch]) == []
    ensures ch != NL ==> Lines(s + [ch]) == Lines(s) && Rest(s + [ch]) == Rest(s) + [ch]
  {
    assert (s + [ch])[..|s|] == s;
  }

  /** A single newline-terminated line reads back as that one line. */
  lemma OneLine(line: seq<byte>)
    requires NL !in line
    ensures Lines(line + [NL]) == [line] && Rest(line + [NL]) == []
  {
    NoNewlineTail([], line);
    assert [] + line == line;
    LinesSnoc(line, NL);
  }
}
