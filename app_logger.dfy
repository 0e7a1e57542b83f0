/**
 * The `Logger` that the system tests hand to the website process as its standard
 * output: text arrives in chunks of any size, every complete line is cleaned and
 * logged as `app: <line>`, and the unfinished end is kept for the next chunk.
 * The same class is defined in `tests/test.py`, `test/test.py` and `test.py`.
 *
 * The lines given to `LOGGER.info` are the ghost field `emitted`; the logging call
 * itself and its `app: ` prefix are not modelled.
 */
module AppLogger {

  import Seqs

  /** The escape character `'\x1b'` that starts an ANSI control sequence. */
  const Escape: char := '\U{1B}'

  /** The characters `line.strip('\r\n\v')` removes at either end of a line. */
  const LineEnds: set<char> := {'\r', '\n', '\U{0B}'}

  /** A complete line as it is logged: stripped of line-end characters at both ends,
      then with every escape character removed. */
  function CleanLine(raw: string): (clean: string)
    ensures Escape !in clean
    ensures multiset(clean) <= multiset(raw)
    ensures Escape !in raw && (raw == [] || (raw[0] !in LineEnds && raw[|raw| - 1] !in LineEnds)) ==> clean == raw
  {
    var stripped := Seqs.Strip(raw, LineEnds);
    assert multiset(stripped) <= multiset(raw) by {
      StripKeepsElements(raw, LineEnds);
    }
    assert Escape !in raw && (raw == [] || (raw[0] !in LineEnds && raw[|raw| - 1] !in LineEnds)) ==>
           Seqs.RemoveAll(stripped, Escape) == raw by {
      if Escape !in raw && (raw == [] || (raw[0] !in LineEnds && raw[|raw| - 1] !in LineEnds)) {
        StripNothing(raw, LineEnds);
        RemoveAbsent(raw, Escape);
      }
    }
    Seqs.RemoveAll(stripped, Escape)
  }

  /** Every line of a list cleaned, in order. */
  function CleanLines(lines: seq<string>): (clean: seq<string>)
    ensures |clean| == |lines|
    ensures forall k :: 0 <= k < |clean| ==> Escape !in clean[k]
  {
    seq(|lines|, k requires 0 <= k < |lines| => CleanLine(lines[k]))
  }

  /** The lines logged while writing `text` to an empty logger: every piece before a
      line feed, cleaned. */
  function Completed(text: string): seq<string>
  {
    var pieces := Seqs.Split(text, '\n');
    CleanLines(pieces[..|pieces| - 1])
  }

  /** What the logger keeps after `text`: what follows the last line feed. */
  function Pending(text: string): string
  {
    Seqs.LastPiece(text, '\n')
  }

  class Logger {

    /** `self._data`: the unfinished line carried over to the next `write`. */
    var data: string
    /** The lines given to `LOGGER.info`, oldest first. */
    ghost var emitted: seq<string>

    /** `Logger()`: nothing carried over, nothing logged. */
    constructor()
      ensures data == [] && emitted == []
    {
      data := [];
      emitted := [];
    }

    /** `write(data)`: the carried-over text and the new chunk are read character by
        character; each line feed ends a line, which is cleaned and logged, and what
        follows the last line feed is carried over. */
    method Write(chunk: string)
      modifies this
      ensures data == Pending(old(data) + chunk)
      ensures emitted == old(emitted) + Completed(old(data) + chunk)
      ensures '\n' !in data
    {
      var text := data + chunk;
      var line := "";
      ghost var logged: seq<string> := [];
      for i := 0 to |text|
        invariant line == Pending(text[..i])
        invariant logged == Completed(text[..i])
        invariant emitted == old(emitted)
      {
        if text[i] == '\n' {
          StepNewline(text, i);
          var cleaned := Seqs.Strip(line, LineEnds);
          cleaned := Seqs.RemoveAll(cleaned, Escape);
          logged := logged + [cleaned];
          line := "";
        } else {
          StepChar(text, i);
          line := line + [text[i]];
        }
      }
      assert text[..|text|] == text;
      PendingHasNoLineFeed(text);
      data := line;
      emitted := emitted + logged;
    }

    /** `flush()`: does nothing. */
    method Flush()
      ensures data == old(data) && emitted == old(emitted)
    {
    }
  }

  /** Stripping keeps a sub-multiset of the elements. */
  lemma StripKeepsElements<T>(s: seq<T>, chars: set<T>)
    ensures multiset(Seqs.Strip(s, chars)) <= multiset(s)
  {
    var left, r := Seqs.StripLeft(s, chars), Seqs.Strip(s, chars);
    assert multiset(left) <= multiset(s) by {
      SuffixElements(s, |s| - |left|);
    }
    assert multiset(r) <= multiset(left) by {
      assert r == left[..|r|];
      PrefixElements(left, |r|);
    }
  }

  lemma SuffixElements<T>(s: seq<T>, k: nat)
    requires k <= |s|
    ensures multiset(s[k..]) <= multiset(s)
  {
    assert s == s[..k] + s[k..];
  }

  lemma PrefixElements<T>(s: seq<T>, k: nat)
    requires k <= |s|
    ensures multiset(s[..k]) <= multiset(s)
  {
    assert s == s[..k] + s[k..];
  }

  /** Removing an element that does not occur changes nothing. */
  lemma {:induction false} RemoveAbsent<T>(s: seq<T>, x: T)
    requires x !in s
    ensures Seqs.RemoveAll(s, x) == s
  {
    if s != [] {
      RemoveAbsent(s[1..], x);
    }
  }

  /** A sequence that neither starts nor ends with a stripped element is left as it is. */
  lemma StripNothing<T>(s: seq<T>, chars: set<T>)
    requires s == [] || (s[0] !in chars && s[|s| - 1] !in chars)
    ensures Seqs.Strip(s, chars) == s
  {
    var left := Seqs.StripLeft(s, chars);
    if s != [] {
      assert |left| == |s|;
    }
  }

  /** Reading a line feed logs the cleaned pending line and empties it. */
  lemma StepNewline(text: string, i: nat)
    requires i < |text| && text[i] == '\n'
    ensures Pending(text[..i + 1]) == []
    ensures Completed(text[..i + 1]) == Completed(text[..i]) + [CleanLine(Pending(text[..i]))]
  {
    var pieces := Seqs.Split(text[..i], '\n');
    assert text[..i + 1] == text[..i] + ['\n'];
    Seqs.SplitSnoc(text[..i], '\n', '\n');
    CleanLinesSnoc(pieces[..|pieces| - 1], pieces[|pieces| - 1]);
    assert pieces[..|pieces| - 1] + [pieces[|pieces| - 1]] == pieces;
  }

  /** Reading any other character extends the pending line and logs nothing. */
  lemma StepChar(text: string, i: nat)
    requires i < |text| && text[i] != '\n'
    ensures Pending(text[..i + 1]) == Pending(text[..i]) + [text[i]]
    ensures Completed(text[..i + 1]) == Completed(text[..i])
  {
    var pieces := Seqs.Split(text[..i], '\n');
    assert text[..i + 1] == text[..i] + [text[i]];
    Seqs.SplitSnoc(text[..i], text[i], '\n');
    var next := Seqs.Split(text[..i + 1], '\n');
    assert next[..|next| - 1] == pieces[..|pieces| - 1];
  }

  /** Cleaning one more line appends it cleaned. */
  lemma CleanLinesSnoc(lines: seq<string>, line: string)
    ensures CleanLines(lines + [line]) == CleanLines(lines) + [CleanLine(line)]
  {
  }

  /** Cleaning two lists one after the other. */
  lemma CleanLinesAppend(a: seq<string>, b: seq<string>)
    ensures CleanLines(a + b) == CleanLines(a) + CleanLines(b)
  {
    var left, right := CleanLines(a + b), CleanLines(a) + CleanLines(b);
    assert |left| == |right|;
    forall k | 0 <= k < |left|
      ensures left[k] == right[k]
    {
      if k < |a| {
        assert (a + b)[k] == a[k];
      } else {
        assert (a + b)[k] == b[k - |a|];
      }
    }
  }

  /** One line is logged per line feed written. */
  lemma CompletedCount(text: string)
    ensures |Completed(text)| == multiset(text)['\n']
  {
    Seqs.SplitCount(text, '\n');
  }

  /** The pending text holds no line feed. */
  lemma PendingHasNoLineFeed(text: string)
    ensures '\n' !in Pending(text)
  {
    Seqs.SplitPiecesHaveNoSeparator(text, '\n');
  }

  /** The pending text is the end of what was written, and unless nothing was logged it
      follows the last line feed. */
  lemma PendingIsLastLine(text: string)
    ensures var p := Pending(text);
            |p| <= |text| && text == text[..|text| - |p|] + p &&
            ('\n' in text ==> |p| < |text| && text[|text| - |p| - 1] == '\n')
  {
    var pieces := Seqs.Split(text, '\n');
    var p := pieces[|pieces| - 1];
    Seqs.JoinSplit(text, '\n');
    if |pieces| == 1 {
      Seqs.SplitPiecesHaveNoSeparator(text, '\n');
      assert text == p;
      assert text[..0] + p == text;
    } else {
      var before := Seqs.Join(pieces[..|pieces| - 1], '\n') + ['\n'];
      assert text == before + p;
      assert text[..|text| - |p|] == before;
    }
  }

  /** A chunk without a line feed, written after carried-over text without one, logs
      nothing and is only appended to what is carried over. */
  lemma NoNewlineOnlyBuffers(data: string, chunk: string)
    requires '\n' !in data && '\n' !in chunk
    ensures Completed(data + chunk) == [] && Pending(data + chunk) == data + chunk
  {
    Seqs.SplitNoSeparator(data + chunk, '\n');
  }

  /** How the text is cut into chunks does not matter: writing `x` then `y` logs what
      writing `x + y` at once logs, and keeps the same pending text. */
  lemma ChunkingInvariance(x: string, y: string)
    ensures Completed(x + y) == Completed(x) + Completed(Pending(x) + y)
    ensures Pending(x + y) == Pending(Pending(x) + y)
  {
    var A := Seqs.Split(x, '\n');
    var front, Q := A[..|A| - 1], Seqs.Split(Pending(x) + y, '\n');
    assert Seqs.Split(x + y, '\n') == front + Q by {
      SplitAfterPending(x, y);
    }
    assert (front + Q)[..|front + Q| - 1] == front + Q[..|Q| - 1];
    CleanLinesAppend(front, Q[..|Q| - 1]);
  }

  /** The pieces of `x + y`: the complete lines of `x`, then the pieces of the pending
      text of `x` followed by `y`. */
  lemma SplitAfterPending(x: string, y: string)
    ensures var A := Seqs.Split(x, '\n');
            Seqs.Split(x + y, '\n') == A[..|A| - 1] + Seqs.Split(Pending(x) + y, '\n')
  {
    var A, B := Seqs.Split(x, '\n'), Seqs.Split(y, '\n');
    var p := Pending(x);
    SplitGluesPending(x, y);
    SplitOfPendingThen(x, y);
    Seqs.Regroup(A[..|A| - 1], [p + B[0]], B[1..]);
  }

  /** The pieces of `x + y`: the last piece of `x` is glued to the first one of `y`. */
  lemma SplitGluesPending(x: string, y: string)
    ensures var A, B := Seqs.Split(x, '\n'), Seqs.Split(y, '\n');
            Seqs.Split(x + y, '\n') == A[..|A| - 1] + [Pending(x) + B[0]] + B[1..]
  {
    Seqs.SplitAppend(x, y, '\n');
  }

  /** The pending text of `x` followed by `y` splits like `y`, its first piece extended. */
  lemma SplitOfPendingThen(x: string, y: string)
    ensures var B := Seqs.Split(y, '\n');
            Seqs.Split(Pending(x) + y, '\n') == [Pending(x) + B[0]] + B[1..]
  {
    var p := Pending(x);
    PendingHasNoLineFeed(x);
    Seqs.SplitNoSeparator(p, '\n');
    Seqs.SplitAppend(p, y, '\n');
    assert [p][..0] == [];
  }


  /** Two writes leave a logger as one write of both chunks does. */
  lemma WritesCompose(data: string, x: string, y: string)
    ensures Pending(Pending(data + x) + y) == Pending(data + x + y)
    ensures Completed(data + x) + Completed(Pending(data + x) + y) == Completed(data + x + y)
  {
    ChunkingInvariance(data + x, y);
  }

  /** The escape is removed only after stripping: a carriage return that an escape
      character kept from the end of the line stays in the logged line. */
  lemma CarriageReturnBeforeEscapeSurvives(s: string)
    requires s != [] && s[0] !in LineEnds && Escape !in s
    ensures CleanLine(s + ['\r', Escape]) == s + ['\r']
  {
    var raw := s + ['\r', Escape];
    assert CleanLine(raw) == Seqs.RemoveAll(raw, Escape) by {
      assert raw[0] == s[0] && raw[|raw| - 1] == Escape;
      CleanUnstripped(raw);
    }
    assert Seqs.RemoveAll(raw, Escape) == s + ['\r'] by {
      RemoveAllAppend(s, ['\r', Escape], Escape);
      RemoveAbsent(s, Escape);
      RemoveEscapeAfterCR();
    }
  }

  /** A line that neither starts nor ends with a line-end character only loses its
      escape characters. */
  lemma CleanUnstripped(raw: string)
    requires raw != [] && raw[0] !in LineEnds && raw[|raw| - 1] !in LineEnds
    ensures CleanLine(raw) == Seqs.RemoveAll(raw, Escape)
  {
    StripNothing(raw, LineEnds);
  }

  lemma RemoveEscapeAfterCR()
    ensures Seqs.RemoveAll(['\r', Escape], Escape) == ['\r']
  {
    var tail: string := [Escape];
    assert Seqs.RemoveAll(tail, Escape) == Seqs.RemoveAll(tail[1..], Escape) == [];
    assert ['\r', Escape][1..] == tail;
    assert Seqs.RemoveAll(['\r', Escape], Escape) == ['\r'] + Seqs.RemoveAll(tail, Escape);
  }

  /** Removing from a concatenation removes from each part. */
  lemma {:induction false} RemoveAllAppend<T>(a: seq<T>, b: seq<T>, x: T)
    ensures Seqs.RemoveAll(a + b, x) == Seqs.RemoveAll(a, x) + Seqs.RemoveAll(b, x)
    decreases |a|
  {
    if a == [] {
      assert a + b == b;
    } else {
      assert (a + b)[1..] == a[1..] + b;
      RemoveAllAppend(a[1..], b, x);
    }
  }
}
