/**
 * The carriage-return collapse that `create_html_log` applies to a build log before
 * handing it to the ANSI-to-HTML converter: every line of the log is replaced by what
 * follows its last carriage return, which is what a terminal shows after a progress
 * bar or spinner has redrawn the line in place.
 */
module HtmlLog {

  import opened Utf8
  import Seqs

  /** Python's `line.rfind(x)`: the index of the last `x` in `line`, or -1 when there is none. */
  function RFind(line: Bytes, x: byte): (i: int)
    ensures -1 <= i < |line|
    ensures i == -1 <==> x !in line
    ensures i >= 0 ==> line[i] == x && forall j :: i < j < |line| ==> line[j] != x
    decreases |line|
  {
    if line == [] then -1
    else if line[|line| - 1] == x then |line| - 1
    else
      var init := line[..|line| - 1];
      assert forall j :: 0 <= j < |init| ==> init[j] == line[j];
      RFind(init, x)
  }

  /** `line[line.rfind(b'\r') + 1:]`: the part of a line after its last carriage return,
      all of it when there is none. */
  function AfterLastCR(line: Bytes): (shown: Bytes)
    ensures CR !in shown
    ensures CR !in line ==> shown == line
    ensures multiset(shown) <= multiset(line)
  {
    var i := RFind(line, CR);
    assert line == line[..i + 1] + line[i + 1..];
    line[i + 1..]
  }

  /** What is shown is the end of the line, and unless the line holds no CR at all,
      the byte just before it is the CR that cut it off. */
  lemma AfterLastCRIsLastSegment(line: Bytes)
    ensures var shown := AfterLastCR(line);
            |shown| <= |line| && line == line[..|line| - |shown|] + shown &&
            (CR in line ==> line[|line| - |shown| - 1] == CR)
  {
  }

  /** Every line of a list collapsed, in order. */
  function CollapseLines(lines: seq<Bytes>): (shown: seq<Bytes>)
  {
    seq(|lines|, k requires 0 <= k < |lines| => AfterLastCR(lines[k]))
  }

  /** The log as `create_html_log` has it before conversion to HTML. */
  function CollapsedLog(log: Bytes): Bytes
  {
    Seqs.Join(CollapseLines(Seqs.Split(log, LF)), LF)
  }

  /** The loop of `create_html_log`: split on LF, keep the part of each line after its
      last CR, join again with LF. */
  method CollapseCarriageReturns(log: Bytes) returns (collapsed: Bytes)
    ensures collapsed == CollapsedLog(log)
  {
    var lines: seq<Bytes> := [];
    var pieces := Seqs.Split(log, LF);
    for i := 0 to |pieces|
      invariant lines == CollapseLines(pieces[..i])
    {
      CollapsePrefixStep(pieces, i);
      lines := lines + [AfterLastCR(pieces[i])];
    }
    assert pieces[..|pieces|] == pieces;
    collapsed := Seqs.Join(lines, LF);
  }

  /** `create_html_log(log)`: the collapsed log handed to the ANSI-to-HTML converter.
      The converter, together with the UTF-8 decoding before it, is the parameter
      `toHtml`. */
  method CreateHtmlLog(log: Bytes, toHtml: Bytes -> string) returns (html: string)
    ensures html == toHtml(CollapsedLog(log))
  {
    var collapsed := CollapseCarriageReturns(log);
    html := toHtml(collapsed);
  }

  /** Collapsing one more line of a prefix appends that line's collapsed form. */
  lemma CollapsePrefixStep(pieces: seq<Bytes>, i: nat)
    requires i < |pieces|
    ensures CollapseLines(pieces[..i + 1]) == CollapseLines(pieces[..i]) + [AfterLastCR(pieces[i])]
  {
    assert pieces[..i + 1][..i] == pieces[..i];
  }

  /** The collapse keeps the number of lines, and line `k` of the result is what follows
      the last CR of line `k` of the input. */
  lemma CollapsedLines(log: Bytes)
    ensures Seqs.Split(CollapsedLog(log), LF) == CollapseLines(Seqs.Split(log, LF))
    ensures |Seqs.Split(CollapsedLog(log), LF)| == |Seqs.Split(log, LF)|
  {
    var lines := CollapseLines(Seqs.Split(log, LF));
    Seqs.SplitPiecesHaveNoSeparator(log, LF);
    forall k | 0 <= k < |lines|
      ensures LF !in lines[k]
    {
      var line := Seqs.Split(log, LF)[k];
      assert multiset(lines[k])[LF] <= multiset(line)[LF] == 0;
    }
    Seqs.SplitJoin(lines, LF);
  }

  /** No carriage return survives the collapse. */
  lemma CollapsedHasNoCR(log: Bytes)
    ensures CR !in CollapsedLog(log)
  {
    Seqs.JoinNotIn(CollapseLines(Seqs.Split(log, LF)), LF, CR);
  }

  /** Collapsing a collapsed log changes nothing. */
  lemma CollapseIdempotent(log: Bytes)
    ensures CollapsedLog(CollapsedLog(log)) == CollapsedLog(log)
  {
    var once := CollapsedLog(log);
    CollapsedHasNoCR(log);
    CollapseLinesWithoutCR(Seqs.Split(once, LF), once);
    Seqs.JoinSplit(once, LF);
  }

  /** Lines of a text without CR are left as they are. */
  lemma CollapseLinesWithoutCR(lines: seq<Bytes>, whole: Bytes)
    requires CR !in whole
    requires lines == Seqs.Split(whole, LF)
    ensures CollapseLines(lines) == lines
  {
    Seqs.SplitPiecesAvoid(whole, LF, CR);
  }

  /** Text that has no CR and ends a line passes through the collapse untouched, and
      the rest of the log is collapsed as if it stood alone. */
  lemma CollapseKeepsCleanLines(a: Bytes, b: Bytes)
    requires CR !in a
    requires |a| > 0 && a[|a| - 1] == LF
    ensures CollapsedLog(a + b) == a + CollapsedLog(b)
  {
    var init := a[..|a| - 1];
    assert a == init + [LF];
    assert a + b == init + [LF] + b;
    Seqs.SplitAppendSeparator(init, b, LF);
    var A, B := Seqs.Split(init, LF), Seqs.Split(b, LF);
    CollapseLinesWithoutCR(A, init);
    CollapseLinesAppend(A, B);
    Seqs.JoinAppend(A, CollapseLines(B), LF);
    Seqs.JoinSplit(init, LF);
  }

  /** Collapsing two lists of lines one after the other. */
  lemma {:induction false} CollapseLinesAppend(a: seq<Bytes>, b: seq<Bytes>)
    ensures CollapseLines(a + b) == CollapseLines(a) + CollapseLines(b)
    decreases |b|
  {
    if b == [] {
      assert a + b == a;
    } else {
      var init := b[..|b| - 1];
      assert (a + b)[..|a + b| - 1] == a + init;
      assert (a + b)[|a + b| - 1] == b[|b| - 1];
      CollapseLinesAppend(a, init);
    }
  }
}
