/**
 * `create_log_header`: the text that opens every build log. The date, the `uname`
 * fields, the output of `mys --version` and the package's `package.toml` are read
 * from the machine; here they are the fields of an `Environment` value.
 */
module LogHeader {

  import Seqs

  /** What `create_log_header` reads: `time.ctime()`, the six `platform.uname()` fields,
      the standard output of `mys --version` and the text of `package.toml`. */
  datatype Environment = Environment(
    ctime: string,
    system: string,
    node: string,
    release: string,
    version: string,
    machine: string,
    processor: string,
    mysVersionOutput: string,
    packageToml: string)

  /** The characters Python's `str.strip()` removes when given no argument
      (those for which `str.isspace()` holds). */
  const Whitespace: set<char> :=
    {' ', '\t', '\n', '\U{0B}', '\U{0C}', '\r', '\U{1C}', '\U{1D}', '\U{1E}', '\U{1F}',
     '\U{85}', '\U{A0}', '\U{1680}', '\U{2000}', '\U{2001}', '\U{2002}', '\U{2003}',
     '\U{2004}', '\U{2005}', '\U{2006}', '\U{2007}', '\U{2008}', '\U{2009}', '\U{200A}',
     '\U{2028}', '\U{2029}', '\U{202F}', '\U{205F}', '\U{3000}'}

  /** The labels of the first nine header lines, padded to twelve columns; the last
      one, `Configuration:`, stands alone on its line. */
  const Labels: seq<string> :=
    ["Date:       ", "System:     ", "Node:       ", "Release:    ", "Version:    ",
     "Machine:    ", "Processor:  ", "MysVersion: ", "Configuration:"]

  /** What follows each label: the date, the `uname` fields, the stripped output of
      `mys --version`, and nothing after `Configuration:`. */
  function Fields(env: Environment): (fields: seq<string>)
    ensures |fields| == |Labels|
  {
    [env.ctime, env.system, env.node, env.release, env.version, env.machine,
     env.processor, Seqs.Strip(env.mysVersionOutput, Whitespace), ""]
  }

  /** Each label followed by its field, as the f-strings of `create_log_header` put them. */
  function Labelled(labels: seq<string>, fields: seq<string>): (lines: seq<string>)
    requires |labels| == |fields|
    ensures |lines| == |labels|
    ensures forall k :: 0 <= k < |lines| ==> lines[k] == labels[k] + fields[k]
  {
    seq(|labels|, k requires 0 <= k < |labels| => labels[k] + fields[k])
  }

  /** The nine labelled lines of the header. */
  function LabelledLines(env: Environment): (lines: seq<string>)
    ensures |lines| == |Labels|
  {
    Labelled(Labels, Fields(env))
  }

  /** The `header` list: the labelled lines, then the stripped `package.toml`. */
  function HeaderLines(env: Environment): (lines: seq<string>)
    ensures |lines| == |Labels| + 1
    ensures lines[..|Labels|] == LabelledLines(env)
    ensures lines[|Labels|] == Seqs.Strip(env.packageToml, Whitespace)
  {
    LabelledLines(env) + [Seqs.Strip(env.packageToml, Whitespace)]
  }

  /** `'\n'.join(header) + '\n\n'`. */
  function CreateLogHeader(env: Environment): (header: string)
    ensures |header| >= 2 && header[|header| - 2..] == "\n\n"
  {
    Seqs.Join(HeaderLines(env), '\n') + "\n\n"
  }

  /** The header opens with the date line. */
  lemma HeaderStartsWithDate(env: Environment)
    ensures "Date:       " + env.ctime <= CreateLogHeader(env)
  {
    var lines := HeaderLines(env);
    Seqs.JoinStartsWithFirst(lines, '\n');
    assert lines[0] == Labels[0] + Fields(env)[0];
  }

  /** The fields that end up on one line of the header hold no line break. */
  predicate SingleLineFields(env: Environment)
  {
    forall k :: 0 <= k < |Fields(env)| ==> '\n' !in Fields(env)[k]
  }

  /** Read back line by line, the header is the nine labelled lines, the lines of the
      stripped `package.toml`, and two empty lines from the closing `"\n\n"`. */
  lemma HeaderLineStructure(env: Environment)
    requires SingleLineFields(env)
    ensures Seqs.Split(CreateLogHeader(env), '\n') ==
            LabelledLines(env) + Seqs.Split(Seqs.Strip(env.packageToml, Whitespace), '\n') + ["", ""]
  {
    LabelledLinesAreSingle(env);
    SplitOfTerminatedJoin(LabelledLines(env), Seqs.Strip(env.packageToml, Whitespace));
  }

  /** Lines without breaks and a last piece, joined with `\n` and closed by `"\n\n"`,
      split back into those lines, the lines of the last piece and two empty lines. */
  lemma SplitOfTerminatedJoin(fixed: seq<string>, last: string)
    requires |fixed| >= 1
    requires forall k :: 0 <= k < |fixed| ==> '\n' !in fixed[k]
    ensures Seqs.Split(Seqs.Join(fixed + [last], '\n') + "\n\n", '\n') == fixed + Seqs.Split(last, '\n') + ["", ""]
  {
    var joined := Seqs.Join(fixed, '\n');
    var closed := last + ['\n'] + ['\n'];
    var tail := Seqs.Split(last, '\n');
    TerminatedJoinSplits(fixed, last);
    assert Seqs.Split(joined, '\n') == fixed by {
      Seqs.SplitJoin(fixed, '\n');
    }
    assert Seqs.Split(closed, '\n') == tail + ["", ""] by {
      SplitTwiceTerminated(last);
    }
    assert fixed + (tail + ["", ""]) == fixed + tail + ["", ""];
  }

  /** Splitting the closed join: the pieces of the join of `fixed`, then those of
      the last piece with its two line breaks. */
  lemma TerminatedJoinSplits(fixed: seq<string>, last: string)
    requires |fixed| >= 1
    ensures Seqs.Split(Seqs.Join(fixed + [last], '\n') + "\n\n", '\n') ==
            Seqs.Split(Seqs.Join(fixed, '\n'), '\n') + Seqs.Split(last + ['\n'] + ['\n'], '\n')
  {
    var joined := Seqs.Join(fixed, '\n');
    var closed := last + ['\n'] + ['\n'];
    assert Seqs.Join(fixed + [last], '\n') + "\n\n" == joined + ['\n'] + closed by {
      Seqs.JoinSnoc(fixed, last, '\n');
    }
    Seqs.SplitAppendSeparator(joined, closed, '\n');
  }

  /** Two line breaks at the end of a text add two empty lines. */
  lemma SplitTwiceTerminated(text: string)
    ensures Seqs.Split(text + ['\n'] + ['\n'], '\n') == Seqs.Split(text, '\n') + ["", ""]
  {
    Seqs.SplitSnoc(text, '\n', '\n');
    Seqs.SplitSnoc(text + ['\n'], '\n', '\n');
  }

  lemma LabelledLinesAreSingle(env: Environment)
    requires SingleLineFields(env)
    ensures forall k :: 0 <= k < |Labels| ==> '\n' !in LabelledLines(env)[k]
  {
    LabelsAreSingle();
  }

  lemma LabelsAreSingle()
    ensures forall k :: 0 <= k < |Labels| ==> '\n' !in Labels[k]
  {
  }
}
