/**
 * The sequence operations of Python's `str` and `bytes` that the scripts rely on:
 * `split(sep)`, `sep.join(parts)`, `strip(chars)` and `replace(x, '')`.
 * They are generic so that one definition serves strings (paths, log lines) and
 * byte strings (captured output).
 */
module Seqs {

  /** The pieces of `s` between occurrences of `sep`, as Python's `s.split(sep)`:
      `n` separators always give `n + 1` pieces, empty ones included.
      Defined from the back, so that appending one element is a single step. */
  function Split<T(==)>(s: seq<T>, sep: T): (parts: seq<seq<T>>)
    ensures |parts| >= 1
    decreases |s|
  {
    if s == [] then [[]]
    else
      var init := Split(s[..|s| - 1], sep);
      if s[|s| - 1] == sep then init + [[]]
      else init[..|init| - 1] + [init[|init| - 1] + [s[|s| - 1]]]
  }

  /** The last piece of `Split(s, sep)`: what follows the last separator, or all of `s`. */
  function LastPiece<T(==)>(s: seq<T>, sep: T): seq<T>
  {
    var parts := Split(s, sep);
    parts[|parts| - 1]
  }

  /** The pieces `parts` glued together with `sep` between neighbours, as Python's `sep.join(parts)`. */
  function Join<T>(parts: seq<seq<T>>, sep: T): seq<T>
    decreases |parts|
  {
    if |parts| == 0 then []
    else if |parts| == 1 then parts[0]
    else Join(parts[..|parts| - 1], sep) + [sep] + parts[|parts| - 1]
  }

  /** Python's `strip(chars)`: `s` without its longest prefix and longest suffix
      made only of elements of `chars` (the prefix is StripLeft's). */
  function Strip<T(==)>(s: seq<T>, chars: set<T>): (r: seq<T>)
    ensures var left := StripLeft(s, chars);
            r <= left && forall k :: |r| <= k < |left| ==> left[k] in chars
    ensures r != [] ==> r[0] !in chars && r[|r| - 1] !in chars
  {
    StripRight(StripLeft(s, chars), chars)
  }

  /** `s` without its longest prefix made of elements of `chars`. */
  function StripLeft<T(==)>(s: seq<T>, chars: set<T>): (r: seq<T>)
    ensures |r| <= |s| && r == s[|s| - |r|..]
    ensures forall k :: 0 <= k < |s| - |r| ==> s[k] in chars
    ensures r != [] ==> r[0] !in chars
  {
    if s != [] && s[0] in chars then
      var r := StripLeft(s[1..], chars);
      assert s[1..][|s| - 1 - |r|..] == s[|s| - |r|..];
      assert forall k :: 1 <= k < |s| - |r| ==> s[k] == s[1..][k - 1];
      r
    else s
  }

  /** `s` without its longest suffix made of elements of `chars`. */
  function StripRight<T(==)>(s: seq<T>, chars: set<T>): (r: seq<T>)
    ensures |r| <= |s| && r == s[..|r|]
    ensures forall k :: |r| <= k < |s| ==> s[k] in chars
    ensures r != [] ==> r[|r| - 1] !in chars
  {
    if s != [] && s[|s| - 1] in chars then
      var r := StripRight(s[..|s| - 1], chars);
      assert s[..|s| - 1][..|r|] == s[..|r|];
      r
    else s
  }

  /** Python's `s.replace(x, '')`: `s` with every occurrence of `x` removed, the rest in order. */
  function RemoveAll<T(==)>(s: seq<T>, x: T): (r: seq<T>)
    ensures x !in r
    ensures multiset(r) == multiset(s)[x := 0]
  {
    if s == [] then []
    else
      assert s == [s[0]] + s[1..];
      if s[0] == x then RemoveAll(s[1..], x)
      else [s[0]] + RemoveAll(s[1..], x)
  }

  /** Concatenation regrouped: the step the solver is slow to find on its own. */
  lemma Regroup<T>(a: seq<T>, b: seq<T>, c: seq<T>)
    ensures a + (b + c) == a + b + c
  {
  }

  /** Splitting a sequence that ends in `c` is one step from splitting the rest. */
  lemma SplitSnoc<T>(s: seq<T>, c: T, sep: T)
    ensures var parts := Split(s, sep);
            Split(s + [c], sep) ==
              if c == sep then parts + [[]]
              else parts[..|parts| - 1] + [parts[|parts| - 1] + [c]]
  {
    assert (s + [c])[..|s + [c]| - 1] == s;
  }

  /** There is one more piece than there are separators. */
  lemma {:induction false} SplitCount<T>(s: seq<T>, sep: T)
    ensures |Split(s, sep)| == multiset(s)[sep] + 1
    decreases |s|
  {
    if s != [] {
      var init := s[..|s| - 1];
      assert s == init + [s[|s| - 1]];
      SplitCount(init, sep);
      SplitSnoc(init, s[|s| - 1], sep);
    }
  }

  /** A sequence without separators is a single piece. */
  lemma {:induction false} SplitNoSeparator<T>(s: seq<T>, sep: T)
    requires sep !in s
    ensures Split(s, sep) == [s]
    decreases |s|
  {
    if s != [] {
      var init := s[..|s| - 1];
      assert s == init + [s[|s| - 1]];
      SplitNoSeparator(init, sep);
      SplitSnoc(init, s[|s| - 1], sep);
    }
  }

  /** `Split(a + b)` in terms of the pieces of `a` and of `b`. */
  ghost predicate SplitsAppended<T>(a: seq<T>, b: seq<T>, sep: T)
  {
    var A, B := Split(a, sep), Split(b, sep);
    Split(a + b, sep) == A[..|A| - 1] + [A[|A| - 1] + B[0]] + B[1..]
  }

  /** Splitting a concatenation: the last piece of `a` is glued to the first piece of `b`. */
  lemma {:induction false} SplitAppend<T>(a: seq<T>, b: seq<T>, sep: T)
    ensures var A, B := Split(a, sep), Split(b, sep);
            Split(a + b, sep) == A[..|A| - 1] + [A[|A| - 1] + B[0]] + B[1..]
    decreases |b|
  {
    if b == [] {
      SplitAppendNil(a, sep);
    } else {
      var init, c := b[..|b| - 1], b[|b| - 1];
      assert b == init + [c];
      SplitAppend(a, init, sep);
      SplitAppendSnoc(a, init, c, sep);
    }
  }

  lemma SplitAppendNil<T>(a: seq<T>, sep: T)
    ensures SplitsAppended(a, [], sep)
  {
    var A := Split(a, sep);
    assert a + [] == a;
    assert A[|A| - 1] + [] == A[|A| - 1];
    assert A == A[..|A| - 1] + [A[|A| - 1]];
  }

  lemma SplitAppendSnoc<T>(a: seq<T>, init: seq<T>, c: T, sep: T)
    requires SplitsAppended(a, init, sep)
    ensures SplitsAppended(a, init + [c], sep)
  {
    if c == sep {
      SplitAppendSnocSeparator(a, init, sep);
    } else {
      SplitAppendSnocElement(a, init, c, sep);
    }
  }

  lemma SplitAppendSnocSeparator<T>(a: seq<T>, init: seq<T>, sep: T)
    requires SplitsAppended(a, init, sep)
    ensures SplitsAppended(a, init + [sep], sep)
  {
    var b := init + [sep];
    var X := Split(a + b, sep);
    var Y := Split(b, sep);
    assert X == Split(a + init, sep) + [[]] by {
      assert a + b == (a + init) + [sep];
      SplitSnoc(a + init, sep, sep);
    }
    assert Y == Split(init, sep) + [[]] by {
      SplitSnoc(init, sep, sep);
    }
    SplitAppendSeparatorStep(Split(a, sep), Split(init, sep), Split(a + init, sep), X, Y);
  }

  lemma SplitAppendSnocElement<T>(a: seq<T>, init: seq<T>, c: T, sep: T)
    requires SplitsAppended(a, init, sep)
    requires c != sep
    ensures SplitsAppended(a, init + [c], sep)
  {
    var b := init + [c];
    var S, I := Split(a + init, sep), Split(init, sep);
    var X := Split(a + b, sep);
    var Y := Split(b, sep);
    assert X == S[..|S| - 1] + [S[|S| - 1] + [c]] by {
      assert a + b == (a + init) + [c];
      SplitSnoc(a + init, c, sep);
    }
    assert Y == I[..|I| - 1] + [I[|I| - 1] + [c]] by {
      SplitSnoc(init, c, sep);
    }
    SplitAppendElementStep(Split(a, sep), I, S, X, Y, c);
  }

  /** The inductive step of SplitAppend when `b` ends in a separator. */
  lemma SplitAppendSeparatorStep<T>(A: seq<seq<T>>, I: seq<seq<T>>, S: seq<seq<T>>, X: seq<seq<T>>, Y: seq<seq<T>>)
    requires |A| >= 1 && |I| >= 1
    requires S == A[..|A| - 1] + [A[|A| - 1] + I[0]] + I[1..]
    requires X == S + [[]] && Y == I + [[]]
    ensures X == A[..|A| - 1] + [A[|A| - 1] + Y[0]] + Y[1..]
  {
    assert Y[1..] == I[1..] + [[]];
  }

  /** The inductive step of SplitAppend when `b` ends in an element other than the separator. */
  lemma SplitAppendElementStep<T>(A: seq<seq<T>>, I: seq<seq<T>>, S: seq<seq<T>>, X: seq<seq<T>>, Y: seq<seq<T>>, c: T)
    requires |A| >= 1 && |I| >= 1
    requires S == A[..|A| - 1] + [A[|A| - 1] + I[0]] + I[1..]
    requires X == S[..|S| - 1] + [S[|S| - 1] + [c]]
    requires Y == I[..|I| - 1] + [I[|I| - 1] + [c]]
    ensures X == A[..|A| - 1] + [A[|A| - 1] + Y[0]] + Y[1..]
  {
    if |I| == 1 {
      assert S[..|S| - 1] == A[..|A| - 1];
      assert Y[1..] == [];
      assert A[|A| - 1] + (I[0] + [c]) == (A[|A| - 1] + I[0]) + [c];
    } else {
      assert S[..|S| - 1] == A[..|A| - 1] + [A[|A| - 1] + I[0]] + I[1..|I| - 1];
      assert Y[0] == I[0];
      assert Y[1..] == I[1..|I| - 1] + [I[|I| - 1] + [c]];
    }
  }

  /** Appending a separator and then `b` appends the pieces of `b`. */
  lemma SplitAppendSeparator<T>(a: seq<T>, b: seq<T>, sep: T)
    ensures Split(a + [sep] + b, sep) == Split(a, sep) + Split(b, sep)
  {
    var A := Split(a, sep);
    SplitAppend(a + [sep], b, sep);
    SplitSnoc(a, sep, sep);
    assert a + [sep] + b == (a + [sep]) + b;
    assert (A + [[]])[..|A|] == A;
    assert (A + [[]])[|A|] + Split(b, sep)[0] == Split(b, sep)[0];
    assert Split(b, sep) == [Split(b, sep)[0]] + Split(b, sep)[1..];
  }

  /** `sep.join(s.split(sep)) == s`. */
  lemma {:induction false} JoinSplit<T>(s: seq<T>, sep: T)
    ensures Join(Split(s, sep), sep) == s
    decreases |s|
  {
    if s != [] {
      var init, c := s[..|s| - 1], s[|s| - 1];
      assert s == init + [c];
      JoinSplit(init, sep);
      var P := Split(init, sep);
      SplitSnoc(init, c, sep);
      if c == sep {
        JoinSnoc(P, [], sep);
      } else {
        JoinLastExtended(P, c, sep);
      }
    }
  }

  /** Extending the last piece extends the join. */
  lemma JoinLastExtended<T>(parts: seq<seq<T>>, c: T, sep: T)
    requires |parts| >= 1
    ensures Join(parts[..|parts| - 1] + [parts[|parts| - 1] + [c]], sep) == Join(parts, sep) + [c]
  {
    var front, last := parts[..|parts| - 1], parts[|parts| - 1];
    var extended := front + [last + [c]];
    if front == [] {
      assert extended == [last + [c]];
    } else {
      var head := Join(front, sep) + [sep];
      assert Join(extended, sep) == head + (last + [c]) by {
        JoinSnoc(front, last + [c], sep);
      }
      assert Join(parts, sep) == head + last;
      assert head + (last + [c]) == (head + last) + [c];
    }
  }

  /** `sep.join(parts).split(sep) == parts` when no piece holds a separator. */
  lemma {:induction false} SplitJoin<T>(parts: seq<seq<T>>, sep: T)
    requires |parts| >= 1
    requires forall k :: 0 <= k < |parts| ==> sep !in parts[k]
    ensures Split(Join(parts, sep), sep) == parts
    decreases |parts|
  {
    if |parts| == 1 {
      SplitNoSeparator(parts[0], sep);
    } else {
      var init, x := parts[..|parts| - 1], parts[|parts| - 1];
      SplitJoin(init, sep);
      SplitNoSeparator(x, sep);
      SplitAppendSeparator(Join(init, sep), x, sep);
      assert parts == init + [x];
    }
  }

  /** Joining one more piece adds a separator and that piece. */
  lemma JoinSnoc<T>(parts: seq<seq<T>>, x: seq<T>, sep: T)
    requires |parts| >= 1
    ensures Join(parts + [x], sep) == Join(parts, sep) + [sep] + x
  {
    assert (parts + [x])[..|parts|] == parts;
  }

  /** Joining two non-empty lists of pieces: one separator between the two joins. */
  lemma {:induction false} JoinAppend<T>(a: seq<seq<T>>, b: seq<seq<T>>, sep: T)
    requires |a| >= 1 && |b| >= 1
    ensures Join(a + b, sep) == Join(a, sep) + [sep] + Join(b, sep)
    decreases |b|
  {
    if |b| == 1 {
      JoinSnoc(a, b[0], sep);
    } else {
      var init, x := b[..|b| - 1], b[|b| - 1];
      assert a + b == (a + init) + [x];
      JoinAppend(a, init, sep);
      JoinSnoc(a + init, x, sep);
      JoinSnoc(init, x, sep);
      assert b == init + [x];
    }
  }

  /** A join starts with its first piece. */
  lemma {:induction false} JoinStartsWithFirst<T>(parts: seq<seq<T>>, sep: T)
    requires |parts| >= 1
    ensures parts[0] <= Join(parts, sep)
    decreases |parts|
  {
    if |parts| > 1 {
      JoinStartsWithFirst(parts[..|parts| - 1], sep);
    }
  }

  /** A value other than the separator occurs in a join only if it occurs in a piece. */
  lemma {:induction false} JoinNotIn<T>(parts: seq<seq<T>>, sep: T, x: T)
    requires x != sep
    requires forall k :: 0 <= k < |parts| ==> x !in parts[k]
    ensures x !in Join(parts, sep)
    decreases |parts|
  {
    if |parts| > 1 {
      JoinNotIn(parts[..|parts| - 1], sep, x);
    }
  }

  /** A value absent from the whole is absent from every piece. */
  lemma {:induction false} SplitPiecesAvoid<T>(s: seq<T>, sep: T, x: T)
    requires x !in s
    ensures forall k :: 0 <= k < |Split(s, sep)| ==> x !in Split(s, sep)[k]
    decreases |s|
  {
    if s != [] {
      var init, c := s[..|s| - 1], s[|s| - 1];
      assert s == init + [c];
      SplitPiecesAvoid(init, sep, x);
      SplitSnoc(init, c, sep);
    }
  }

  /** No piece holds a separator. */
  lemma {:induction false} SplitPiecesHaveNoSeparator<T>(s: seq<T>, sep: T)
    ensures forall k :: 0 <= k < |Split(s, sep)| ==> sep !in Split(s, sep)[k]
    decreases |s|
  {
    if s != [] {
      var init, c := s[..|s| - 1], s[|s| - 1];
      assert s == init + [c];
      SplitPiecesHaveNoSeparator(init, sep);
      SplitSnoc(init, c, sep);
    }
  }
}
