/**
 * The parts of Python's `posixpath` that `is_within_directory` relies on:
 * `join`, `normpath`, `abspath` (with the working directory as a parameter) and
 * `commonprefix`, all on strings with `/` as the only separator.
 */
module PosixPath {

  import Seqs

  const Slash: char := '/'

  /** `os.path.isabs`: the path starts with a slash. */
  predicate IsAbs(p: string)
  {
    |p| > 0 && p[0] == Slash
  }

  /** `os.path.join(a, b)`: an absolute `b` replaces `a`; otherwise a slash is put
      between the two unless `a` is empty or already ends in one. */
  function Join(a: string, b: string): (r: string)
  {
    if IsAbs(b) then b
    else if a == [] || a[|a| - 1] == Slash then a + b
    else a + [Slash] + b
  }

  /** The leading slashes `normpath` keeps: POSIX gives exactly two leading slashes an
      implementation-defined meaning, so `//` is kept while one slash or three or more
      become a single slash. */
  function Root(p: string): (root: string)
    ensures root == "" || root == "/" || root == "//"
    ensures root != "" <==> IsAbs(p)
  {
    if !IsAbs(p) then ""
    else if |p| >= 2 && p[1] == Slash && !(|p| >= 3 && p[2] == Slash) then "//"
    else "/"
  }

  /** One turn of `normpath`'s loop over components: empty and `.` components vanish,
      `..` removes the previous component unless there is none to remove (then it is
      kept in a relative path and dropped at the root) or that one is itself `..`. */
  function Step(stack: seq<string>, comp: string, rooted: bool): seq<string>
  {
    if comp == "" || comp == "." then stack
    else if comp != ".." || (!rooted && stack == []) || (stack != [] && stack[|stack| - 1] == "..") then
      stack + [comp]
    else if stack != [] then stack[..|stack| - 1]
    else stack
  }

  /** `normpath`'s loop: the components `comps` applied one by one to `stack`. */
  function Resolve(stack: seq<string>, comps: seq<string>, rooted: bool): seq<string>
    decreases |comps|
  {
    if comps == [] then stack
    else Resolve(Step(stack, comps[0], rooted), comps[1..], rooted)
  }

  /** `os.path.normpath(p)`. */
  function NormPath(p: string): (r: string)
    ensures r != ""
    ensures IsAbs(p) ==> IsAbs(r)
  {
    if p == "" then "."
    else
      var root := Root(p);
      var q := root + Seqs.Join(Resolve([], Seqs.Split(p, Slash), root != ""), Slash);
      if q == "" then "." else q
  }

  /** `os.path.abspath(p)` with `cwd` standing for `os.getcwd()`. Python joins a
      relative `p` onto the working directory and normalises; `join` already leaves an
      absolute `p` as it is, so one expression covers both branches (AbsPathOfAbsolute). */
  function AbsPath(cwd: string, p: string): (r: string)
    ensures IsAbs(cwd) ==> IsAbs(r)
  {
    NormPath(Join(cwd, p))
  }

  /** An absolute path ignores the working directory: `abspath(p) == normpath(p)`. */
  lemma AbsPathOfAbsolute(cwd: string, p: string)
    requires IsAbs(p)
    ensures AbsPath(cwd, p) == NormPath(p)
  {
  }

  /** `os.path.commonprefix([a, b])`: the longest common prefix, compared character by
      character. (Python takes it between the smaller and the larger of the two,
      which for two strings is the same thing.) */
  function CommonPrefix(a: string, b: string): (r: string)
    ensures r <= a && r <= b
    ensures |r| == |a| || |r| == |b| || a[|r|] != b[|r|]
  {
    if a == [] || b == [] || a[0] != b[0] then []
    else [a[0]] + CommonPrefix(a[1..], b[1..])
  }

  /** The common prefix of `a` and `b` is `a` itself exactly when `a` is a prefix of `b`. */
  lemma CommonPrefixIsFirst(a: string, b: string)
    ensures CommonPrefix(a, b) == a <==> a <= b
  {
  }

  // ---------------------------------------------------------------------------
  // Facts about normpath's components

  /** A component list is clean when it holds no empty, `.` or `..` component and no slash. */
  predicate Clean(comps: seq<string>)
  {
    forall k :: 0 <= k < |comps| ==> comps[k] != "" && comps[k] != "." && comps[k] != ".." && Slash !in comps[k]
  }

  /** At the root `..` can never be kept, so resolving slash-free components onto a clean
      stack gives a clean result: an absolute normalised path has no `..` left in it. */
  lemma {:induction false} RootedResolveIsClean(stack: seq<string>, comps: seq<string>)
    requires Clean(stack)
    requires forall k :: 0 <= k < |comps| ==> Slash !in comps[k]
    ensures Clean(Resolve(stack, comps, true))
    decreases |comps|
  {
    if comps != [] {
      RootedResolveIsClean(Step(stack, comps[0], true), comps[1..]);
    }
  }

  /** Resolving a concatenation resolves the first part, then the second. */
  lemma {:induction false} ResolveAppend(stack: seq<string>, a: seq<string>, b: seq<string>, rooted: bool)
    ensures Resolve(stack, a + b, rooted) == Resolve(Resolve(stack, a, rooted), b, rooted)
    decreases |a|
  {
    if a == [] {
      assert a + b == b;
    } else {
      assert (a + b)[0] == a[0] && (a + b)[1..] == a[1..] + b;
      ResolveAppend(Step(stack, a[0], rooted), a[1..], b, rooted);
    }
  }

  /** Without `..` nothing already on the stack is removed. */
  lemma {:induction false} ResolveWithoutParentExtends(stack: seq<string>, comps: seq<string>, rooted: bool)
    requires forall k :: 0 <= k < |comps| ==> comps[k] != ".."
    ensures stack <= Resolve(stack, comps, rooted)
    decreases |comps|
  {
    if comps != [] {
      ResolveWithoutParentExtends(Step(stack, comps[0], rooted), comps[1..], rooted);
    }
  }

  /** The components of `join(a, b)` are those of `a`, less a trailing empty one,
      followed by those of `b`. */
  lemma JoinComponents(a: string, b: string) returns (front: seq<string>)
    requires a != [] && !IsAbs(b)
    ensures Seqs.Split(Join(a, b), Slash) == front + Seqs.Split(b, Slash)
    ensures Seqs.Split(a, Slash) == front || Seqs.Split(a, Slash) == front + [""]
  {
    if a[|a| - 1] == Slash {
      var init := a[..|a| - 1];
      assert a == init + [Slash];
      Seqs.SplitSnoc(init, Slash, Slash);
      Seqs.SplitAppendSeparator(init, b, Slash);
      front := Seqs.Split(init, Slash);
    } else {
      Seqs.SplitAppendSeparator(a, b, Slash);
      front := Seqs.Split(a, Slash);
    }
  }

  /** Extending an absolute path by `join` keeps its leading slashes. */
  lemma RootOfJoin(a: string, b: string)
    requires IsAbs(a) && !IsAbs(b)
    ensures Root(Join(a, b)) == Root(a)
  {
    var j := Join(a, b);
    if |a| >= 3 {
      assert j[..3] == a[..3];
    } else if |a| == 2 && a[1] == Slash {
      assert j == a + b;
    }
  }

  /** With a relative `dir` and a relative member name free of `..`, `join(dir, name)`
      normalises under the working directory to an extension of `dir`'s normal form. */
  lemma PlainNameStaysBelow(cwd: string, dir: string, name: string)
    requires IsAbs(cwd) && !IsAbs(dir) && !IsAbs(name)
    requires forall k :: 0 <= k < |Seqs.Split(name, Slash)| ==> Seqs.Split(name, Slash)[k] != ".."
    ensures AbsPath(cwd, dir) <= AbsPath(cwd, Join(dir, name))
  {
    var p := Join(cwd, dir);
    assert AbsPath(cwd, Join(dir, name)) == NormPath(Join(p, name)) by {
      JoinAssociates(cwd, dir, name);
    }
    NormPathExtends(p, name);
  }

  /** Joining a relative name free of `..` onto an absolute path extends its normal form. */
  lemma NormPathExtends(p: string, name: string)
    requires IsAbs(p) && !IsAbs(name)
    requires forall k :: 0 <= k < |Seqs.Split(name, Slash)| ==> Seqs.Split(name, Slash)[k] != ".."
    ensures NormPath(p) <= NormPath(Join(p, name))
  {
    var q := Join(p, name);
    var front := JoinComponents(p, name);
    var tail := Seqs.Split(name, Slash);
    var base := Resolve([], front, true);
    var ext := Resolve(base, tail, true);
    assert Resolve([], Seqs.Split(p, Slash), true) == base by {
      ResolveAppend([], front, [""], true);
      assert Resolve(base, [""], true) == base;
    }
    assert Resolve([], Seqs.Split(q, Slash), true) == ext by {
      ResolveAppend([], front, tail, true);
    }
    assert Seqs.Join(base, Slash) <= Seqs.Join(ext, Slash) by {
      ResolveWithoutParentExtends(base, tail, true);
      JoinPrefix(base, ext);
    }
    assert Root(q) == Root(p) by {
      RootOfJoin(p, name);
    }
    NormPathOfRooted(p, base);
    NormPathOfRooted(q, ext);
  }

  /** The normal form of an absolute path: its root, then its resolved components. */
  lemma NormPathOfRooted(p: string, stack: seq<string>)
    requires IsAbs(p) && Resolve([], Seqs.Split(p, Slash), true) == stack
    ensures NormPath(p) == Root(p) + Seqs.Join(stack, Slash)
  {
  }

  /** `join(cwd, join(dir, name)) == join(join(cwd, dir), name)` for relative `dir` and `name`. */
  lemma JoinAssociates(cwd: string, dir: string, name: string)
    requires IsAbs(cwd) && !IsAbs(dir) && !IsAbs(name)
    ensures Join(cwd, Join(dir, name)) == Join(Join(cwd, dir), name)
  {
    var sep: string := if cwd[|cwd| - 1] == Slash then "" else [Slash];
    assert Join(cwd, dir) == cwd + sep + dir;
    if dir == [] {
      JoinAssociatesEmpty(cwd, sep, name);
    } else {
      JoinAssociatesNonEmpty(cwd, sep, dir, name);
    }
  }

  lemma JoinAssociatesEmpty(cwd: string, sep: string, name: string)
    requires IsAbs(cwd) && !IsAbs(name)
    requires sep == if cwd[|cwd| - 1] == Slash then "" else [Slash]
    ensures Join(cwd, Join("", name)) == Join(Join(cwd, ""), name)
  {
    var p := cwd + sep;
    assert Join(cwd, "") == p;
    assert p[|p| - 1] == Slash;
    assert Join(p, name) == p + name;
    assert Join(cwd, name) == cwd + sep + name;
  }

  lemma JoinAssociatesNonEmpty(cwd: string, sep: string, dir: string, name: string)
    requires IsAbs(cwd) && !IsAbs(name) && !IsAbs(dir) && dir != []
    requires sep == if cwd[|cwd| - 1] == Slash then "" else [Slash]
    ensures Join(cwd, Join(dir, name)) == Join(cwd + sep + dir, name)
  {
    var p := cwd + sep + dir;
    var mid: string := if dir[|dir| - 1] == Slash then "" else [Slash];
    var d := dir + mid + name;
    assert Join(dir, name) == d;
    assert Join(cwd, d) == cwd + sep + d by {
      assert d[0] == dir[0];
    }
    assert Join(p, name) == p + mid + name by {
      assert p[|p| - 1] == dir[|dir| - 1];
    }
    Seqs.Regroup(cwd + sep, dir + mid, name);
    Seqs.Regroup(cwd + sep, dir, mid);
  }

  /** Joining an extension of a component list extends the joined string. */
  lemma JoinPrefix(c: seq<string>, d: seq<string>)
    requires c <= d
    ensures Seqs.Join(c, Slash) <= Seqs.Join(d, Slash)
  {
    if c != [] && c != d {
      assert d == c + d[|c|..];
      Seqs.JoinAppend(c, d[|c|..], Slash);
    }
  }
}
