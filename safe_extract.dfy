/**
 * The tar-slip guard that `build_and_test_package` runs before unpacking a downloaded
 * package: every member name is joined to the extraction directory and must stay
 * inside it, or nothing is extracted. "Inside" is decided by a character-level
 * prefix test on absolute paths, so a sibling directory whose name merely starts with
 * the directory's name passes as well.
 */
module SafeExtract {

  import Seqs
  import opened PosixPath

  const TraversalMessage := "Attempted Path Traversal in Tar File"

  /** `is_within_directory(directory, target)`, with `cwd` the process's working
      directory: the absolute form of `directory` is a character-level prefix of the
      absolute form of `target`. */
  function IsWithinDirectory(cwd: string, directory: string, target: string): (within: bool)
    ensures within <==> AbsPath(cwd, directory) <= AbsPath(cwd, target)
  {
    var absDirectory := AbsPath(cwd, directory);
    var absTarget := AbsPath(cwd, target);
    CommonPrefixIsFirst(absDirectory, absTarget);
    CommonPrefix(absDirectory, absTarget) == absDirectory
  }

  /** What `safe_extract` does with an archive: hand every member to `extractall`, or
      raise before extracting anything. */
  datatype Extraction = Extracted(path: string, members: seq<string>) | Raised(message: string)

  /** Whether member `name` passes the check for extraction into `path`. */
  predicate Admitted(cwd: string, path: string, name: string)
  {
    IsWithinDirectory(cwd, path, Join(path, name))
  }

  /** `ok` holds of every element of `items`, checked from the back so that the
      loop of `Extract` extends it one member at a time. */
  predicate All(ok: string -> bool, items: seq<string>)
    decreases |items|
  {
    items == [] || (All(ok, items[..|items| - 1]) && ok(items[|items| - 1]))
  }

  /** All holds exactly when `ok` holds of each element. */
  lemma {:induction false} AllEach(ok: string -> bool, items: seq<string>)
    ensures All(ok, items) <==> forall i :: 0 <= i < |items| ==> ok(items[i])
    decreases |items|
  {
    if items != [] {
      var init := items[..|items| - 1];
      AllEach(ok, init);
      assert forall i :: 0 <= i < |init| ==> init[i] == items[i];
    }
  }

  /** The check of `safe_extract` as a test on one member name. */
  function AdmittedIn(cwd: string, path: string): string -> bool
  {
    name => Admitted(cwd, path, name)
  }

  /** Every member of `members` passes the check. */
  predicate AllAdmitted(cwd: string, path: string, members: seq<string>)
  {
    All(AdmittedIn(cwd, path), members)
  }

  /** AllAdmitted holds exactly when each member, taken on its own, is admitted. */
  lemma AllAdmittedEach(cwd: string, path: string, members: seq<string>)
    ensures AllAdmitted(cwd, path, members) <==> forall i :: 0 <= i < |members| ==> Admitted(cwd, path, members[i])
  {
    AllEach(AdmittedIn(cwd, path), members);
  }

  /** `safe_extract(tar, path)`: every member name is checked in archive order; the
      first one that leaves `path` raises, and only when all pass are they extracted. */
  method Extract(cwd: string, path: string, members: seq<string>) returns (r: Extraction)
    ensures r.Extracted? <==> AllAdmitted(cwd, path, members)
    ensures r.Extracted? ==> r.path == path && r.members == members
    ensures r.Raised? ==> r.message == TraversalMessage
  {
    for i := 0 to |members|
      invariant AllAdmitted(cwd, path, members[..i])
    {
      var memberPath := Join(path, members[i]);
      if !IsWithinDirectory(cwd, path, memberPath) {
        RefusedMemberBlocks(cwd, path, members, i);
        return Raised(TraversalMessage);
      }
      assert members[..i + 1][..i] == members[..i];
      assert AdmittedIn(cwd, path)(members[i]);
    }
    assert members[..|members|] == members;
    return Extracted(path, members);
  }

  /** One refused member makes the whole archive refused. */
  lemma RefusedMemberBlocks(cwd: string, path: string, members: seq<string>, i: nat)
    requires i < |members| && !Admitted(cwd, path, members[i])
    ensures !AllAdmitted(cwd, path, members)
  {
    AllAdmittedEach(cwd, path, members);
  }

  /** A relative member name without `..` components is always admitted, whatever the
      working directory and whatever relative extraction directory. */
  lemma PlainMemberAdmitted(cwd: string, path: string, name: string)
    requires IsAbs(cwd) && !IsAbs(path) && !IsAbs(name)
    requires forall k :: 0 <= k < |Seqs.Split(name, Slash)| ==> Seqs.Split(name, Slash)[k] != ".."
    ensures Admitted(cwd, path, name)
  {
    PlainNameStaysBelow(cwd, path, name);
  }

  // ---------------------------------------------------------------------------
  // What the check makes of three kinds of member name, for the working directory
  // `/top` and the extraction directory `dir`. Member names are written as their
  // slash-separated components.

  /** A plain path component: not empty, not `.` or `..`, no slash. */
  predicate Name(n: string)
  {
    n != "" && n != "." && n != ".." && Slash !in n
  }

  /** `../../e/f` climbs two levels, out of `dir` and out of `top`: it normalises to
      `/e/f` and is refused whenever `/top/dir` is not a character prefix of it. */
  lemma ParentTraversalRefused(top: string, dir: string, e: string, f: string)
    requires Name(top) && Name(dir) && Name(e) && Name(f)
    requires !([Slash] + top + [Slash] + dir <= [Slash] + e + [Slash] + f)
    ensures AbsPath([Slash] + top, Join(dir, Seqs.Join(["..", "..", e, f], Slash))) == [Slash] + e + [Slash] + f
    ensures !Admitted([Slash] + top, dir, Seqs.Join(["..", "..", e, f], Slash))
  {
    var m := Seqs.Join(["..", "..", e, f], Slash);
    var directory := [Slash] + top + [Slash] + dir;
    var target := [Slash] + e + [Slash] + f;
    assert AbsPath([Slash] + top, dir) == directory by {
      DirectoryPath(top, dir);
    }
    assert AbsPath([Slash] + top, Join(dir, m)) == target by {
      ParentPath(top, dir, e, f);
    }
    AdmittedByPaths([Slash] + top, dir, m, directory, target);
  }

  /** An absolute member `/e/f` replaces the directory in `join` and is refused whenever
      `/top/dir` is not a character prefix of it. */
  lemma AbsoluteMemberRefused(top: string, dir: string, e: string, f: string)
    requires Name(top) && Name(dir) && Name(e) && Name(f)
    requires !([Slash] + top + [Slash] + dir <= [Slash] + e + [Slash] + f)
    ensures AbsPath([Slash] + top, Join(dir, Seqs.Join(["", e, f], Slash))) == [Slash] + e + [Slash] + f
    ensures !Admitted([Slash] + top, dir, Seqs.Join(["", e, f], Slash))
  {
    var m := Seqs.Join(["", e, f], Slash);
    var directory := [Slash] + top + [Slash] + dir;
    var target := [Slash] + e + [Slash] + f;
    assert AbsPath([Slash] + top, dir) == directory by {
      DirectoryPath(top, dir);
    }
    assert AbsPath([Slash] + top, Join(dir, m)) == target by {
      AbsoluteMemberPath(top, dir, e, f);
    }
    AdmittedByPaths([Slash] + top, dir, m, directory, target);
  }

  /** The check is not a descendant test: `../<dir><suffix>/x` leaves `dir` for its
      sibling `dir + suffix` (for instance `package-evil` beside `package`), so its
      absolute path is neither `/top/dir` nor below `/top/dir/`; yet it starts with the
      characters of `/top/dir`, and the member is admitted. */
  lemma SiblingWithSharedPrefixAdmitted(top: string, dir: string, suffix: string, x: string)
    requires Name(top) && Name(dir) && Name(dir + suffix) && Name(x) && suffix != ""
    ensures var target := AbsPath([Slash] + top, Join(dir, Seqs.Join(["..", dir + suffix, x], Slash)));
            var directory := AbsPath([Slash] + top, dir);
            target != directory && !(directory + [Slash] <= target)
    ensures Admitted([Slash] + top, dir, Seqs.Join(["..", dir + suffix, x], Slash))
  {
    var sibling := dir + suffix;
    var m := Seqs.Join(["..", sibling, x], Slash);
    var directory := [Slash] + top + [Slash] + dir;
    var target := directory + suffix + [Slash] + x;
    assert AbsPath([Slash] + top, dir) == directory by {
      DirectoryPath(top, dir);
    }
    assert AbsPath([Slash] + top, Join(dir, m)) == target by {
      SiblingPath(top, dir, sibling, x);
      Seqs.Regroup([Slash] + top + [Slash], dir, suffix);
    }
    assert suffix[0] != Slash by {
      assert suffix[0] == sibling[|dir|] && sibling[|dir|] in sibling;
    }
    ExtendedName(directory, suffix, [Slash] + x);
    AdmittedByPaths([Slash] + top, dir, m, directory, target);
  }

  /** Admitted is the prefix test on the two absolute paths, whatever they are. */
  lemma AdmittedByPaths(cwd: string, path: string, name: string, directory: string, target: string)
    requires AbsPath(cwd, path) == directory && AbsPath(cwd, Join(path, name)) == target
    ensures Admitted(cwd, path, name) <==> directory <= target
  {
  }

  // ---------------------------------------------------------------------------
  // Helpers for the three lemmas above

  /** `normpath` of the absolute path whose components are `comps`, once those
      components are known to resolve to `resolved`. */
  lemma NormPathOfComponents(comps: seq<string>, resolved: seq<string>)
    requires |comps| >= 3 && comps[0] == "" && comps[1] != ""
    requires forall k :: 0 <= k < |comps| ==> Slash !in comps[k]
    requires Resolve([], comps, true) == resolved
    ensures NormPath(Seqs.Join(comps, Slash)) == [Slash] + Seqs.Join(resolved, Slash)
  {
    var p := Seqs.Join(comps, Slash);
    Seqs.SplitJoin(comps, Slash);
    assert Root(p) == "/" by {
      RootedJoin(comps);
    }
  }

  /** The join of components that start with an empty one and a non-empty one. */
  lemma RootedJoin(comps: seq<string>)
    requires |comps| >= 3 && comps[0] == "" && comps[1] != ""
    ensures var p := Seqs.Join(comps, Slash);
            |p| >= 2 && p[0] == Slash && p[1] == comps[1][0]
  {
    assert comps == [""] + ([comps[1]] + comps[2..]);
    Seqs.JoinAppend([comps[1]], comps[2..], Slash);
    Seqs.JoinAppend([""], [comps[1]] + comps[2..], Slash);
  }

  /** The join of components whose first one is not empty starts with that one. */
  lemma JoinFirst(parts: seq<string>)
    requires |parts| >= 1 && parts[0] != ""
    ensures Seqs.Join(parts, Slash) != [] && Seqs.Join(parts, Slash)[0] == parts[0][0]
  {
    if |parts| > 1 {
      Seqs.JoinAppend([parts[0]], parts[1..], Slash);
      assert parts == [parts[0]] + parts[1..];
    }
  }

  /** A path extended by characters that do not start with a slash is a character
      extension of it and yet neither the path itself nor below it. */
  lemma ExtendedName(directory: string, suffix: string, rest: string)
    requires suffix != [] && suffix[0] != Slash
    ensures var target := directory + suffix + rest;
            directory <= target && target != directory && !(directory + [Slash] <= target)
  {
    var target := directory + suffix + rest;
    assert target[|directory|] == suffix[0];
  }

  lemma JoinTwo(a: string, b: string)
    ensures Seqs.Join([a, b], Slash) == a + [Slash] + b
  {
    Seqs.JoinSnoc([a], b, Slash);
    assert [a] + [b] == [a, b];
  }

  lemma RootedJoinTwo(a: string, b: string)
    ensures [Slash] + Seqs.Join([a, b], Slash) == [Slash] + a + [Slash] + b
  {
    JoinTwo(a, b);
  }

  lemma RootedJoinThree(a: string, b: string, c: string)
    ensures [Slash] + Seqs.Join([a, b, c], Slash) == [Slash] + a + [Slash] + b + [Slash] + c
  {
    JoinThree(a, b, c);
  }

  lemma JoinThree(a: string, b: string, c: string)
    ensures Seqs.Join([a, b, c], Slash) == a + [Slash] + b + [Slash] + c
  {
    JoinTwo(a, b);
    Seqs.JoinSnoc([a, b], c, Slash);
    assert [a, b] + [c] == [a, b, c];
  }

  lemma NoSlashIn(comps: seq<string>)
    requires forall k :: 0 <= k < |comps| ==> comps[k] == "" || comps[k] == ".." || Name(comps[k])
    ensures forall k :: 0 <= k < |comps| ==> Slash !in comps[k]
  {
  }

  lemma ResolveStep(stack: seq<string>, comps: seq<string>)
    requires comps != []
    ensures Resolve(stack, comps, true) == Resolve(Step(stack, comps[0], true), comps[1..], true)
  {
  }

  /** `abspath(dir)` from `/top` is `/top/dir`. */
  lemma DirectoryPath(top: string, dir: string)
    requires Name(top) && Name(dir)
    ensures AbsPath([Slash] + top, dir) == [Slash] + top + [Slash] + dir
  {
    var comps := ["", top, dir];
    assert Join([Slash] + top, dir) == Seqs.Join(comps, Slash) by {
      DirectoryComponents(top, dir);
    }
    assert NormPath(Seqs.Join(comps, Slash)) == [Slash] + Seqs.Join([top, dir], Slash) by {
      ResolveDirectory(top, dir);
      NoSlashIn(comps);
      NormPathOfComponents(comps, [top, dir]);
    }
    RootedJoinTwo(top, dir);
  }

  lemma DirectoryComponents(top: string, dir: string)
    requires Name(top) && Name(dir)
    ensures Join([Slash] + top, dir) == Seqs.Join(["", top, dir], Slash)
  {
    JoinThree("", top, dir);
    assert !IsAbs(dir) && ([Slash] + top)[|top|] != Slash by {
      assert dir[0] in dir && top[|top| - 1] in top;
    }
  }

  /** A relative member name is joined below `/top/dir`. */
  lemma MemberComponents(top: string, dir: string, member: seq<string>)
    requires Name(top) && Name(dir)
    requires |member| >= 1 && member[0] != "" && Slash !in member[0]
    ensures Join([Slash] + top, Join(dir, Seqs.Join(member, Slash))) == Seqs.Join(["", top, dir] + member, Slash)
  {
    var m := Seqs.Join(member, Slash);
    assert !IsAbs(m) by {
      JoinFirst(member);
      assert member[0][0] in member[0];
    }
    assert !IsAbs(dir) by {
      assert dir[0] in dir;
    }
    JoinAssociates([Slash] + top, dir, m);
    DirectoryComponents(top, dir);
    JoinThree("", top, dir);
    var p := Seqs.Join(["", top, dir], Slash);
    assert p[|p| - 1] == dir[|dir| - 1] && dir[|dir| - 1] in dir;
    Seqs.JoinAppend(["", top, dir], member, Slash);
  }

  /** `abspath(join(dir, member))` from `/top`, for a relative member whose components
      resolve from `[top, dir]` to `resolved`. */
  lemma RelativeMemberPath(top: string, dir: string, member: seq<string>, resolved: seq<string>)
    requires Name(top) && Name(dir)
    requires |member| >= 1 && member[0] != ""
    requires forall k :: 0 <= k < |member| ==> member[k] == ".." || Name(member[k])
    requires Resolve([top, dir], member, true) == resolved
    ensures AbsPath([Slash] + top, Join(dir, Seqs.Join(member, Slash))) == [Slash] + Seqs.Join(resolved, Slash)
  {
    var comps := ["", top, dir] + member;
    var joined := Join([Slash] + top, Join(dir, Seqs.Join(member, Slash)));
    assert joined == Seqs.Join(comps, Slash) by {
      assert Slash !in member[0];
      MemberComponents(top, dir, member);
    }
    assert NormPath(Seqs.Join(comps, Slash)) == [Slash] + Seqs.Join(resolved, Slash) by {
      assert Resolve([], comps, true) == resolved by {
        ResolveAppend([], ["", top, dir], member, true);
        ResolveDirectory(top, dir);
      }
      assert forall k :: 0 <= k < |comps| ==> Slash !in comps[k] by {
        NoSlashIn(["", top, dir]);
        assert forall k :: 3 <= k < |comps| ==> comps[k] == member[k - 3];
      }
      NormPathOfComponents(comps, resolved);
    }
    AbsPathVia([Slash] + top, Join(dir, Seqs.Join(member, Slash)), joined, [Slash] + Seqs.Join(resolved, Slash));
  }

  /** `abspath` through an intermediate joined path. */
  lemma AbsPathVia(cwd: string, p: string, joined: string, r: string)
    requires Join(cwd, p) == joined && NormPath(joined) == r
    ensures AbsPath(cwd, p) == r
  {
  }

  /** `abspath(join(dir, '/e/f'))` from `/top` is `/e/f`. */
  lemma AbsoluteMemberPath(top: string, dir: string, e: string, f: string)
    requires Name(top) && Name(dir) && Name(e) && Name(f)
    ensures AbsPath([Slash] + top, Join(dir, Seqs.Join(["", e, f], Slash))) == [Slash] + e + [Slash] + f
  {
    var member := ["", e, f];
    var m := Seqs.Join(member, Slash);
    RootedJoin(member);
    assert Join([Slash] + top, Join(dir, m)) == m;
    ResolveDirectory(e, f);
    NoSlashIn(member);
    NormPathOfComponents(member, [e, f]);
    JoinTwo(e, f);
  }

  /** `abspath(join(dir, '../sibling/x'))` from `/top` is `/top/sibling/x`. */
  lemma SiblingPath(top: string, dir: string, sibling: string, x: string)
    requires Name(top) && Name(dir) && Name(sibling) && Name(x)
    ensures AbsPath([Slash] + top, Join(dir, Seqs.Join(["..", sibling, x], Slash))) == [Slash] + top + [Slash] + sibling + [Slash] + x
  {
    ResolveParentSibling(top, dir, sibling, x);
    RelativeMemberPath(top, dir, ["..", sibling, x], [top, sibling, x]);
    RootedJoinThree(top, sibling, x);
  }

  /** `abspath(join(dir, '../../e/f'))` from `/top` is `/e/f`. */
  lemma ParentPath(top: string, dir: string, e: string, f: string)
    requires Name(top) && Name(dir) && Name(e) && Name(f)
    ensures AbsPath([Slash] + top, Join(dir, Seqs.Join(["..", "..", e, f], Slash))) == [Slash] + e + [Slash] + f
  {
    ResolveParentParent(top, dir, e, f);
    RelativeMemberPath(top, dir, ["..", "..", e, f], [e, f]);
    RootedJoinTwo(e, f);
  }

  lemma ResolveDirectory(top: string, dir: string)
    requires Name(top) && Name(dir)
    ensures Resolve([], ["", top, dir], true) == [top, dir]
  {
    var comps := ["", top, dir];
    ResolveStep([], comps);
    assert Step([], "", true) == [] && comps[1..] == [top, dir];
    ResolveStep([], [top, dir]);
    assert Step([], top, true) == [top] && [top, dir][1..] == [dir];
    ResolveStep([top], [dir]);
    assert Step([top], dir, true) == [top, dir] && [dir][1..] == [];
  }

  lemma ResolveParentParent(top: string, dir: string, e: string, f: string)
    requires Name(top) && Name(dir) && Name(e) && Name(f)
    ensures Resolve([top, dir], ["..", "..", e, f], true) == [e, f]
  {
    var comps := ["..", "..", e, f];
    ResolveStep([top, dir], comps);
    assert Step([top, dir], "..", true) == [top] && comps[1..] == ["..", e, f];
    ResolveStep([top], ["..", e, f]);
    assert Step([top], "..", true) == [] && ["..", e, f][1..] == [e, f];
    ResolveDirectory(e, f);
    ResolveStep([], ["", e, f]);
    assert ["", e, f][1..] == [e, f];
  }

  lemma ResolveParentSibling(top: string, dir: string, sibling: string, x: string)
    requires Name(top) && Name(dir) && Name(sibling) && Name(x)
    ensures Resolve([top, dir], ["..", sibling, x], true) == [top, sibling, x]
  {
    var comps := ["..", sibling, x];
    ResolveStep([top, dir], comps);
    assert Step([top, dir], "..", true) == [top] && comps[1..] == [sibling, x];
    ResolveStep([top], [sibling, x]);
    assert Step([top], sibling, true) == [top, sibling] && [sibling, x][1..] == [x];
    ResolveStep([top, sibling], [x]);
    assert Step([top, sibling], x, true) == [top, sibling, x] && [x][1..] == [];
  }
}
