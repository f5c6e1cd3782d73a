/**
 * The normalise-and-reject step every handler applies to a request path:
 * `os.path.normpath(os.path.join(*path.split("/")))`, a refusal of any
 * result whose text starts with `..`, and a join onto the served root.
 */
module Sandbox {
  import opened Http
  import opened PosixPath

  /** The relative path the handlers compute from a request path. */
  function RelativePath(path: string): string
  {
    NormPath(JoinAll(Split(path)))
  }

  /** The components of RelativePath, before they are joined. */
  function Components(path: string): seq<string>
  {
    NormFrom([], Split(path), false)
  }

  /** The handlers' traversal test: the relative path's text starts with `..`. */
  predicate Escapes(path: string)
  {
    StartsWith(RelativePath(path), "..")
  }

  /** The on-disk path a request path is served from, or None when it is refused. */
  function Resolve(root: string, path: string): Option<string>
  {
    if Escapes(path) then None else Some(Join(root, RelativePath(path)))
  }

  lemma NoInitialSlashes(p: string)
    requires !StartsWith(p, "/")
    ensures InitialSlashes(p) == 0
  {
    if |p| >= 2 {
      assert p[..1] == p[..2][..1];
    }
  }

  /** The relative path is its normalised components joined by `/`, or `.` when there are none. */
  lemma RelativePathShape(path: string)
    ensures Normal(Components(path))
    ensures RelativePath(path) == if Components(path) == [] then "." else JoinSlash(Components(path))
  {
    var parts := Split(path);
    assert forall i :: 0 <= i < |parts| ==> NoSep(parts[i]) by {
      forall i | 0 <= i < |parts| ensures NoSep(parts[i]) { assert parts[i] in parts; }
    }
    NormFromNormal([], parts);
    var j := JoinAll(parts);
    JoinAllComponents(parts);
    NormFromNonEmpty([], parts, false);
    NormFromNonEmpty([], Split(j), false);
    var r := Components(path);
    if j == "" {
      assert NonEmpty(Split(j)) == [];
    } else {
      NoInitialSlashes(j);
      assert NormFrom([], Split(j), false) == r;
      if r != [] {
        JoinSlashPrefix(r);
      }
    }
  }

  /** The text test refuses exactly the paths whose first component starts with `..`. */
  lemma EscapesIff(path: string)
    ensures Escapes(path) <==> Components(path) != [] && StartsWith(Components(path)[0], "..")
  {
    RelativePathShape(path);
    var r := Components(path);
    if r != [] {
      var t := JoinSlash(r);
      JoinSlashPrefix(r);
      if |r[0]| >= 2 {
        assert t[..2] == r[0][..2];
      } else if |r| > 1 {
        assert t[1] == '/';
      } else {
        assert t == r[0];
      }
    }
  }

  /** A path the test lets through has only ordinary components: no `..` survives. */
  lemma AcceptedHasNoParent(path: string)
    requires !Escapes(path)
    ensures forall i :: 0 <= i < |Components(path)| ==> Ordinary(Components(path)[i])
  {
    EscapesIff(path);
    RelativePathShape(path);
    var r := Components(path);
    assert forall i :: 0 <= i < |r| ==> Ordinary(r[i]);
  }

  /** An accepted relative path is not empty and does not start with a separator. */
  lemma RelativeFirstChar(path: string)
    requires !Escapes(path)
    ensures RelativePath(path) != "" && RelativePath(path)[0] != '/'
  {
    RelativePathShape(path);
    AcceptedHasNoParent(path);
    var rel := RelativePath(path);
    var c := Components(path);
    if c != [] {
      JoinSlashPrefix(c);
      assert rel[0] == c[0][0];
    }
  }

  /** A resolved path is the root's text extended, so it is never the root itself. */
  lemma ResolvedExtendsRoot(root: string, path: string)
    requires Resolve(root, path).Some?
    ensures |Resolve(root, path).value| > |root| && Resolve(root, path).value[..|root|] == root
  {
    RelativeFirstChar(path);
    var rel := RelativePath(path);
    assert !StartsWith(rel, "/") by { assert rel[..1] == [rel[0]]; }
  }

  /** Joining a text that does not start with a separator keeps whether the base is absolute. */
  lemma JoinKeepsAbsolute(a: string, b: string)
    requires b != "" && b[0] != '/'
    ensures !StartsWith(b, "/")
    ensures StartsWith(Join(a, b), "/") == StartsWith(a, "/")
  {
    assert !StartsWith(b, "/") by { assert b[..1] == [b[0]]; }
    if a != "" {
      assert Join(a, b)[..1] == a[..1];
    }
  }

  /** The non-empty parts of an accepted relative path are its components, or `.` when there are none. */
  lemma RelativeParts(path: string)
    requires !Escapes(path)
    ensures NonEmpty(Split(RelativePath(path))) == if Components(path) == [] then ["."] else Components(path)
  {
    RelativePathShape(path);
    AcceptedHasNoParent(path);
    var r := Components(path);
    if r == [] {
      SplitNoSep(".");
    } else {
      assert forall i :: 0 <= i < |r| ==> NoSep(r[i]);
      SplitJoinSlash(r);
      NonEmptyOfNonEmpties(r);
    }
  }

  /**
   * A resolved path lies under the root: normalising it gives the root's own
   * normalised components followed by the request's ordinary components.
   */
  lemma ResolvedUnderRoot(root: string, path: string)
    requires Resolve(root, path).Some?
    ensures Segments(Resolve(root, path).value) == Segments(root) + Components(path)
    ensures forall i :: 0 <= i < |Components(path)| ==> Ordinary(Components(path)[i])
  {
    AcceptedHasNoParent(path);
    RelativeFirstChar(path);
    RelativeParts(path);
    var rel := RelativePath(path);
    var r := Components(path);
    var rooted := Join(root, rel);
    var absolute := StartsWith(root, "/");
    JoinKeepsAbsolute(root, rel);
    JoinComponents(root, rel);
    var tail := NonEmpty(Split(rel));
    calc {
      Segments(rooted);
      NormFrom([], Split(rooted), absolute);
      { NormFromNonEmpty([], Split(rooted), absolute); }
      NormFrom([], NonEmpty(Split(root)) + tail, absolute);
      { NormFromAppend([], NonEmpty(Split(root)), tail, absolute); }
      NormFrom(NormFrom([], NonEmpty(Split(root)), absolute), tail, absolute);
      { NormFromNonEmpty([], Split(root), absolute); }
      NormFrom(Segments(root), tail, absolute);
      { if r != [] { NormFromOrdinary(Segments(root), r, absolute); } }
      Segments(root) + r;
    }
  }

  /** A request path that begins with `/../` is always refused, whatever follows. */
  lemma ParentFirstRefused(root: string, rest: string)
    ensures Resolve(root, "/../" + rest) == None
  {
    var path := "/../" + rest;
    assert path == "" + "/" + (".." + "/" + rest);
    SplitConcat("", ".." + "/" + rest);
    SplitConcat("..", rest);
    SplitNoSep("..");
    assert Split(path) == ["", ".."] + Split(rest);
    NormFromAppend([], ["", ".."], Split(rest), false);
    assert NormFrom([], ["", ".."], false) == [".."];
    NormFromKeepsParent([".."], Split(rest));
    EscapesIff(path);
  }

  /**
   * Appending an ordinary index name to a path that is empty or ends with `/`
   * makes that name the last component served.
   */
  lemma IndexIsLastComponent(path: string, index: string)
    requires path == "" || EndsWith(path, "/")
    requires Ordinary(index) && NoSep(index)
    ensures Components(path + index) != [] && Components(path + index)[|Components(path + index)| - 1] == index
  {
    SplitNoSep(index);
    var before: seq<string>;
    if path == "" {
      assert path + index == index;
      before := [];
      assert Split(path + index) == before + [index];
    } else {
      var p' := path[..|path| - 1];
      assert path + index == p' + "/" + index;
      SplitConcat(p', index);
      before := Split(p');
      assert Split(path + index) == before + [index];
    }
    NormFromAppend([], before, [index], false);
    NormFromOrdinary(NormFrom([], before, false), [index], false);
  }
}
