/**
 * The POSIX string operations the resolver uses: `str.split('/')`,
 * `'/'.join`, `os.path.join` and `os.path.normpath`, all purely lexical.
 */
module PosixPath {
  import opened Http

  /** A path component: text without a separator. */
  predicate NoSep(s: string)
  {
    forall i :: 0 <= i < |s| ==> s[i] != '/'
  }

  /** A component that normalisation keeps as it is: not empty, not `.`, not `..`. */
  predicate Ordinary(c: string)
  {
    c != "" && c != "." && c != ".."
  }

  /** `s.split('/')`. */
  function Split(s: string): (parts: seq<string>)
    ensures |parts| >= 1
    ensures forall p :: p in parts ==> NoSep(p)
    decreases |s|
  {
    if s == [] then [""]
    else
      var rest := Split(s[1..]);
      if s[0] == '/' then [""] + rest
      else
        assert rest[0] in rest && forall p :: p in rest[1..] ==> p in rest;
        [[s[0]] + rest[0]] + rest[1..]
  }

  /** `'/'.join(parts)`. */
  function JoinSlash(parts: seq<string>): string
    decreases |parts|
  {
    if parts == [] then ""
    else if |parts| == 1 then parts[0]
    else parts[0] + "/" + JoinSlash(parts[1..])
  }

  /** `os.path.join(a, b)` on POSIX. */
  function Join(a: string, b: string): string
  {
    if StartsWith(b, "/") then b
    else if a == "" || EndsWith(a, "/") then a + b
    else a + "/" + b
  }

  /** `os.path.join(*parts)`. */
  function JoinAll(parts: seq<string>): string
    requires |parts| >= 1
    decreases |parts|
  {
    if |parts| == 1 then parts[0] else Join(JoinAll(parts[..|parts| - 1]), parts[|parts| - 1])
  }

  /** `parts` without its empty strings. */
  function NonEmpty(parts: seq<string>): seq<string>
    decreases |parts|
  {
    if parts == [] then []
    else if parts[0] == "" then NonEmpty(parts[1..])
    else [parts[0]] + NonEmpty(parts[1..])
  }

  /** One iteration of the component loop of `normpath`. */
  function NormStep(acc: seq<string>, comp: string, absolute: bool): seq<string>
  {
    if comp == "" || comp == "." then acc
    else if comp != ".." || (!absolute && acc == []) || (acc != [] && acc[|acc| - 1] == "..") then acc + [comp]
    else if acc != [] then acc[..|acc| - 1]
    else acc
  }

  /** The component loop of `normpath`, continuing from `acc`. */
  function NormFrom(acc: seq<string>, comps: seq<string>, absolute: bool): seq<string>
    decreases |comps|
  {
    if comps == [] then acc else NormFrom(NormStep(acc, comps[0], absolute), comps[1..], absolute)
  }

  /** The number of leading slashes `normpath` keeps. */
  function InitialSlashes(p: string): nat
  {
    if StartsWith(p, "//") && !StartsWith(p, "///") then 2
    else if StartsWith(p, "/") then 1
    else 0
  }

  /** `os.path.normpath(p)` on POSIX. */
  function NormPath(p: string): string
  {
    if p == "" then "."
    else
      var initial := InitialSlashes(p);
      var comps := NormFrom([], Split(p), initial > 0);
      var path := (if initial == 2 then "//" else if initial == 1 then "/" else "") + JoinSlash(comps);
      if path == "" then "." else path
  }

  /** The components `normpath` leaves, before they are joined. */
  function Segments(p: string): seq<string>
  {
    NormFrom([], Split(p), StartsWith(p, "/"))
  }

  /**
   * The shape normalisation of a relative path keeps: no empty or `.`
   * component, and every `..` before every other component.
   */
  predicate Normal(r: seq<string>)
  {
    && (forall i :: 0 <= i < |r| ==> r[i] != "" && r[i] != "." && NoSep(r[i]))
    && (forall i, j :: 0 <= i < j < |r| && r[j] == ".." ==> r[i] == "..")
  }

  // ---------------------------------------------------------------- split

  lemma {:induction false} SplitNoSep(s: string)
    requires NoSep(s)
    ensures Split(s) == [s]
    decreases |s|
  {
    if s != [] {
      SplitNoSep(s[1..]);
      assert [s[0]] + s[1..] == s;
    }
  }

  /** Splitting at an inserted separator splits both sides. */
  lemma {:induction false} SplitConcat(a: string, b: string)
    ensures Split(a + "/" + b) == Split(a) + Split(b)
    decreases |a|
  {
    if a == [] {
      assert a + "/" + b == "/" + b;
      assert ("/" + b)[1..] == b;
    } else {
      assert (a + "/" + b)[1..] == a[1..] + "/" + b;
      SplitConcat(a[1..], b);
    }
  }

  /** Splitting a join of components gives the components back. */
  lemma {:induction false} SplitJoinSlash(parts: seq<string>)
    requires |parts| >= 1
    requires forall i :: 0 <= i < |parts| ==> NoSep(parts[i])
    ensures Split(JoinSlash(parts)) == parts
    decreases |parts|
  {
    if |parts| == 1 {
      SplitNoSep(parts[0]);
    } else {
      SplitNoSep(parts[0]);
      SplitJoinSlash(parts[1..]);
      SplitConcat(parts[0], JoinSlash(parts[1..]));
      assert [parts[0]] + parts[1..] == parts;
    }
  }

  // ---------------------------------------------------------------- empties

  lemma {:induction false} NonEmptyAppend(a: seq<string>, b: seq<string>)
    ensures NonEmpty(a + b) == NonEmpty(a) + NonEmpty(b)
    decreases |a|
  {
    if a == [] {
      assert a + b == b;
    } else {
      assert (a + b)[1..] == a[1..] + b;
      NonEmptyAppend(a[1..], b);
    }
  }

  lemma {:induction false} NonEmptyOfNonEmpties(a: seq<string>)
    requires forall i :: 0 <= i < |a| ==> a[i] != ""
    ensures NonEmpty(a) == a
    decreases |a|
  {
    if a != [] {
      NonEmptyOfNonEmpties(a[1..]);
      assert [a[0]] + a[1..] == a;
    }
  }

  /** Normalisation ignores empty components. */
  lemma {:induction false} NormFromNonEmpty(acc: seq<string>, comps: seq<string>, absolute: bool)
    ensures NormFrom(acc, comps, absolute) == NormFrom(acc, NonEmpty(comps), absolute)
    decreases |comps|
  {
    if comps != [] {
      NormFromNonEmpty(NormStep(acc, comps[0], absolute), comps[1..], absolute);
      if comps[0] != "" {
        assert ([comps[0]] + NonEmpty(comps[1..]))[1..] == NonEmpty(comps[1..]);
      }
    }
  }

  // ---------------------------------------------------------------- join

  /**
   * Joining a path that does not start with a separator keeps the non-empty
   * components of both sides, in order.
   */
  lemma JoinComponents(a: string, b: string)
    requires !StartsWith(b, "/")
    ensures NonEmpty(Split(Join(a, b))) == NonEmpty(Split(a)) + NonEmpty(Split(b))
  {
    if a == "" {
      assert Join(a, b) == b;
    } else if EndsWith(a, "/") {
      var a' := a[..|a| - 1];
      assert a == a' + "/" + "";
      assert Join(a, b) == a' + "/" + b;
      SplitConcat(a', b);
      SplitConcat(a', "");
      NonEmptyAppend(Split(a'), Split(b));
      NonEmptyAppend(Split(a'), [""]);
    } else {
      SplitConcat(a, b);
      NonEmptyAppend(Split(a), Split(b));
    }
  }

  /**
   * `os.path.join(*s.split('/'))` keeps the non-empty components of `s` and
   * never starts with a separator.
   */
  lemma {:induction false} JoinAllComponents(parts: seq<string>)
    requires |parts| >= 1
    requires forall i :: 0 <= i < |parts| ==> NoSep(parts[i])
    ensures NonEmpty(Split(JoinAll(parts))) == NonEmpty(parts)
    ensures !StartsWith(JoinAll(parts), "/")
    decreases |parts|
  {
    var last := parts[|parts| - 1];
    SplitNoSep(last);
    if |parts| == 1 {
      assert parts == [last];
    } else {
      var init := parts[..|parts| - 1];
      JoinAllComponents(init);
      assert !StartsWith(last, "/") by {
        if |last| >= 1 { assert last[0] != '/'; }
      }
      JoinComponents(JoinAll(init), last);
      assert init + [last] == parts;
      NonEmptyAppend(init, [last]);
    }
  }

  // ---------------------------------------------------------------- normalisation

  lemma {:induction false} NormFromAppend(acc: seq<string>, a: seq<string>, b: seq<string>, absolute: bool)
    ensures NormFrom(acc, a + b, absolute) == NormFrom(NormFrom(acc, a, absolute), b, absolute)
    decreases |a|
  {
    if a == [] {
      assert a + b == b;
    } else {
      assert (a + b)[1..] == a[1..] + b;
      NormFromAppend(NormStep(acc, a[0], absolute), a[1..], b, absolute);
    }
  }

  /** Ordinary components are appended unchanged. */
  lemma {:induction false} NormFromOrdinary(acc: seq<string>, comps: seq<string>, absolute: bool)
    requires forall i :: 0 <= i < |comps| ==> Ordinary(comps[i])
    ensures NormFrom(acc, comps, absolute) == acc + comps
    decreases |comps|
  {
    if comps != [] {
      NormFromOrdinary(acc + [comps[0]], comps[1..], absolute);
      assert acc + [comps[0]] + comps[1..] == acc + comps;
    }
  }

  /** Each loop iteration keeps the shape of a normalised relative path. */
  lemma NormStepNormal(acc: seq<string>, comp: string)
    requires Normal(acc) && NoSep(comp)
    ensures Normal(NormStep(acc, comp, false))
  {
    var r := NormStep(acc, comp, false);
    if comp == ".." && (acc == [] || acc[|acc| - 1] == "..") {
      assert r == acc + [".."];
      forall i | 0 <= i < |r| - 1 ensures r[i] == ".." {
        assert r[i] == acc[i];
        if i < |acc| - 1 { assert acc[|acc| - 1] == ".."; }
      }
    }
  }

  /** A relative path normalises to a list whose `..` components come first. */
  lemma {:induction false} NormFromNormal(acc: seq<string>, comps: seq<string>)
    requires Normal(acc)
    requires forall i :: 0 <= i < |comps| ==> NoSep(comps[i])
    ensures Normal(NormFrom(acc, comps, false))
    decreases |comps|
  {
    if comps != [] {
      NormStepNormal(acc, comps[0]);
      NormFromNormal(NormStep(acc, comps[0], false), comps[1..]);
    }
  }

  /** A leading `..` of a relative path is never removed. */
  lemma {:induction false} NormFromKeepsParent(acc: seq<string>, comps: seq<string>)
    requires acc != [] && acc[0] == ".."
    ensures NormFrom(acc, comps, false) != [] && NormFrom(acc, comps, false)[0] == ".."
    decreases |comps|
  {
    if comps != [] {
      var next := NormStep(acc, comps[0], false);
      assert next != [] && next[0] == "..";
      NormFromKeepsParent(next, comps[1..]);
    }
  }

  /** A join of components starts with the first component. */
  lemma {:induction false} JoinSlashPrefix(parts: seq<string>)
    requires |parts| >= 1
    ensures StartsWith(JoinSlash(parts), parts[0])
    ensures |parts| > 1 ==> |JoinSlash(parts)| > |parts[0]| && JoinSlash(parts)[|parts[0]|] == '/'
    decreases |parts|
  {
    if |parts| > 1 {
      var s := JoinSlash(parts);
      assert s == parts[0] + "/" + JoinSlash(parts[1..]);
      assert s[..|parts[0]|] == parts[0];
    }
  }
}
