/**
 * Path strings as `pathlib` sees them: the components between `/`
 * separators, `str()` of a relative path as its components joined by `/`,
 * and the order `sorted()` puts paths in — component by component, each
 * component compared code point by code point.
 */
module Paths {

  // ---------------------------------------------------------------------
  // Splitting and joining on '/'
  // ---------------------------------------------------------------------

  predicate NoSlash(s: string)
  {
    forall k :: 0 <= k < |s| ==> s[k] != '/'
  }

  /** `s.split("/")`: the pieces between separators, empty pieces included. */
  function Split(s: string): (parts: seq<string>)
    ensures |parts| >= 1
    ensures forall k :: 0 <= k < |parts| ==> NoSlash(parts[k])
  {
    if s == [] then [[]]
    else
      var rest := Split(s[1..]);
      if s[0] == '/' then [[]] + rest
      else [[s[0]] + rest[0]] + rest[1..]
  }

  /** `"/".join(parts)` */
  function Join(parts: seq<string>): string
  {
    if |parts| == 0 then ""
    else if |parts| == 1 then parts[0]
    else parts[0] + "/" + Join(parts[1..])
  }

  /** Joining the pieces of a split gives back the string. */
  lemma {:induction false} JoinSplit(s: string)
    ensures Join(Split(s)) == s
  {
    if s != [] {
      var rest := Split(s[1..]);
      JoinSplit(s[1..]);
      if s[0] == '/' {
        assert Split(s) == [[]] + rest;
        assert Split(s)[1..] == rest;
      } else {
        var parts := Split(s);
        assert parts[1..] == rest[1..];
        if |rest| == 1 {
          assert Join(rest) == rest[0];
        } else {
          assert Join(rest) == rest[0] + "/" + Join(rest[1..]);
        }
      }
    }
  }

  /** Splitting a join of slash-free pieces gives back the pieces. */
  lemma {:induction false} SplitJoin(parts: seq<string>)
    requires |parts| >= 1
    requires forall k :: 0 <= k < |parts| ==> NoSlash(parts[k])
    ensures Split(Join(parts)) == parts
  {
    if |parts| == 1 {
      SplitNoSlash(parts[0]);
    } else {
      SplitJoin(parts[1..]);
      SplitAround(parts[0], Join(parts[1..]));
      assert [parts[0]] + parts[1..] == parts;
    }
  }

  /** A slash-free string is one piece. */
  lemma {:induction false} SplitNoSlash(s: string)
    requires NoSlash(s)
    ensures Split(s) == [s]
  {
    if s != [] {
      SplitNoSlash(s[1..]);
      assert [s[0]] + s[1..] == s;
    }
  }

  /** Splitting `a + "/" + b` with a slash-free `a` gives `a` and then the pieces of `b`. */
  lemma {:induction false} SplitAround(a: string, b: string)
    requires NoSlash(a)
    ensures Split(a + "/" + b) == [a] + Split(b)
  {
    if a == [] {
      assert a + "/" + b == "/" + b;
      assert ("/" + b)[1..] == b;
    } else {
      var s := a + "/" + b;
      assert s[1..] == a[1..] + "/" + b;
      SplitAround(a[1..], b);
      assert [s[0]] + a[1..] == a;
    }
  }

  // ---------------------------------------------------------------------
  // Path components
  // ---------------------------------------------------------------------

  /**
   * `Path(path).parts` without its root: the pieces between separators,
   * with empty pieces and `.` pieces dropped. `..` is kept. The root (`/`)
   * is left out; it never starts with `.`.
   */
  function Components(path: string): (parts: seq<string>)
    ensures forall k :: 0 <= k < |parts| ==> parts[k] != "" && parts[k] != "." && NoSlash(parts[k])
    ensures forall p :: p in parts <==> p in Split(path) && p != "" && p != "."
  {
    Proper(Split(path))
  }

  function Proper(pieces: seq<string>): (parts: seq<string>)
    requires forall k :: 0 <= k < |pieces| ==> NoSlash(pieces[k])
    ensures |parts| <= |pieces|
    ensures forall k :: 0 <= k < |parts| ==> parts[k] != "" && parts[k] != "." && NoSlash(parts[k])
    ensures forall p :: p in parts <==> p in pieces && p != "" && p != "."
  {
    if pieces == [] then []
    else
      var rest := Proper(pieces[1..]);
      if pieces[0] == "" || pieces[0] == "." then rest else [pieces[0]] + rest
  }

  /** Proper pieces are kept as they are. */
  lemma {:induction false} ProperKeeps(parts: seq<string>)
    requires forall k :: 0 <= k < |parts| ==> parts[k] != "" && parts[k] != "." && NoSlash(parts[k])
    ensures Proper(parts) == parts
  {
    if parts != [] {
      ProperKeeps(parts[1..]);
      assert [parts[0]] + parts[1..] == parts;
    }
  }

  /**
   * `str(Path(path))`: the root `/` if the path has one, then the
   * components joined by `/`; `.` for a relative path with no components.
   * A trailing `/`, repeated `/` and `.` components are gone.
   */
  function PathStr(path: string): (p: string)
    ensures p != ""
    ensures path == "" ==> p == "."
  {
    var cs := Components(path);
    if |path| > 0 && path[0] == '/' then "/" + Join(cs)
    else if cs == [] then "."
    else Join(cs)
  }

  /** The first character of a join is the first character of its first piece. */
  lemma JoinStart(parts: seq<string>)
    requires |parts| >= 1 && parts[0] != ""
    ensures Join(parts) != "" && Join(parts)[0] == parts[0][0]
  {
  }

  /** `str(Path(...))` is canonical: normalising a normalised path changes nothing. */
  lemma PathStrCanonical(path: string)
    ensures PathStr(PathStr(path)) == PathStr(path)
  {
    var cs := Components(path);
    if |path| > 0 && path[0] == '/' {
      AbsoluteCanonical(cs);
    } else if cs == [] {
      SplitNoSlash(".");
    } else {
      RelativeCanonical(cs);
    }
  }

  lemma AbsoluteCanonical(cs: seq<string>)
    requires forall k :: 0 <= k < |cs| ==> cs[k] != "" && cs[k] != "." && NoSlash(cs[k])
    ensures Components("/" + Join(cs)) == cs
    ensures PathStr("/" + Join(cs)) == "/" + Join(cs)
  {
    var p := "/" + Join(cs);
    assert p == "" + "/" + Join(cs);
    SplitAround("", Join(cs));
    var pieces := [[]] + Split(Join(cs));
    assert Split(p) == pieces;
    assert pieces[1..] == Split(Join(cs));
    assert Proper(pieces) == Proper(Split(Join(cs)));
    if cs == [] {
      assert Split("") == [[]];
    } else {
      SplitJoin(cs);
      ProperKeeps(cs);
    }
    assert Components(p) == cs;
  }

  lemma RelativeCanonical(cs: seq<string>)
    requires cs != []
    requires forall k :: 0 <= k < |cs| ==> cs[k] != "" && cs[k] != "." && NoSlash(cs[k])
    ensures Components(Join(cs)) == cs
    ensures PathStr(Join(cs)) == Join(cs)
  {
    JoinStart(cs);
    SplitJoin(cs);
    ProperKeeps(cs);
  }

  /**
   * `str(Path(path))` names the same path: the same components, and a root
   * exactly when `path` has one.
   */
  lemma PathStrKeepsComponents(path: string)
    ensures Components(PathStr(path)) == Components(path)
    ensures PathStr(path)[0] == '/' <==> |path| > 0 && path[0] == '/'
  {
    var cs := Components(path);
    if |path| > 0 && path[0] == '/' {
      AbsoluteCanonical(cs);
    } else if cs == [] {
      SplitNoSlash(".");
    } else {
      RelativeCanonical(cs);
    }
  }

  /** The root is its own normal form. */
  lemma RootStr()
    ensures PathStr("/") == "/"
  {
    AbsoluteCanonical([]);
    assert "/" + Join([]) == "/";
  }

  /** `str(Path(".."))` is `..`: the parent of the working directory is kept, not resolved. */
  lemma UpStr()
    ensures PathStr("..") == ".."
  {
    assert NoSlash("..");
    RelativeCanonical([".."]);
    assert Join([".."]) == "..";
  }

  /** Splitting a string with a `/` appended gives one more, empty, piece. */
  lemma {:induction false} SplitTrailingSlash(s: string)
    ensures Split(s + "/") == Split(s) + [[]]
  {
    if s == [] {
      assert "" + "/" == "/";
    } else {
      SplitTrailingSlash(s[1..]);
      assert (s + "/")[1..] == s[1..] + "/";
    }
  }

  /** Empty pieces at the end leave no component. */
  lemma {:induction false} ProperDropsEmptyEnd(pieces: seq<string>)
    requires forall k :: 0 <= k < |pieces| ==> NoSlash(pieces[k])
    ensures Proper(pieces + [[]]) == Proper(pieces)
  {
    if pieces != [] {
      assert (pieces + [[]])[1..] == pieces[1..] + [[]];
      ProperDropsEmptyEnd(pieces[1..]);
    }
  }

  /** A trailing `/` names the same path: `Path("notes/") == Path("notes")`. */
  lemma PathStrDropsTrailingSlash(path: string)
    requires path != ""
    ensures PathStr(path + "/") == PathStr(path)
  {
    SplitTrailingSlash(path);
    ProperDropsEmptyEnd(Split(path));
    assert (path + "/")[0] == path[0];
  }

  /** The join of non-empty slash-free components ends with a character that is not `/`. */
  lemma {:induction false} JoinEndsWithLast(parts: seq<string>)
    requires |parts| >= 1
    requires forall k :: 0 <= k < |parts| ==> parts[k] != "" && NoSlash(parts[k])
    ensures |Join(parts)| > 0 && Join(parts)[|Join(parts)| - 1] != '/'
  {
    if |parts| > 1 {
      JoinEndsWithLast(parts[1..]);
      var j := Join(parts[1..]);
      assert Join(parts) == parts[0] + "/" + j;
      assert Join(parts)[|Join(parts)| - 1] == j[|j| - 1];
    } else {
      var p := parts[0];
      assert p[|p| - 1] != '/';
    }
  }

  /**
   * A normalised path never ends with `/`, except the root itself, so the
   * ancestors and the parent of a normalised path are those of the file or
   * directory it names.
   */
  lemma PathStrNoTrailingSlash(path: string)
    ensures var p := PathStr(path); p == "/" || p[|p| - 1] != '/'
  {
    var cs := Components(path);
    if cs != [] {
      JoinEndsWithLast(cs);
    }
  }

  // ---------------------------------------------------------------------
  // The order of sorted()
  // ---------------------------------------------------------------------

  /** Python's `a < b` on strings: code point by code point, a proper prefix first. */
  predicate StrLess(a: string, b: string)
  {
    if a == [] then b != []
    else if b == [] then false
    else a[0] < b[0] || (a[0] == b[0] && StrLess(a[1..], b[1..]))
  }

  lemma {:induction false} StrLessIrreflexive(a: string)
    ensures !StrLess(a, a)
  {
    if a != [] {
      StrLessIrreflexive(a[1..]);
    }
  }

  lemma {:induction false} StrLessTransitive(a: string, b: string, c: string)
    requires StrLess(a, b) && StrLess(b, c)
    ensures StrLess(a, c)
  {
    if a != [] && a[0] == b[0] && b[0] == c[0] {
      StrLessTransitive(a[1..], b[1..], c[1..]);
    }
  }

  lemma {:induction false} StrLessTotal(a: string, b: string)
    ensures a == b || StrLess(a, b) || StrLess(b, a)
  {
    if a != [] && b != [] && a[0] == b[0] {
      StrLessTotal(a[1..], b[1..]);
      if a[1..] == b[1..] {
        assert a == [a[0]] + a[1..] && b == [b[0]] + b[1..];
      }
    }
  }

  /** Python's `a < b` on the component lists of two paths. */
  predicate PathLess(a: seq<string>, b: seq<string>)
  {
    if a == [] then b != []
    else if b == [] then false
    else StrLess(a[0], b[0]) || (a[0] == b[0] && PathLess(a[1..], b[1..]))
  }

  predicate PathLeq(a: seq<string>, b: seq<string>)
  {
    a == b || PathLess(a, b)
  }

  lemma {:induction false} PathLessIrreflexive(a: seq<string>)
    ensures !PathLess(a, a)
  {
    if a != [] {
      StrLessIrreflexive(a[0]);
      PathLessIrreflexive(a[1..]);
    }
  }

  lemma {:induction false} PathLessTransitive(a: seq<string>, b: seq<string>, c: seq<string>)
    requires PathLess(a, b) && PathLess(b, c)
    ensures PathLess(a, c)
  {
    if a != [] {
      if StrLess(a[0], b[0]) && StrLess(b[0], c[0]) {
        StrLessTransitive(a[0], b[0], c[0]);
      } else if a[0] == b[0] && b[0] == c[0] {
        PathLessTransitive(a[1..], b[1..], c[1..]);
      }
    }
  }

  lemma {:induction false} PathLessTotal(a: seq<string>, b: seq<string>)
    ensures a == b || PathLess(a, b) || PathLess(b, a)
  {
    if a != [] && b != [] {
      StrLessTotal(a[0], b[0]);
      if a[0] == b[0] {
        PathLessTotal(a[1..], b[1..]);
        if a[1..] == b[1..] {
          assert a == [a[0]] + a[1..] && b == [b[0]] + b[1..];
        }
      }
    }
  }

  /** The path order is a strict total order: never both ways. */
  lemma PathLessAsymmetric(a: seq<string>, b: seq<string>)
    requires PathLess(a, b)
    ensures !PathLess(b, a)
  {
    if PathLess(b, a) {
      PathLessTransitive(a, b, a);
      PathLessIrreflexive(a);
    }
  }

  lemma PathLeqTransitive(a: seq<string>, b: seq<string>, c: seq<string>)
    requires PathLeq(a, b) && PathLeq(b, c)
    ensures PathLeq(a, c)
  {
    if a != b && b != c {
      PathLessTransitive(a, b, c);
    }
  }

  /** A directory comes before everything below it. */
  lemma {:induction false} AncestorFirst(a: seq<string>, b: seq<string>)
    requires |a| < |b| && a == b[..|a|]
    ensures PathLess(a, b)
  {
    if a != [] {
      assert a[1..] == b[1..][..|a| - 1];
      AncestorFirst(a[1..], b[1..]);
    }
  }
}
