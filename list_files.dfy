/**
 * `list_files`: every entry a recursive scan of the base directory finds,
 * in `sorted()` order, minus the entries with a component that starts
 * with `.`, each written relative to the base with a `/` after the name
 * of a directory.
 *
 * The scan (`rglob("*")`) is an input: the entries it yields, each as its
 * components below the base and whether it is a directory, or the text of
 * the exception it raised.
 */
module ListTool {
  import opened Wrappers
  import opened Paths
  import opened ToolText

  /** One path yielded by the scan: its components relative to the base, and `is_dir()`. */
  datatype Entry = Entry(rel: seq<string>, isDir: bool)

  /** What a scan can yield: every component a non-empty name without `/`, at least one of them. */
  predicate WellFormed(e: Entry)
  {
    |e.rel| >= 1 && forall k :: 0 <= k < |e.rel| ==> e.rel[k] != "" && NoSlash(e.rel[k])
  }

  /** `part.startswith(".")` */
  predicate IsHidden(part: string)
  {
    |part| > 0 && part[0] == '.'
  }

  predicate AnyHidden(parts: seq<string>)
  {
    exists k :: 0 <= k < |parts| && IsHidden(parts[k])
  }

  /** The entry is listed: no component of the full path, base included, is hidden. */
  predicate Visible(base: seq<string>, e: Entry)
  {
    !AnyHidden(base + e.rel)
  }

  /** `str(rel_path)` plus the directory marker. The empty relative path prints as `.`. */
  function Render(e: Entry): string
  {
    (if e.rel == [] then "." else Join(e.rel)) + (if e.isDir then "/" else "")
  }

  /** Reads a listed name back into the entry it was rendered from. */
  function ParseName(name: string): Entry
  {
    if |name| > 0 && name[|name| - 1] == '/' then Entry(Split(name[..|name| - 1]), true)
    else Entry(Split(name), false)
  }

  /** A listed name ends with `/` exactly for a directory, and reads back as its entry. */
  lemma RenderRoundTrip(e: Entry)
    requires WellFormed(e)
    ensures var name := Render(e);
      && (|name| > 0 && name[|name| - 1] == '/' <==> e.isDir)
      && ParseName(name) == e
  {
    JoinEndsWithLast(e.rel);
    SplitJoin(e.rel);
    var name := Render(e);
    if e.isDir {
      assert name[..|name| - 1] == Join(e.rel);
    } else {
      assert name == Join(e.rel);
    }
  }

  // ---------------------------------------------------------------------
  // sorted()
  // ---------------------------------------------------------------------

  predicate SortedByPath(s: seq<Entry>)
  {
    forall a, b :: 0 <= a < b < |s| ==> PathLeq(s[a].rel, s[b].rel)
  }

  /** Places `e` before the first entry it does not follow, keeping equal paths in their order. */
  function Insert(e: Entry, s: seq<Entry>): (r: seq<Entry>)
    requires SortedByPath(s)
    ensures SortedByPath(r)
    ensures multiset(r) == multiset(s) + multiset{e}
  {
    if s == [] || PathLeq(e.rel, s[0].rel) then
      InsertAtFront(e, s);
      [e] + s
    else
      var t := Insert(e, s[1..]);
      InsertBehind(e, s, t);
      [s[0]] + t
  }

  lemma InsertAtFront(e: Entry, s: seq<Entry>)
    requires SortedByPath(s)
    requires s == [] || PathLeq(e.rel, s[0].rel)
    ensures SortedByPath([e] + s)
  {
    var r := [e] + s;
    forall a, b | 0 <= a < b < |r|
      ensures PathLeq(r[a].rel, r[b].rel)
    {
      if a == 0 && b > 1 {
        PathLeqTransitive(e.rel, s[0].rel, s[b - 1].rel);
      }
    }
  }

  /** `e` belongs after the head of `s`, so the head stays in front of `e` inserted into the tail. */
  lemma InsertBehind(e: Entry, s: seq<Entry>, t: seq<Entry>)
    requires SortedByPath(s) && s != [] && !PathLeq(e.rel, s[0].rel)
    requires SortedByPath(t) && multiset(t) == multiset(s[1..]) + multiset{e}
    ensures SortedByPath([s[0]] + t)
    ensures multiset([s[0]] + t) == multiset(s) + multiset{e}
  {
    PathLessTotal(e.rel, s[0].rel);
    var r := [s[0]] + t;
    forall a, b | 0 <= a < b < |r|
      ensures PathLeq(r[a].rel, r[b].rel)
    {
      if a == 0 {
        var y := t[b - 1];
        assert y in multiset(t);
        if y != e {
          assert y in multiset(s[1..]);
          var k :| 0 <= k < |s[1..]| && s[1..][k] == y;
          assert s[k + 1] == y;
        }
      }
    }
    assert s == [s[0]] + s[1..];
  }

  /** `sorted()`: a stable insertion sort on the paths. */
  function SortByPath(s: seq<Entry>): (r: seq<Entry>)
    ensures SortedByPath(r)
    ensures multiset(r) == multiset(s)
  {
    if s == [] then []
    else
      assert s == [s[0]] + s[1..];
      Insert(s[0], SortByPath(s[1..]))
  }

  // ---------------------------------------------------------------------
  // The listing
  // ---------------------------------------------------------------------

  /**
   * The entries the loop keeps, in order: those with no hidden component,
   * each as many times as the scan yields it.
   */
  function Kept(base: seq<string>, s: seq<Entry>): (r: seq<Entry>)
    ensures forall e :: e in r <==> e in s && Visible(base, e)
    ensures |r| <= |s|
  {
    if s == [] then []
    else
      var last := s[|s| - 1];
      assert s == s[..|s| - 1] + [last];
      Kept(base, s[..|s| - 1]) + (if Visible(base, last) then [last] else [])
  }

  /** Each visible entry is kept as many times as the scan yields it, and no hidden one is kept. */
  lemma {:induction false} KeptCounts(base: seq<string>, s: seq<Entry>)
    ensures forall e :: multiset(Kept(base, s))[e] == if Visible(base, e) then multiset(s)[e] else 0
  {
    if s != [] {
      var last := s[|s| - 1];
      var init := s[..|s| - 1];
      KeptCounts(base, init);
      assert s == init + [last];
      assert multiset(s) == multiset(init) + multiset{last};
    }
  }

  /** Keeping a subsequence keeps the order. */
  lemma {:induction false} KeptSorted(base: seq<string>, s: seq<Entry>)
    requires SortedByPath(s)
    ensures SortedByPath(Kept(base, s))
  {
    if s != [] {
      var init := s[..|s| - 1];
      var last := s[|s| - 1];
      assert SortedByPath(init);
      KeptSorted(base, init);
      var k := Kept(base, init);
      forall y | y in k
        ensures PathLeq(y.rel, last.rel)
      {
        var a :| 0 <= a < |init| && init[a] == y;
        assert s[a] == y;
      }
    }
  }

  /** Nothing is kept from a scan with no visible entry. */
  lemma {:induction false} KeptNone(base: seq<string>, s: seq<Entry>)
    requires forall e :: e in s ==> !Visible(base, e)
    ensures Kept(base, s) == []
  {
    if s != [] {
      KeptNone(base, s[..|s| - 1]);
    }
  }

  function RenderAll(s: seq<Entry>): (names: seq<string>)
    ensures |names| == |s|
    ensures forall k :: 0 <= k < |s| ==> names[k] == Render(s[k])
  {
    seq(|s|, k requires 0 <= k < |s| => Render(s[k]))
  }

  datatype ListResult =
    | Listed(names: seq<string>)
    | ListFailed(path: string, cause: string)

  /**
   * The text the tool hands back on failure: an error text that ends with
   * the exception's text. A success is the JSON array of `names`.
   */
  function FailureMessage(path: string, cause: string): (m: string)
    ensures IsErrorText(m)
    ensures |m| >= |cause| && m[|m| - |cause|..] == cause
  {
    var detail := "Failed to list files in '" + path + "': ";
    TaggedIsError(detail + cause);
    assert ErrorTag + detail + cause == ErrorTag + (detail + cause);
    ErrorTag + detail + cause
  }

  /**
   * What the tool returns, given what the scan of `path` yielded: a listing
   * exactly when the scan succeeded, at most one name per scanned entry;
   * otherwise the failure, carrying the path and the exception's text.
   */
  function ListSpec(path: string, scan: Result<seq<Entry>, string>): (r: ListResult)
    ensures r.Listed? <==> scan.Ok?
    ensures r.Listed? ==> |r.names| <= |scan.value|
    ensures r.ListFailed? ==> r.path == path && r.cause == scan.error
  {
    match scan
    case Err(cause) => ListFailed(path, cause)
    case Ok(entries) =>
      var sorted := SortByPath(entries);
      assert |sorted| == |multiset(sorted)| == |multiset(entries)| == |entries|;
      Listed(Listing(Components(path), sorted))
  }

  /**
   * The names the loop appends, in order: one for each visible entry, so
   * no more names than entries, and each the rendering of a visible entry.
   */
  function Listing(base: seq<string>, s: seq<Entry>): (r: seq<string>)
    ensures |r| <= |s|
    ensures forall n :: n in r ==> exists e :: e in s && Visible(base, e) && n == Render(e)
  {
    if s == [] then []
    else
      var last := s[|s| - 1];
      var init := s[..|s| - 1];
      assert forall e :: e in init ==> e in s;
      Listing(base, init) + (if Visible(base, last) then [Render(last)] else [])
  }

  /** One more entry scanned appends its name exactly when it is visible. */
  lemma ListingStep(base: seq<string>, s: seq<Entry>, i: nat)
    requires i < |s|
    ensures Listing(base, s[..i + 1]) == Listing(base, s[..i]) + if Visible(base, s[i]) then [Render(s[i])] else []
  {
    assert s[..i + 1][..i] == s[..i];
  }

  /** The names appended are the renderings of the kept entries. */
  lemma {:induction false} ListingIsRenderedKept(base: seq<string>, s: seq<Entry>)
    ensures Listing(base, s) == RenderAll(Kept(base, s))
  {
    if s != [] {
      var last := s[|s| - 1];
      ListingIsRenderedKept(base, s[..|s| - 1]);
      if Visible(base, last) {
        RenderAllAppend(Kept(base, s[..|s| - 1]), last);
      }
    }
  }

  lemma RenderAllAppend(s: seq<Entry>, e: Entry)
    ensures RenderAll(s + [e]) == RenderAll(s) + [Render(e)]
  {
  }

  /** The tool's loop: walk the sorted scan, skip hidden entries, append each rendered name. */
  method ListFiles(path: string, scan: Result<seq<Entry>, string>) returns (r: ListResult)
    ensures r == ListSpec(path, scan)
  {
    if scan.Err? {
      return ListFailed(path, scan.error);
    }
    var base := Components(path);
    var entries := SortByPath(scan.value);
    var files: seq<string> := [];
    var i := 0;
    while i < |entries|
      invariant 0 <= i <= |entries|
      invariant files == Listing(base, entries[..i])
    {
      var p := entries[i];
      ListingStep(base, entries, i);
      if !AnyHidden(base + p.rel) {
        files := files + [Render(p)];
      }
      i := i + 1;
    }
    assert entries[..i] == entries;
    return Listed(files);
  }

  // ---------------------------------------------------------------------
  // What the listing promises
  // ---------------------------------------------------------------------

  /**
   * Every visible scanned entry is listed, and every listed name is the
   * rendering of a visible scanned entry.
   */
  lemma ListsExactlyTheVisible(path: string, entries: seq<Entry>)
    ensures var names := ListSpec(path, Ok(entries)).names;
      && (forall e :: e in entries && Visible(Components(path), e) ==> Render(e) in names)
      && (forall n :: n in names ==> exists e :: e in entries && Visible(Components(path), e) && n == Render(e))
  {
    var sorted := SortByPath(entries);
    var kept := Kept(Components(path), sorted);
    var names := RenderAll(kept);
    ListingIsRenderedKept(Components(path), sorted);
    forall e | e in entries && Visible(Components(path), e)
      ensures Render(e) in names
    {
      assert e in multiset(entries);
      assert e in sorted;
      var k :| 0 <= k < |kept| && kept[k] == e;
      assert names[k] == Render(e);
    }
    forall n | n in names
      ensures exists e :: e in entries && Visible(Components(path), e) && n == Render(e)
    {
      var k :| 0 <= k < |names| && names[k] == n;
      assert kept[k] in sorted;
      assert kept[k] in multiset(sorted);
      assert kept[k] in entries;
    }
  }

  /**
   * The listing renders, in order, the scanned entries with no hidden
   * component, each exactly as many times as the scan yields it.
   */
  lemma ListsEachVisibleOnce(path: string, entries: seq<Entry>)
    ensures var kept := Kept(Components(path), SortByPath(entries));
      && ListSpec(path, Ok(entries)).names == RenderAll(kept)
      && forall e :: multiset(kept)[e] == if Visible(Components(path), e) then multiset(entries)[e] else 0
  {
    var sorted := SortByPath(entries);
    ListingIsRenderedKept(Components(path), sorted);
    KeptCounts(Components(path), sorted);
  }

  /**
   * On a well-formed scan, each listed name reads back as a scanned entry
   * none of whose components, nor any of the base's, starts with `.`, and
   * ends with `/` exactly when that entry is a directory.
   */
  lemma ListedNamesAreVisible(path: string, entries: seq<Entry>)
    requires forall e :: e in entries ==> WellFormed(e)
    ensures var names := ListSpec(path, Ok(entries)).names;
      forall n :: n in names ==>
        && ParseName(n) in entries
        && !AnyHidden(Components(path))
        && !AnyHidden(ParseName(n).rel)
        && (|n| > 0 && n[|n| - 1] == '/' <==> ParseName(n).isDir)
  {
    ListsExactlyTheVisible(path, entries);
    var base := Components(path);
    forall n | n in ListSpec(path, Ok(entries)).names
      ensures ParseName(n) in entries && !AnyHidden(base) && !AnyHidden(ParseName(n).rel)
      ensures |n| > 0 && n[|n| - 1] == '/' <==> ParseName(n).isDir
    {
      var e :| e in entries && Visible(base, e) && n == Render(e);
      RenderRoundTrip(e);
      HiddenInConcat(base, e.rel);
    }
  }

  /** A hidden component of either half is a hidden component of the whole. */
  lemma HiddenInConcat(a: seq<string>, b: seq<string>)
    ensures AnyHidden(a + b) <==> AnyHidden(a) || AnyHidden(b)
  {
    if AnyHidden(a) {
      var k :| 0 <= k < |a| && IsHidden(a[k]);
      assert (a + b)[k] == a[k];
    }
    if AnyHidden(b) {
      var k :| 0 <= k < |b| && IsHidden(b[k]);
      assert (a + b)[|a| + k] == b[k];
    }
    if AnyHidden(a + b) {
      var k :| 0 <= k < |a + b| && IsHidden((a + b)[k]);
      if k < |a| {
        assert a[k] == (a + b)[k];
      } else {
        assert b[k - |a|] == (a + b)[k];
      }
    }
  }

  /** A base with a hidden component, such as `../x`, lists nothing. */
  lemma HiddenBaseListsNothing(path: string, entries: seq<Entry>)
    requires AnyHidden(Components(path))
    ensures ListSpec(path, Ok(entries)) == Listed([])
  {
    var sorted := SortByPath(entries);
    var kept := Kept(Components(path), sorted);
    ListingIsRenderedKept(Components(path), sorted);
    forall e | e in sorted
      ensures !Visible(Components(path), e)
    {
      HiddenInConcat(Components(path), e.rel);
    }
    KeptNone(Components(path), sorted);
  }

  lemma ParentDirIsHidden()
    ensures Components("../x") == ["..", "x"]
    ensures AnyHidden(Components("../x"))
  {
    SplitNoSlash("..");
    SplitNoSlash("x");
    SplitAround("..", "x");
    assert ".." + "/" + "x" == "../x";
    assert IsHidden(Components("../x")[0]);
  }

  /**
   * On a well-formed scan the listing follows `sorted()` order, so a
   * directory is listed before everything below it.
   */
  lemma ListingIsSorted(path: string, entries: seq<Entry>)
    requires forall e :: e in entries ==> WellFormed(e)
    ensures var names := ListSpec(path, Ok(entries)).names;
      forall a, b :: 0 <= a < b < |names| ==> PathLeq(ParseName(names[a]).rel, ParseName(names[b]).rel)
    ensures var names := ListSpec(path, Ok(entries)).names;
      forall a, b ::
        (&& 0 <= a < |names| && 0 <= b < |names|
         && |ParseName(names[a]).rel| < |ParseName(names[b]).rel|
         && ParseName(names[a]).rel == ParseName(names[b]).rel[..|ParseName(names[a]).rel|])
        ==> a < b
  {
    var sorted := SortByPath(entries);
    var kept := Kept(Components(path), sorted);
    var names := RenderAll(kept);
    ListingIsRenderedKept(Components(path), sorted);
    KeptSorted(Components(path), sorted);
    forall k | 0 <= k < |kept|
      ensures ParseName(names[k]) == kept[k]
    {
      assert kept[k] in sorted;
      assert kept[k] in multiset(sorted);
      RenderRoundTrip(kept[k]);
    }
    forall a, b | 0 <= a < |names| && 0 <= b < |names| &&
        |ParseName(names[a]).rel| < |ParseName(names[b]).rel| &&
        ParseName(names[a]).rel == ParseName(names[b]).rel[..|ParseName(names[a]).rel|]
      ensures a < b
    {
      AncestorFirst(kept[a].rel, kept[b].rel);
      if b < a {
        PathLessAsymmetric(kept[a].rel, kept[b].rel);
      }
      assert a != b;
    }
  }

  /** An entry of the scan below is visible exactly when it lies outside `.hidden`. */
  lemma ProjectEntryVisible(e: Entry, hiddenDir: Entry, secret: Entry, visibleDir: Entry, public: Entry)
    requires hiddenDir == Entry([".hidden"], true) && secret == Entry([".hidden", "secret.txt"], false)
    requires visibleDir == Entry(["visible"], true) && public == Entry(["visible", "public.txt"], false)
    requires e == hiddenDir || e == secret || e == visibleDir || e == public
    ensures Visible([], e) <==> e == visibleDir || e == public
  {
    ShortPathVisible(e);
    assert IsHidden(".hidden") && !IsHidden("visible") && !IsHidden("public.txt");
  }

  lemma ShortPathVisible(e: Entry)
    requires 1 <= |e.rel| <= 2
    ensures Visible([], e) <==> !IsHidden(e.rel[0]) && (|e.rel| == 2 ==> !IsHidden(e.rel[1]))
  {
    assert [] + e.rel == e.rel;
  }

  /** The names of the two visible entries. */
  lemma ProjectNames(visibleDir: Entry, public: Entry)
    requires visibleDir == Entry(["visible"], true) && public == Entry(["visible", "public.txt"], false)
    ensures Render(visibleDir) == "visible/" && Render(public) == "visible/public.txt"
  {
    assert Join(public.rel) == "visible" + "/" + "public.txt";
  }

  /** Names rendered from the visible entries of that project never start with `.hidden`. */
  lemma ProjectNamesNotHidden(names: seq<string>, entries: seq<Entry>, hiddenDir: Entry, secret: Entry, visibleDir: Entry, public: Entry)
    requires hiddenDir == Entry([".hidden"], true) && secret == Entry([".hidden", "secret.txt"], false)
    requires visibleDir == Entry(["visible"], true) && public == Entry(["visible", "public.txt"], false)
    requires multiset(entries) == multiset{hiddenDir, secret, visibleDir, public}
    requires forall n :: n in names ==> exists e :: e in entries && Visible([], e) && n == Render(e)
    ensures forall n :: n in names ==> !(|n| >= 7 && n[..7] == ".hidden")
  {
    ProjectNames(visibleDir, public);
    forall n | n in names
      ensures !(|n| >= 7 && n[..7] == ".hidden")
    {
      var e :| e in entries && Visible([], e) && n == Render(e);
      assert e in multiset(entries);
      ProjectEntryVisible(e, hiddenDir, secret, visibleDir, public);
      assert n[0] == 'v';
    }
  }

  /**
   * A project holding `.hidden/secret.txt` and `visible/public.txt`,
   * listed from inside, in whatever order the scan finds them: both
   * visible entries appear, the directory marked, and nothing from the
   * hidden directory does.
   */
  lemma HiddenDirectoryScenario(path: string, entries: seq<Entry>, hiddenDir: Entry, secret: Entry, visibleDir: Entry, public: Entry)
    requires hiddenDir == Entry([".hidden"], true) && secret == Entry([".hidden", "secret.txt"], false)
    requires visibleDir == Entry(["visible"], true) && public == Entry(["visible", "public.txt"], false)
    requires path == "." && multiset(entries) == multiset{hiddenDir, secret, visibleDir, public}
    ensures var names := ListSpec(path, Ok(entries)).names;
      && "visible/" in names
      && "visible/public.txt" in names
      && forall n :: n in names ==> !(|n| >= 7 && n[..7] == ".hidden")
  {
    SplitNoSlash(path);
    var base := Components(path);
    assert base == [];
    var names := ListSpec(path, Ok(entries)).names;
    ListsExactlyTheVisible(path, entries);
    ProjectEntryVisible(visibleDir, hiddenDir, secret, visibleDir, public);
    ProjectEntryVisible(public, hiddenDir, secret, visibleDir, public);
    assert visibleDir in multiset(entries) && public in multiset(entries);
    ProjectNames(visibleDir, public);
    ProjectNamesNotHidden(names, entries, hiddenDir, secret, visibleDir, public);
  }
}
