/**
 * An abstract filesystem: the text of every regular file, keyed by its
 * path as `str(Path(...))` writes it, and the set of directory paths.
 * The three `pathlib` calls the toolbelt makes on it are modelled here as
 * functions from the old filesystem to a result: `Path.read_text`,
 * `Path.write_text` and `Path.parent.mkdir(parents=True, exist_ok=True)`.
 * Writing stores the text as given (`"\n"` is the line separator written).
 */
module Fs {
  import opened Wrappers

  /** The exception classes those calls raise. Their message text is not modelled. */
  datatype OsError =
    | FileNotFoundError
    | IsADirectoryError
    | NotADirectoryError
    | FileExistsError

  /** The `strerror` part of the exception's message. */
  function CauseText(e: OsError): string
  {
    match e
    case FileNotFoundError => "[Errno 2] No such file or directory"
    case IsADirectoryError => "[Errno 21] Is a directory"
    case NotADirectoryError => "[Errno 20] Not a directory"
    case FileExistsError => "[Errno 17] File exists"
  }

  /** `Path("")` and `Path(".")` both name the working directory, which always exists. */
  predicate IsWorkingDir(path: string)
  {
    path == "" || path == "."
  }

  /**
   * The working directory, its parent `..` and the root `/`: directories
   * that always exist.
   */
  predicate AlwaysDir(path: string)
  {
    IsWorkingDir(path) || path == ".." || path == "/"
  }

  /** The directories strictly above `path`: each prefix that ends just before a `/` (the root excluded). */
  function Ancestors(path: string): (a: set<string>)
    ensures forall d :: d in a ==> 0 < |d| < |path| && d == path[..|d|] && path[|d|] == '/'
    ensures forall d :: 0 < |d| < |path| && d == path[..|d|] && path[|d|] == '/' ==> d in a
  {
    set i | 0 < i < |path| && path[i] == '/' :: path[..i]
  }

  /** An ancestor's ancestors are ancestors too. */
  lemma AncestorsNested(path: string, d: string)
    requires d in Ancestors(path)
    ensures Ancestors(d) <= Ancestors(path)
  {
    var i :| 0 < i < |path| && path[i] == '/' && d == path[..i];
    forall e | e in Ancestors(d)
      ensures e in Ancestors(path)
    {
      var j :| 0 < j < |d| && d[j] == '/' && e == d[..j];
      assert path[j] == '/' && e == path[..j];
    }
  }

  /** The index of the last `/` in `path`, if any. */
  function LastSlash(path: string): (k: Option<nat>)
    ensures k.Some? ==> k.value < |path| && path[k.value] == '/'
    ensures k.Some? ==> forall j :: k.value < j < |path| ==> path[j] != '/'
    ensures k.None? ==> forall j :: 0 <= j < |path| ==> path[j] != '/'
  {
    if |path| == 0 then None
    else if path[|path| - 1] == '/' then Some(|path| - 1)
    else LastSlash(path[..|path| - 1])
  }

  /**
   * `Path(path).parent` when it is a directory other than the root or the
   * working directory: the longest ancestor.
   */
  function Parent(path: string): (p: Option<string>)
    ensures p.Some? ==> p.value in Ancestors(path)
    ensures p.Some? ==> forall d :: d in Ancestors(path) ==> |d| <= |p.value|
    ensures p.None? ==> Ancestors(path) == {}
  {
    match LastSlash(path)
    case Some(k) =>
      if k > 0 then Some(path[..k])
      else
        assert forall i :: 0 < i < |path| ==> path[i] != '/';
        None
    case None => None
  }

  datatype FileSystem = FileSystem(files: map<string, string>, dirs: set<string>)
  {
    /** `Path(path).is_dir()` */
    predicate IsDir(path: string)
    {
      path in dirs || AlwaysDir(path)
    }

    /** `Path(path).exists()` */
    predicate Exists(path: string)
    {
      path in files || IsDir(path)
    }

    /**
     * A filesystem that could exist: nothing is both a file and a
     * directory, none of the directories that always exist is a file, and
     * every file and directory sits in directories.
     */
    ghost predicate Valid()
    {
      && files.Keys !! dirs
      && (forall p :: p in files ==> !AlwaysDir(p) && Ancestors(p) <= dirs)
      && (forall d :: d in dirs ==> Ancestors(d) <= dirs)
    }
  }

  /**
   * The universal-newlines translation that text-mode reading applies:
   * every `"\r\n"` and every lone `"\r"` becomes `"\n"`.
   */
  function FoldNewlines(s: string): (r: string)
    ensures '\r' !in r
    ensures |r| <= |s|
  {
    if s == [] then []
    else if s[0] == '\r' then
      if |s| >= 2 && s[1] == '\n' then "\n" + FoldNewlines(s[2..]) else "\n" + FoldNewlines(s[1..])
    else [s[0]] + FoldNewlines(s[1..])
  }

  /** Text without a carriage return reads back unchanged. */
  lemma {:induction false} FoldKeepsPlainText(s: string)
    requires '\r' !in s
    ensures FoldNewlines(s) == s
  {
    if s != [] {
      assert forall c :: c in s[1..] ==> c in s;
      FoldKeepsPlainText(s[1..]);
      assert [s[0]] + s[1..] == s;
    }
  }

  /** Folding twice is folding once: what a read returns reads back as itself. */
  lemma FoldIdempotent(s: string)
    ensures FoldNewlines(FoldNewlines(s)) == FoldNewlines(s)
  {
    FoldKeepsPlainText(FoldNewlines(s));
  }

  /**
   * Folding works piece by piece: text cut anywhere except just after a
   * `'\r'` folds as its two pieces folded apart.
   */
  lemma {:induction false} FoldAppend(a: string, b: string)
    requires a == [] || a[|a| - 1] != '\r'
    ensures FoldNewlines(a + b) == FoldNewlines(a) + FoldNewlines(b)
  {
    if a == [] {
      assert a + b == b;
    } else if a[0] == '\r' {
      if a[1] == '\n' {
        assert (a + b)[2..] == a[2..] + b;
        FoldAppend(a[2..], b);
      } else {
        assert (a + b)[1..] == a[1..] + b;
        FoldAppend(a[1..], b);
      }
    } else {
      assert (a + b)[1..] == a[1..] + b;
      FoldAppend(a[1..], b);
    }
  }

  /**
   * Each line end, Windows or classic Mac, folds to exactly one `"\n"`,
   * whatever text follows it.
   */
  lemma FoldLineEnds(b: string)
    ensures FoldNewlines("\r\n" + b) == "\n" + FoldNewlines(b)
    ensures b == [] || b[0] != '\n' ==> FoldNewlines("\r" + b) == "\n" + FoldNewlines(b)
  {
    assert ("\r\n" + b)[2..] == b;
    assert ("\r" + b)[1..] == b;
  }

  /** Both Windows and classic Mac line ends come back as `"\n"`. */
  lemma FoldExample()
    ensures FoldNewlines("a\r\nb\rc\n") == "a\nb\nc\n"
  {
    assert "a\r\nb\rc\n"[1..][2..] == "b\rc\n";
    assert "b\rc\n"[1..][1..] == "c\n";
  }

  /** A Windows line end folds to one line feed. */
  lemma FoldWindowsLine()
    ensures FoldNewlines("a\r\nb") == "a\nb"
  {
    assert "a\r\nb"[1..][2..] == "b";
  }

  /** `Path(path).read_text()`: the stored text with its line ends folded. */
  function ReadText(fs: FileSystem, path: string): (r: Result<string, OsError>)
    ensures r.Ok? <==> path in fs.files
    ensures r.Ok? ==> r.value == FoldNewlines(fs.files[path])
    ensures r == Err(FileNotFoundError) <==> !fs.Exists(path) && Ancestors(path) !! fs.files.Keys
  {
    if path in fs.files then Ok(FoldNewlines(fs.files[path]))
    else if fs.IsDir(path) then Err(IsADirectoryError)
    else if Ancestors(path) !! fs.files.Keys then Err(FileNotFoundError)
    else Err(NotADirectoryError)
  }

  /** `Path(path).write_text(text)`: replaces or creates the whole file in one write. */
  function WriteText(fs: FileSystem, path: string, text: string): (r: Result<FileSystem, OsError>)
    ensures r.Ok? <==> !fs.IsDir(path) && Ancestors(path) !! fs.files.Keys && Ancestors(path) <= fs.dirs
    ensures r.Ok? ==> r.value.files.Keys == fs.files.Keys + {path} && r.value.dirs == fs.dirs
    ensures r.Ok? ==> forall p :: p in fs.files && p != path ==> r.value.files[p] == fs.files[p]
  {
    if fs.IsDir(path) then Err(IsADirectoryError)
    else if !(Ancestors(path) !! fs.files.Keys) then Err(NotADirectoryError)
    else if !(Ancestors(path) <= fs.dirs) then Err(FileNotFoundError)
    else Ok(fs.(files := fs.files[path := text]))
  }

  /**
   * `Path(path).parent.mkdir(parents=True, exist_ok=True)`: creates every
   * missing ancestor directory; fails when a file stands where one of them
   * should be.
   */
  function MakeParents(fs: FileSystem, path: string): (r: Result<FileSystem, OsError>)
    ensures r.Ok? <==> Ancestors(path) !! fs.files.Keys
    ensures r.Ok? ==> r.value.files == fs.files && r.value.dirs == fs.dirs + Ancestors(path)
    ensures r.Err? ==> r.error in {FileExistsError, NotADirectoryError}
  {
    if Ancestors(path) !! fs.files.Keys then Ok(fs.(dirs := fs.dirs + Ancestors(path)))
    else if Parent(path).Some? && Parent(path).value in fs.files then Err(FileExistsError)
    else Err(NotADirectoryError)
  }

  /**
   * Reading back a file just written gives the text written, line ends
   * folded; exactly the text written when it holds no carriage return.
   */
  lemma ReadAfterWrite(fs: FileSystem, path: string, text: string)
    requires WriteText(fs, path, text).Ok?
    ensures ReadText(WriteText(fs, path, text).value, path) == Ok(FoldNewlines(text))
    ensures '\r' !in text ==> ReadText(WriteText(fs, path, text).value, path) == Ok(text)
  {
    if '\r' !in text {
      FoldKeepsPlainText(text);
    }
  }

  /** A successful write keeps a valid filesystem valid. */
  lemma WritePreservesValid(fs: FileSystem, path: string, text: string)
    requires fs.Valid() && WriteText(fs, path, text).Ok?
    ensures WriteText(fs, path, text).value.Valid()
  {
    var fs' := WriteText(fs, path, text).value;
    assert path !in fs.dirs;
    assert fs'.files.Keys == fs.files.Keys + {path};
  }

  /** Creating the parent directories keeps a valid filesystem valid. */
  lemma MakeParentsPreservesValid(fs: FileSystem, path: string)
    requires fs.Valid() && MakeParents(fs, path).Ok?
    ensures MakeParents(fs, path).value.Valid()
  {
    var fs' := MakeParents(fs, path).value;
    forall d | d in fs'.dirs
      ensures Ancestors(d) <= fs'.dirs
    {
      if d in Ancestors(path) {
        AncestorsNested(path, d);
      }
    }
  }
}
