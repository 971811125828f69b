/**
 * `edit_file`: one guarded change to one text file. Exactly one of three
 * things happens — create a missing file, append to an existing one, or
 * replace the single non-overlapping occurrence of `old_str` — and every
 * other situation is reported as an error without writing the file.
 * The file is the one `Path(path)` names; its text is read with line
 * ends folded, as `read_text` reads it.
 */
module EditTool {
  import opened Wrappers
  import opened PyStr
  import opened Paths
  import opened Fs
  import opened ToolText
  import ReadTool

  datatype EditResult =
    | Edited
    | CreatedFile(path: string)
    | InvalidInput
    | OldStrNotFound
    | OldStrNotUnique(count: nat)
    | UnexpectedError(cause: OsError)

  const SuccessPrefix := "Successfully created and wrote to new file "

  /**
   * The text the tool hands back to its caller. The caller can tell the
   * outcome from the text alone: "OK" means an edit of an existing file
   * and nothing else, and the "Error: " tag marks exactly the outcomes
   * that changed no file.
   */
  function Message(r: EditResult): (m: string)
    ensures m == "OK" <==> r == Edited
    ensures IsErrorText(m) <==> !(r.Edited? || r.CreatedFile?)
  {
    match r
    case Edited => "OK"
    case CreatedFile(path) =>
      KeepsPrefix(SuccessPrefix, path, |ErrorTag|);
      assert (SuccessPrefix + path)[..|ErrorTag|][0] == SuccessPrefix[0] != ErrorTag[0];
      assert (SuccessPrefix + path)[0] != "OK"[0];
      SuccessPrefix + path
    case _ =>
      TaggedIsError(ErrorDetail(r));
      assert (ErrorTag + ErrorDetail(r))[0] != "OK"[0];
      ErrorTag + ErrorDetail(r)
  }

  /** What follows the error tag in the text of a failed edit. */
  function ErrorDetail(r: EditResult): string
    requires !(r.Edited? || r.CreatedFile?)
  {
    match r
    case InvalidInput => "Invalid input parameters. Path cannot be empty and old_str must differ from new_str."
    case OldStrNotFound => "old_str not found in file."
    case OldStrNotUnique(count) => "old_str found " + NatToDecimal(count) + " times, must be unique for safety."
    case UnexpectedError(cause) => "An unexpected error occurred: " + CauseText(cause)
  }

  /**
   * The new text of an existing file: `new_str` appended when `old_str` is
   * empty, otherwise the one greedy match replaced; a count other than one
   * is refused.
   */
  function NewContent(content: string, oldStr: string, newStr: string): (r: Result<string, EditResult>)
    ensures r.Ok? <==> oldStr == "" || Count(content, oldStr) == 1
    ensures r.Err? ==> r.error == OldStrNotFound || r.error.OldStrNotUnique?
  {
    if oldStr == "" then Ok(content + newStr)
    else
      var n := Count(content, oldStr);
      if n == 0 then Err(OldStrNotFound)
      else if n > 1 then Err(OldStrNotUnique(n))
      else Ok(ReplaceFirst(content, oldStr, newStr))
  }

  /**
   * The uniqueness guard on a non-empty `old_str`: the new text exists
   * exactly when the greedy count is one, and is then the leftmost match
   * replaced; "not found" exactly when `old_str` does not occur; "not
   * unique", with the count, exactly when two non-overlapping occurrences
   * exist.
   */
  lemma UniqueTargetDecision(content: string, oldStr: string, newStr: string)
    requires oldStr != ""
    ensures var r := NewContent(content, oldStr, newStr);
      && (r.Ok? <==> Count(content, oldStr) == 1)
      && (r.Ok? ==> r.value == ReplaceFirst(content, oldStr, newStr))
      && (r == Err(OldStrNotFound) <==> forall j :: !OccursAt(content, oldStr, j))
      && (r.Err? && r.error.OldStrNotUnique? <==> TwoDisjointOccurrences(content, oldStr))
      && (r.Err? && r.error.OldStrNotUnique? ==> r.error.count == Count(content, oldStr) && r.error.count >= 2)
  {
    CountZeroIffAbsent(content, oldStr);
    CountAtLeastTwo(content, oldStr);
  }

  /** The final whole-file write and the "OK" it earns. */
  function Commit(fs: FileSystem, file: string, text: string): (out: (EditResult, FileSystem))
    ensures out.0 == Edited || (out.0.UnexpectedError? && out.1 == fs)
  {
    match WriteText(fs, file, text)
    case Err(e) => (UnexpectedError(e), fs)
    case Ok(fs') => (Edited, fs')
  }

  /**
   * The tool on a filesystem: its result and the filesystem afterwards.
   * An empty path or a no-op edit, and only those, is refused before the
   * filesystem is touched.
   */
  function EditFile(fs: FileSystem, path: string, oldStr: string, newStr: string): (out: (EditResult, FileSystem))
    ensures out.0 == InvalidInput <==> path == "" || oldStr == newStr
    ensures out.0 == InvalidInput ==> out.1 == fs
  {
    if path == "" || oldStr == newStr then (InvalidInput, fs)
    else
      var file := PathStr(path);
      match MakeParents(fs, file)
      case Err(e) => (UnexpectedError(e), fs)
      case Ok(fs1) =>
        if !fs1.Exists(file) && oldStr == "" then
          match WriteText(fs1, file, newStr)
          case Err(e) => (UnexpectedError(e), fs1)
          case Ok(fs2) => (CreatedFile(path), fs2)
        else
          match ReadText(fs1, file)
          case Err(e) => (UnexpectedError(e), fs1)
          case Ok(content) =>
            match NewContent(content, oldStr, newStr)
            case Err(refusal) => (refusal, fs1)
            case Ok(text) => Commit(fs1, file, text)
  }

  /**
   * Only the file `path` names can change, and only when the tool
   * succeeds; besides it, at most its missing ancestor directories are
   * created.
   */
  lemma TouchesOnlyPath(fs: FileSystem, path: string, oldStr: string, newStr: string)
    ensures var file := PathStr(path);
      var out := EditFile(fs, path, oldStr, newStr);
      && (forall p :: p != file ==> (p in out.1.files <==> p in fs.files))
      && (forall p :: p != file && p in fs.files ==> out.1.files[p] == fs.files[p])
      && fs.dirs <= out.1.dirs <= fs.dirs + Ancestors(file)
      && (out.1.files != fs.files ==> out.0 == Edited || out.0 == CreatedFile(path))
  {
    var file := PathStr(path);
    if path != "" && oldStr != newStr && MakeParents(fs, file).Ok? {
      var fs1 := MakeParents(fs, file).value;
      if !fs1.Exists(file) && oldStr == "" {
        assert fs1.files == fs.files;
      } else if ReadText(fs1, file).Ok? {
        var d := NewContent(ReadText(fs1, file).value, oldStr, newStr);
        if d.Ok? {
          assert EditFile(fs, path, oldStr, newStr) == Commit(fs1, file, d.value);
        }
      }
    }
  }

  /**
   * With an empty `old_str` and nothing at the file `path` names, the
   * file is created holding exactly `new_str`, with its missing parent
   * directories; the read tool then returns `new_str`, line ends folded.
   */
  lemma CreatesMissingFile(fs: FileSystem, path: string, newStr: string)
    requires path != "" && newStr != ""
    requires var file := PathStr(path); !fs.Exists(file) && Ancestors(file) !! fs.files.Keys
    ensures var file := PathStr(path);
      EditFile(fs, path, "", newStr)
      == (CreatedFile(path), FileSystem(fs.files[file := newStr], fs.dirs + Ancestors(file)))
    ensures ReadTool.ReadFile(EditFile(fs, path, "", newStr).1, path) == ReadTool.Contents(FoldNewlines(newStr))
  {
    var file := PathStr(path);
    var fs1 := MakeParents(fs, file).value;
    assert file !in Ancestors(file);
    assert WriteText(fs1, file, newStr).Ok?;
  }

  /**
   * On an existing file of a valid filesystem, creating the parents and
   * reading succeed, and the edit writes the new text decided on the
   * folded contents or reports the refusal, changing nothing.
   */
  lemma EditsExistingFile(fs: FileSystem, path: string, oldStr: string, newStr: string)
    requires fs.Valid() && PathStr(path) in fs.files && oldStr != newStr
    ensures var file := PathStr(path);
      var d := NewContent(FoldNewlines(fs.files[file]), oldStr, newStr);
      EditFile(fs, path, oldStr, newStr) == if d.Ok? then (Edited, fs.(files := fs.files[file := d.value])) else (d.error, fs)
  {
    var file := PathStr(path);
    assert path != "";
    assert !AlwaysDir(file) && file !in fs.dirs;
    assert MakeParents(fs, file) == Ok(fs) by {
      assert fs.dirs + Ancestors(file) == fs.dirs;
    }
    assert ReadText(fs, file) == Ok(FoldNewlines(fs.files[file]));
  }

  /** With an empty `old_str` and an existing file, `new_str` is appended to its folded contents. */
  lemma AppendsToExistingFile(fs: FileSystem, path: string, newStr: string)
    requires fs.Valid() && PathStr(path) in fs.files && newStr != ""
    ensures var file := PathStr(path);
      EditFile(fs, path, "", newStr) == (Edited, fs.(files := fs.files[file := FoldNewlines(fs.files[file]) + newStr]))
  {
    EditsExistingFile(fs, path, "", newStr);
  }

  /**
   * A non-empty `old_str` needs an existing file: reading the missing file
   * fails, the failure is reported, and no file is created.
   */
  lemma MissingFileIsNotCreated(fs: FileSystem, path: string, oldStr: string, newStr: string)
    requires path != "" && oldStr != "" && oldStr != newStr
    requires var file := PathStr(path); !fs.Exists(file) && Ancestors(file) !! fs.files.Keys
    ensures EditFile(fs, path, oldStr, newStr).0 == UnexpectedError(FileNotFoundError)
    ensures EditFile(fs, path, oldStr, newStr).1.files == fs.files
  {
    var file := PathStr(path);
    assert file !in Ancestors(file);
    var fs1 := MakeParents(fs, file).value;
    assert !fs1.Exists(file) && fs1.files == fs.files;
    assert ReadText(fs1, file) == Err(FileNotFoundError);
    assert EditFile(fs, path, oldStr, newStr) == (UnexpectedError(FileNotFoundError), fs1);
  }

  /**
   * The uniqueness guard on a file. On an existing file and a non-empty
   * `old_str`, the edit succeeds exactly when the greedy count in the
   * folded contents is one; it reports "not found" exactly when `old_str`
   * does not occur and "not unique", with the count, exactly when two
   * non-overlapping occurrences exist. Every refusal leaves the filesystem
   * as it was.
   */
  lemma ReplacesOnlyUniqueTarget(fs: FileSystem, path: string, oldStr: string, newStr: string)
    requires fs.Valid() && PathStr(path) in fs.files
    requires oldStr != "" && oldStr != newStr
    ensures var content := FoldNewlines(fs.files[PathStr(path)]);
      var r := EditFile(fs, path, oldStr, newStr).0;
      && (r == Edited <==> Count(content, oldStr) == 1)
      && (r == OldStrNotFound <==> forall j :: !OccursAt(content, oldStr, j))
      && (r.OldStrNotUnique? <==> TwoDisjointOccurrences(content, oldStr))
      && (r.OldStrNotUnique? ==> r.count == Count(content, oldStr) && r.count >= 2)
    ensures EditFile(fs, path, oldStr, newStr).0 != Edited ==> EditFile(fs, path, oldStr, newStr).1 == fs
    ensures var file := PathStr(path);
      EditFile(fs, path, oldStr, newStr).0 == Edited ==>
      EditFile(fs, path, oldStr, newStr).1 == fs.(files := fs.files[file := ReplaceFirst(FoldNewlines(fs.files[file]), oldStr, newStr)])
  {
    EditsExistingFile(fs, path, oldStr, newStr);
    UniqueTargetDecision(FoldNewlines(fs.files[PathStr(path)]), oldStr, newStr);
  }

  /**
   * A target holding a carriage return is never found: the text is read
   * with its line ends folded, so no `"\r"` is left to match.
   */
  lemma CarriageReturnNeverFound(fs: FileSystem, path: string, oldStr: string, newStr: string)
    requires fs.Valid() && PathStr(path) in fs.files
    requires '\r' in oldStr && oldStr != newStr
    ensures EditFile(fs, path, oldStr, newStr) == (OldStrNotFound, fs)
  {
    var content := FoldNewlines(fs.files[PathStr(path)]);
    assert forall j :: !OccursAt(content, oldStr, j);
    ReplacesOnlyUniqueTarget(fs, path, oldStr, newStr);
  }

  /**
   * A successful replacement splices `new_str` in at the leftmost
   * occurrence of `old_str`, keeps the text on either side of it, and
   * splicing `old_str` back at the same place restores the folded
   * original.
   */
  lemma ReplacementSplicesAtLeftmost(fs: FileSystem, path: string, oldStr: string, newStr: string)
    requires fs.Valid() && PathStr(path) in fs.files
    requires oldStr != "" && oldStr != newStr
    requires EditFile(fs, path, oldStr, newStr).0 == Edited
    ensures var file := PathStr(path);
      var content := FoldNewlines(fs.files[file]);
      var i := FindFirst(content, oldStr);
      && i.Some? && OccursAt(content, oldStr, i.value)
      && (forall j :: 0 <= j < i.value ==> !OccursAt(content, oldStr, j))
      && var files := EditFile(fs, path, oldStr, newStr).1.files;
      && file in files
      && var after := files[file];
      && after == content[..i.value] + newStr + content[i.value + |oldStr|..]
      && content == after[..i.value] + oldStr + after[i.value + |newStr|..]
  {
    ReplacesOnlyUniqueTarget(fs, path, oldStr, newStr);
    var content := FoldNewlines(fs.files[PathStr(path)]);
    assert Count(content, oldStr) == 1;
    ReplaceFirstUndo(content, oldStr, newStr);
  }

  /**
   * The `"aaa"` case: `"aa"` occurs at two overlapping positions, the
   * greedy count is one, so the edit applies to the leftmost occurrence.
   */
  lemma OverlappingTargetIsReplaced(fs: FileSystem, path: string, newStr: string)
    requires fs.Valid() && PathStr(path) in fs.files && fs.files[PathStr(path)] == "aaa"
    requires newStr != "aa"
    ensures EditFile(fs, path, "aa", newStr) == (Edited, fs.(files := fs.files[PathStr(path) := newStr + "a"]))
  {
    FoldKeepsPlainText("aaa");
    OverlappingOccurrencesCountOnce(newStr);
    ReplacesOnlyUniqueTarget(fs, path, "aa", newStr);
  }

  /**
   * Three edits in a row on a fresh file of any valid filesystem: create
   * it holding `a`, append `b`, then replace `a`, which `b` does not
   * contain, by `c`; the read tool returns `c + b`.
   */
  lemma CreateAppendReplace(fs: FileSystem, path: string, a: string, b: string, c: string)
    requires fs.Valid() && path != ""
    requires var file := PathStr(path); !fs.Exists(file) && Ancestors(file) !! fs.files.Keys
    requires a != "" && b != "" && c != a
    requires '\r' !in a && '\r' !in b && '\r' !in c
    requires forall j :: !OccursAt(b, a, j)
    ensures var out1 := EditFile(fs, path, "", a);
      var out2 := EditFile(out1.1, path, "", b);
      var out3 := EditFile(out2.1, path, a, c);
      && out1.0 == CreatedFile(path) && out2.0 == Edited && out3.0 == Edited
      && ReadTool.ReadFile(out3.1, path) == ReadTool.Contents(c + b)
  {
    var file := PathStr(path);
    CreatesMissingFile(fs, path, a);
    PreservesValid(fs, path, "", a);
    var fs1 := EditFile(fs, path, "", a).1;
    assert file in fs1.files && fs1.files[file] == a;
    FoldKeepsPlainText(a);
    AppendsToExistingFile(fs1, path, b);
    PreservesValid(fs1, path, "", b);
    var fs2 := EditFile(fs1, path, "", b).1;
    assert file in fs2.files && fs2.files[file] == a + b;
    LeadingOccurrenceUnique(a, b, c);
    FoldKeepsPlainText(a + b);
    WritesDecidedText(fs2, path, a, c, c + b);
    FoldKeepsPlainText(c + b);
  }

  /** When the decision on an existing file is a new text, the read tool then returns it. */
  lemma WritesDecidedText(fs: FileSystem, path: string, oldStr: string, newStr: string, text: string)
    requires fs.Valid() && PathStr(path) in fs.files && oldStr != newStr
    requires NewContent(FoldNewlines(fs.files[PathStr(path)]), oldStr, newStr) == Ok(text)
    ensures var out := EditFile(fs, path, oldStr, newStr);
      && out.0 == Edited
      && ReadTool.ReadFile(out.1, path) == ReadTool.Contents(FoldNewlines(text))
  {
    EditsExistingFile(fs, path, oldStr, newStr);
  }

  /**
   * The notes scenario: on a fresh file, "hello", then " world" appended,
   * then "hello" replaced by "HI", reads back as "HI world".
   */
  lemma NotesScenario(fs: FileSystem, path: string)
    requires fs.Valid() && path != ""
    requires var file := PathStr(path); !fs.Exists(file) && Ancestors(file) !! fs.files.Keys
    ensures var out1 := EditFile(fs, path, "", "hello");
      var out2 := EditFile(out1.1, path, "", " world");
      var out3 := EditFile(out2.1, path, "hello", "HI");
      && out1.0 == CreatedFile(path) && out2.0 == Edited && out3.0 == Edited
      && ReadTool.ReadFile(out3.1, path) == ReadTool.Contents("HI world")
  {
    NotesTexts();
    CreateAppendReplace(fs, path, "hello", " world", "HI");
  }

  /** The three texts of the notes scenario meet what the general case asks of them. */
  lemma NotesTexts()
    ensures "hello" != "" && " world" != "" && "HI" != "hello"
    ensures '\r' !in "hello" && '\r' !in " world" && '\r' !in "HI"
    ensures forall j :: !OccursAt(" world", "hello", j)
    ensures "HI" + " world" == "HI world"
  {
    assert " world"[0..5][0] != 'h' && " world"[1..6][0] != 'h';
  }

  /**
   * A trailing `/` names the same file: the edit leaves the same
   * filesystem and reaches the same outcome, up to the path a creation
   * message repeats.
   */
  lemma TrailingSlashEditsSameFile(fs: FileSystem, path: string, oldStr: string, newStr: string)
    requires path != ""
    ensures var r := EditFile(fs, path + "/", oldStr, newStr);
      var q := EditFile(fs, path, oldStr, newStr);
      && r.1 == q.1
      && (r.0 == CreatedFile(path + "/") <==> q.0 == CreatedFile(path))
      && (!r.0.CreatedFile? ==> r.0 == q.0)
  {
    PathStrDropsTrailingSlash(path);
    SameFileSameEdit(fs, path + "/", path, oldStr, newStr);
  }

  /** Two spellings of one file edit alike. */
  lemma SameFileSameEdit(fs: FileSystem, p: string, q: string, oldStr: string, newStr: string)
    requires p != "" && q != "" && PathStr(p) == PathStr(q)
    ensures var r := EditFile(fs, p, oldStr, newStr);
      var s := EditFile(fs, q, oldStr, newStr);
      && r.1 == s.1
      && (r.0 == CreatedFile(p) <==> s.0 == CreatedFile(q))
      && (!r.0.CreatedFile? ==> r.0 == s.0)
  {
    var file := PathStr(p);
    if oldStr != newStr && MakeParents(fs, file).Ok? {
      var fs1 := MakeParents(fs, file).value;
      if !fs1.Exists(file) && oldStr == "" {
        var fs2 := WriteText(fs1, file, newStr).value;
        assert EditFile(fs, p, oldStr, newStr) == (CreatedFile(p), fs2);
        assert EditFile(fs, q, oldStr, newStr) == (CreatedFile(q), fs2);
      } else {
        assert EditFile(fs, p, oldStr, newStr) == EditFile(fs, q, oldStr, newStr);
      }
    }
  }

  /**
   * The root `/` always exists and is a directory: reading it fails, so
   * every edit of it is an unexpected error that changes nothing.
   */
  lemma RootIsNeverEdited(fs: FileSystem, oldStr: string, newStr: string)
    requires fs.Valid() && oldStr != newStr
    ensures EditFile(fs, "/", oldStr, newStr) == (UnexpectedError(IsADirectoryError), fs)
  {
    RootStr();
    assert Ancestors("/") == {};
    assert MakeParents(fs, "/") == Ok(fs) by {
      assert fs.dirs + Ancestors("/") == fs.dirs;
    }
  }

  /**
   * The parent `..` of the working directory always exists and is a
   * directory: every edit of it is an unexpected error that changes nothing.
   */
  lemma ParentDirIsNeverEdited(fs: FileSystem, oldStr: string, newStr: string)
    requires fs.Valid() && oldStr != newStr
    ensures EditFile(fs, "..", oldStr, newStr) == (UnexpectedError(IsADirectoryError), fs)
  {
    UpStr();
    assert Ancestors("..") == {};
    assert MakeParents(fs, "..") == Ok(fs) by {
      assert fs.dirs + Ancestors("..") == fs.dirs;
    }
  }

  /** Every edit, successful or not, keeps a valid filesystem valid. */
  lemma PreservesValid(fs: FileSystem, path: string, oldStr: string, newStr: string)
    requires fs.Valid()
    ensures EditFile(fs, path, oldStr, newStr).1.Valid()
  {
    var file := PathStr(path);
    if path != "" && oldStr != newStr && MakeParents(fs, file).Ok? {
      MakeParentsPreservesValid(fs, file);
      var fs1 := MakeParents(fs, file).value;
      if !fs1.Exists(file) && oldStr == "" {
        if WriteText(fs1, file, newStr).Ok? {
          WritePreservesValid(fs1, file, newStr);
        }
      } else if ReadText(fs1, file).Ok? {
        var d := NewContent(ReadText(fs1, file).value, oldStr, newStr);
        if d.Ok? && WriteText(fs1, file, d.value).Ok? {
          WritePreservesValid(fs1, file, d.value);
        }
      }
    }
  }
}
