# codegen-demo toolbelt, modelled in Dafny

The toolbelt is four operations that a language-model agent calls on its
working directory. Each returns one string: a result or a readable error
message. The four operations:

- `read_file` returns a file's text.
- `list_files` lists a directory tree, leaving out hidden entries.
- `bash` runs a shell command and reports its output or its failure.
- `edit_file` creates a file, appends to it, or replaces the single
  occurrence of a target string.

The two source files `tools.py` and `main.py` hold the same four functions
line for line. The model follows `tools.py`. `main.py:41-148` has the
same logic.

The working directory is a value, `Fs.FileSystem`. It holds a map from
file path to stored text and a set of directory paths. The keys are paths
as `str(Path(...))` writes them: `Paths.PathStr` drops a trailing `/`,
repeated `/` and `.` components, and turns `""` into `.`. The root `/`, the
working directory `.` and its parent `..` are always directories, whatever
the value lists. Three `pathlib`
calls act on the filesystem as functions from the old value to a result:

- `read_text` is `Fs.ReadText`. It folds Windows (`"\r\n"`) and classic Mac
  (`"\r"`) line ends to `"\n"`, as text-mode reading does (`Fs.FoldNewlines`).
- `write_text` is `Fs.WriteText`. It stores the text as given.
- `parent.mkdir(parents=True, exist_ok=True)` is `Fs.MakeParents`.

`edit_file` is a function from the filesystem to its result and the new
filesystem. Lemmas can then chain calls and relate the states.

`list_files` is an imperative loop in the source, and stays one here.
`ListTool.ListFiles` walks the sorted scan with a `while` loop and appends
names. It is proved equal to the specification `ListTool.ListSpec`. The
properties of the listing are proved about `ListSpec`.

All error texts start with the same tag, `"Error: "` (`ToolText.IsErrorText`).
The `bash` tool's failure text does not start with it.

The Python builtins that the decisions rest on are modelled explicitly in
`PyStr` and `Paths`:

- `str.count` counts greedily and without overlaps; an empty pattern
  counts `len + 1`.
- `str.replace(old, new, 1)`.
- `str.strip` uses Python's whitespace set.
- `str(int)`.
- `Path.parts` and `str(Path(...))`.
- `sorted()` orders paths component by component.

## Model

| member | source | states |
|---|---|---|
| PyStr.FindFirst | tools.py:128 | the index returned holds an occurrence and no earlier index does; no index when there is no occurrence |
| PyStr.Count | tools.py:121 | the empty pattern counts length + 1 |
| PyStr.CountZeroIffAbsent | tools.py:121-123 | the count is zero exactly when the pattern never occurs |
| PyStr.CountTwoHasDisjointPair | tools.py:121-127 | a count of two or more comes from two non-overlapping occurrences |
| PyStr.DisjointPairCountsTwo | tools.py:121-127 | two non-overlapping occurrences anywhere make the greedy count at least two |
| PyStr.CountAtLeastTwo | tools.py:121-127 | the greedy count is at least two exactly when two non-overlapping occurrences exist anywhere |
| PyStr.CountIsOne | tools.py:121-128 | the count is one exactly when the pattern occurs and no two occurrences are disjoint |
| PyStr.GreedyMatchesCounted | tools.py:121 | the matches `count` finds, each searched for after the previous one, are non-overlapping occurrences, exactly as many as the count |
| PyStr.NonOverlappingAtMostCount | tools.py:121 | no list of non-overlapping occurrences is longer than the greedy count |
| PyStr.CountAtLeast | tools.py:121-127 | for every k, the count is at least k exactly when k non-overlapping occurrences exist: the count is the largest number of them |
| PyStr.ReplaceFirst | tools.py:128 | with no occurrence the text is unchanged; an empty pattern puts the replacement in front |
| PyStr.ReplaceFirstAtLeftmost | tools.py:128 | the replacement splices in at the leftmost occurrence; the length changes by the difference of the two strings |
| PyStr.ReplaceFirstUndo | tools.py:128 | splicing the old string back at the same index restores the original text |
| PyStr.LeadingOccurrenceUnique | tools.py:121-128 | a text that starts with the pattern and holds no other occurrence counts it once, and the replacement swaps that leading occurrence |
| PyStr.OverlappingOccurrencesCountOnce | tools.py:121-128 | `"aa"` occurs at 0 and at 1 in `"aaa"`, yet counts once, and the replacement leaves `new + "a"` |
| PyStr.StripLeading | tools.py:77 | the result is a suffix, the dropped prefix is whitespace, and the result does not start with whitespace |
| PyStr.StripTrailing | tools.py:77 | the result is a prefix, the dropped suffix is whitespace, and the result does not end with whitespace |
| PyStr.Strip | tools.py:77 | the result is no longer than the input, and neither its first nor its last character is whitespace |
| PyStr.StripIsTrimmedSlice | tools.py:77 | `strip` keeps one contiguous slice and drops only whitespace around it |
| PyStr.StripAroundCore | tools.py:77 | whitespace around a core that neither starts nor ends with whitespace is removed, and the core is kept whole |
| PyStr.StripIdempotent | tools.py:77 | stripping twice gives the same as stripping once |
| PyStr.NatToDecimal | tools.py:126 | the digits read back as the number, with no leading zero |
| PyStr.IntToDecimal | tools.py:84 | the canonical decimal text: it reads back as the integer, a minus sign exactly for negatives, no leading zero except for `"0"` itself |
| Paths.Split | tools.py:49 | splitting on `/` gives at least one piece and no piece contains `/` |
| Paths.JoinSplit | tools.py:51-52 | joining (`Join`) the pieces of a split gives the string back |
| Paths.SplitJoin | tools.py:51-52 | splitting a join (`Join`) of slash-free components gives the components back |
| Paths.Components | tools.py:45-49 | the components of `Path(path).parts` other than the root: exactly the pieces between slashes that are neither empty nor `.`, none containing `/` |
| Paths.PathStr | tools.py:103 | `str(Path(path))` is never empty, and the empty path becomes `.` |
| Paths.PathStrKeepsComponents | tools.py:103 | `str(Path(path))` has the same components as `path`, and starts at the root exactly when `path` does |
| Paths.RootStr | tools.py:103 | `str(Path("/"))` is `/` |
| Paths.UpStr | tools.py:103 | `str(Path(".."))` is `..`: the parent of the working directory is not resolved away |
| Paths.PathStrCanonical | tools.py:103 | normalising a normalised path changes nothing |
| Paths.PathStrDropsTrailingSlash | tools.py:103 | a trailing `/` names the same path: `path + "/"` and `path` normalise alike |
| Paths.PathStrNoTrailingSlash | tools.py:103-109 | a normalised path never ends with `/`, except the root itself |
| Paths.StrLessIrreflexive | tools.py:47 | no string sorts before itself (`StrLess`, Python's `<` on strings) |
| Paths.StrLessTransitive | tools.py:47 | the string order `StrLess` is transitive |
| Paths.StrLessTotal | tools.py:47 | of two different strings one sorts first under `StrLess` |
| Paths.PathLessIrreflexive | tools.py:47 | no path sorts before itself (`PathLess`, Python's `<` on component lists) |
| Paths.PathLessTransitive | tools.py:47 | the path order `PathLess` is transitive |
| Paths.PathLessTotal | tools.py:47 | of two different paths one sorts first under `PathLess` |
| Paths.PathLessAsymmetric | tools.py:47 | two paths never sort before each other |
| Paths.AncestorFirst | tools.py:47 | a path sorts before every path below it |
| Fs.Ancestors | tools.py:109 | the ancestors of a path are exactly its non-empty proper prefixes that a `/` follows |
| Fs.Parent | tools.py:109 | `Path.parent`, when it is a real directory, is the longest proper ancestor of the path |
| Fs.FoldNewlines | tools.py:22 | universal-newline folding leaves no carriage return and never lengthens the text; `FoldAppend` and `FoldLineEnds` fix what it does to each line end |
| Fs.FoldAppend | tools.py:22 | text cut anywhere but just after a `\r` folds as its two pieces folded apart |
| Fs.FoldLineEnds | tools.py:22 | `"\r\n"`, and a `"\r"` not followed by `"\n"`, each fold to exactly one `"\n"`, whatever text follows |
| Fs.FoldKeepsPlainText | tools.py:22 | a text without a carriage return reads back unchanged |
| Fs.FoldIdempotent | tools.py:22 | folding twice is folding once |
| Fs.FoldExample | tools.py:22 | `"a\r\nb\rc\n"` reads as `"a\nb\nc\n"` |
| Fs.ReadText | tools.py:22 | reading succeeds exactly for a file and returns its stored text with line ends folded; `FileNotFoundError` exactly when nothing is there and no file sits on the way |
| Fs.WriteText | tools.py:113 | writing fails for a directory, below a file, or below a missing directory; otherwise only that one file changes |
| Fs.MakeParents | tools.py:109 | creating the parents succeeds exactly when no ancestor is a file, and adds exactly the ancestors |
| Fs.ReadAfterWrite | tools.py:113-116 | reading back a file just written gives the written text with line ends folded, and exactly the written text when it has no carriage return |
| Fs.WritePreservesValid | tools.py:130 | a successful write keeps the filesystem well formed |
| Fs.MakeParentsPreservesValid | tools.py:109 | creating the parents keeps the filesystem well formed |
| ReadTool.ReadFile | tools.py:18-30 | on the file `Path(path)` names: its folded contents exactly when it exists; "not found" exactly when nothing is there and no file is on the way; every other failure carries a cause other than not-found; error results carry the path as given |
| ReadTool.Message | tools.py:24-30 | the contents come back as they are, and every failure is an error text |
| ReadTool.ReadFileAfterWrite | tests/test_tools.py:10-17 | a file written with a text reads back through the tool as that text, line ends folded, and exactly as written when it has no carriage return |
| ReadTool.ReadFileFoldsLineEnds | tools.py:22 | a file stored as `"a\r\nb"` reads through the tool as `"a\nb"` |
| ReadTool.TrailingSlashReadsSameFile | tools.py:22-30 | a trailing `/` names the same file: the same contents, or the same failure with the same cause |
| ReadTool.ParentDirIsFailedRead | tools.py:18-30 | on any well-formed filesystem, `read_file("..")` is a failed read with `IsADirectoryError`, never "not found" |
| ReadTool.DirectoryIsFailedRead | tools.py:28-30 | a directory, with or without a trailing `/`, is a failed read with `IsADirectoryError`, not "not found" |
| ReadTool.ReadFileErrors | tools.py:25-30 | the not-found message for a missing path; the failed-read message with its cause for a path below a file or a directory |
| EditTool.Message | tools.py:96-135 | the text is "OK" exactly for an edit of an existing file, and is an error text exactly for the outcomes that wrote nothing |
| EditTool.NewContent | tools.py:118-128 | the new text exists exactly when `old_str` is empty or counted once; every refusal is "not found" or "not unique" |
| EditTool.UniqueTargetDecision | tools.py:120-128 | on a non-empty `old_str`: new text exactly on a count of one, and then the leftmost match replaced; "not found" exactly when it never occurs; "not unique", with a count of two or more, exactly when two disjoint occurrences exist |
| EditTool.Commit | tools.py:130-132 | the final write either succeeds with "OK" or leaves the filesystem as it was |
| EditTool.EditFile | tools.py:94-135 | the invalid-input outcome comes exactly for an empty path or equal old and new strings, and then the filesystem is untouched |
| EditTool.TouchesOnlyPath | tools.py:94-135 | every other path keeps its file and text; directories only grow, and only by the path's ancestors; files change only on a successful edit or create |
| EditTool.EditsExistingFile | tools.py:108-132 | on an existing file the parents and the read succeed, and the edit writes the text decided on the folded contents or returns the refusal with the filesystem unchanged |
| EditTool.CreatesMissingFile | tools.py:109-114 | an empty old string on a missing file creates it and its parents; its text is exactly the new string, and `read_file` returns that text, line ends folded |
| EditTool.AppendsToExistingFile | tools.py:116-132 | an empty old string on an existing file makes its text the folded old text followed by the new string, and reports an edit |
| EditTool.MissingFileIsNotCreated | tools.py:108-135 | a non-empty old string on a missing file reports the read failure as unexpected and creates no file |
| EditTool.ReplacesOnlyUniqueTarget | tools.py:120-132 | the edit applies exactly when the count in the folded contents is one; "not found" exactly when there is no occurrence; "not unique" with the count exactly when two disjoint occurrences exist; every refusal leaves the filesystem unchanged |
| EditTool.CarriageReturnNeverFound | tools.py:116-123 | an `old_str` holding a carriage return is never found, because the text is read with its line ends folded; the filesystem is left as it was |
| EditTool.ReplacementSplicesAtLeftmost | tools.py:128 | a successful replacement splices the new string in at the leftmost occurrence, and splicing the old string back restores the folded contents |
| EditTool.OverlappingTargetIsReplaced | tools.py:121-132 | replacing `"aa"` in `"aaa"` succeeds and leaves `new + "a"` |
| EditTool.WritesDecidedText | tools.py:116-132 | when the decision on an existing file is a new text, the edit reports "OK" and `read_file` then returns that text |
| EditTool.CreateAppendReplace | tools.py:109-132 | on a fresh file: create with `a`, append `b`, replace `a` by `c`; each step succeeds and `read_file` returns `c + b` |
| EditTool.NotesScenario | tools.py:109-132 | "hello", then " world" appended, then "hello" replaced by "HI" reads back as "HI world" |
| EditTool.SameFileSameEdit | tools.py:103-135 | two spellings of one path edit alike: the same filesystem afterwards and the same outcome, up to the path the creation message repeats |
| EditTool.TrailingSlashEditsSameFile | tools.py:103-135 | `edit_file("notes/", ...)` does to the filesystem exactly what `edit_file("notes", ...)` does |
| EditTool.RootIsNeverEdited | tools.py:109-135 | on any well-formed filesystem, `edit_file("/", old, new)` reads a directory and reports `IsADirectoryError`, changing nothing |
| EditTool.ParentDirIsNeverEdited | tools.py:109-135 | on any well-formed filesystem, `edit_file("..", old, new)` reads a directory and reports `IsADirectoryError`, changing nothing |
| EditTool.PreservesValid | tools.py:108-135 | every edit, successful or not, keeps the filesystem well formed |
| ListTool.RenderRoundTrip | tools.py:51-52 | a listed name (`Render`) ends with `/` exactly for a directory, and reads back as its entry |
| ListTool.Insert | tools.py:47 | inserting into a sorted sequence keeps it sorted and adds exactly that entry |
| ListTool.SortByPath | tools.py:47 | `sorted()` returns a permutation of the scan, in path order |
| ListTool.Kept | tools.py:49-50 | an entry is kept exactly when it was scanned and no component, base included, starts with `.` |
| ListTool.KeptCounts | tools.py:49-50 | each visible entry is kept as many times as the scan yields it, and no hidden entry is kept |
| ListTool.KeptSorted | tools.py:47-52 | skipping entries keeps the sorted order |
| ListTool.Listing | tools.py:46-52 | the loop appends at most one name per entry, each the rendering of a visible entry |
| ListTool.ListingIsRenderedKept | tools.py:46-52 | the names the loop collects are the rendered kept entries, in scan order |
| ListTool.ListSpec | tools.py:44-57 | a listing exactly when the scan succeeded, with no more names than entries; otherwise the failure carrying the path and the exception's text |
| ListTool.FailureMessage | tools.py:55-57 | the failure text is an error text ending with the exception's text |
| ListTool.ListFiles | tools.py:41-57 | the loop returns exactly the specified listing, or the failure carrying the scan's exception |
| ListTool.ListsEachVisibleOnce | tools.py:46-52 | the listing renders the kept entries in order, and each visible scanned entry is kept exactly as often as it was scanned |
| ListTool.ListsExactlyTheVisible | tools.py:47-52 | every visible scanned entry is listed, and every listed name is a visible scanned entry |
| ListTool.ListedNamesAreVisible | tools.py:49-52 | each listed name reads back as a scanned entry with no hidden component in it or in the base, marked `/` exactly when it is a directory |
| ListTool.HiddenInConcat | tools.py:49 | a full path has a hidden component exactly when the base or the relative part has one |
| ListTool.HiddenBaseListsNothing | tools.py:45-50 | a base with a hidden component lists nothing |
| ListTool.ParentDirIsHidden | tools.py:45-49 | the base `../x` has the components `..` and `x`, and `..` counts as hidden |
| ListTool.ListingIsSorted | tools.py:47 | listed names follow path order, so a directory is listed before everything below it |
| ListTool.HiddenDirectoryScenario | tests/test_tools.py:20-37 | listing a project from inside shows `visible/` and `visible/public.txt` and nothing starting with `.hidden`, whatever order the scan yields |
| BashTool.BashOutput | tools.py:77-84 | on exit 0 the text is no longer than the output and has no whitespace at either end; otherwise it starts with the fixed prefix and ends with the standard error unchanged |
| BashTool.SuccessIsStrippedOutput | tools.py:77-81 | on exit 0 the result is a slice of standard output with only whitespace cut off around it, and stripping it again changes nothing |
| BashTool.FailureNamesStatus | tools.py:82-84 | on another exit status the message carries the status in canonical decimal, read back with its sign, and then the standard error |
| BashTool.EchoExample | tools.py:69-81 | exit 0 with output "hi\n" gives "hi" |
| BashTool.ExitThreeExample | tools.py:82-84 | exit 3 with error output "boom" gives a message that contains both |

## Left out

- Fs.FileSystem: only `/`, `.` and `..` are directories whatever the value lists. Any other path holding a `..` component (`a/..`, `../..`) is an ordinary key, so `edit_file("a/..", "", t)` can create a file there, where Python reads an existing directory and fails.
- Running the shell command is not modelled. `subprocess.run` is foreign process I/O. `BashTool.Completed` is what it reports, given as input.
- `bash` only catches `CalledProcessError`. Other exceptions escape the tool, so no claim covers every input.
- The recursive scan is an input: `ListFiles` takes what `rglob("*")` yields or the text of the exception it raised. What it yields is not modelled. That covers a missing base, a base that is a file, symbolic links and permission errors.
- ListTool.ListFiles: a missing base is not reported as an error. The code never checks the base; it returns whatever the scan yields inside its `try`.
- ListTool.ListFiles: `relative_to` cannot fail here, because each entry is given relative to the base, as the scan always yields it.
- `json.dumps` is not modelled. A successful listing is the sequence of names.
- The text of an exception (`{e}`) is abstract. `Fs.OsError` names the exception class. `Fs.CauseText` gives only its `strerror` part, without the file-name suffix Python appends. Encoding and permission failures of `read_text` and `write_text` are not modelled.
- Paths are normalised as `str(Path(...))` does it, and are then the keys of the map. They are not resolved against the working directory and symbolic links are not followed, so the same file reached by two spellings (`a/../b` and `b`) is two keys.
- Paths.PathStr: a leading `//`, which `pathlib` keeps as a root of its own, is normalised to `/`.
- Fs.WriteText: the text is stored as given. The newline translation that text-mode writing does on Windows is not modelled. A write is atomic and whole; partial writes and concurrent changes between the read and the write are not modelled.
- Paths.Components: the root (`/` or `//`) is left out of the components. It never starts with `.`, so the hidden check does not depend on it.
- Logging calls, the `@tool` decorator and the pydantic input schemas are framework plumbing.
- The rest of `main.py` is not modelled: `color_print`, `get_chat_model`, `main` and the colour table. It is terminal output, a network client and argument parsing.
