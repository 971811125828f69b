/**
 * `read_file`: the whole text of a file, or one of two error messages —
 * one for a missing file, one for every other failure of the read.
 */
module ReadTool {
  import opened Wrappers
  import opened Paths
  import opened Fs
  import opened ToolText

  datatype ReadResult =
    | Contents(text: string)
    | FileNotFound(path: string)
    | ReadFailed(path: string, cause: OsError)

  /**
   * The file's contents, line ends folded, with `FileNotFoundError` and
   * every other failure told apart. The file is the one `Path(path)` names.
   */
  function ReadFile(fs: FileSystem, path: string): (r: ReadResult)
    ensures var file := PathStr(path);
      && (r.Contents? <==> file in fs.files)
      && (r.Contents? ==> r.text == FoldNewlines(fs.files[file]))
      && (r.FileNotFound? <==> !fs.Exists(file) && Ancestors(file) !! fs.files.Keys)
      && (r.FileNotFound? || r.ReadFailed? ==> r.path == path)
      && (r.ReadFailed? ==> r.cause != FileNotFoundError)
  {
    match ReadText(fs, PathStr(path))
    case Ok(text) => Contents(text)
    case Err(FileNotFoundError) => FileNotFound(path)
    case Err(e) => ReadFailed(path, e)
  }

  /**
   * The text the tool hands back to its caller: the contents, or a text
   * tagged as an error.
   */
  function Message(r: ReadResult): (m: string)
    ensures r.Contents? ==> m == r.text
    ensures !r.Contents? ==> IsErrorText(m)
  {
    match r
    case Contents(text) => text
    case FileNotFound(path) =>
      TaggedIsError("File not found at '" + path + "'");
      ErrorTag + ("File not found at '" + path + "'")
    case ReadFailed(path, cause) =>
      TaggedIsError("Failed to read file '" + path + "': " + CauseText(cause));
      ErrorTag + ("Failed to read file '" + path + "': " + CauseText(cause))
  }

  /**
   * Writing a text and reading it back through the tool yields that text
   * with its line ends folded — exactly that text when it holds no
   * carriage return — whatever was there before.
   */
  lemma ReadFileAfterWrite(fs: FileSystem, path: string, text: string)
    requires WriteText(fs, PathStr(path), text).Ok?
    ensures Message(ReadFile(WriteText(fs, PathStr(path), text).value, path)) == FoldNewlines(text)
    ensures '\r' !in text ==> Message(ReadFile(WriteText(fs, PathStr(path), text).value, path)) == text
  {
    ReadAfterWrite(fs, PathStr(path), text);
  }

  /** A file written with Windows line ends does not read back as written. */
  lemma ReadFileFoldsLineEnds(fs: FileSystem, path: string)
    requires WriteText(fs, PathStr(path), "a\r\nb").Ok?
    ensures Message(ReadFile(WriteText(fs, PathStr(path), "a\r\nb").value, path)) == "a\nb"
  {
    ReadFileAfterWrite(fs, path, "a\r\nb");
    FoldWindowsLine();
  }

  /**
   * A trailing `/` names the same file: the tool reads the same text, or
   * fails the same way, as without it.
   */
  lemma TrailingSlashReadsSameFile(fs: FileSystem, path: string)
    requires path != ""
    ensures var r := ReadFile(fs, path + "/");
      var q := ReadFile(fs, path);
      && (r.Contents? <==> q.Contents?)
      && (r.Contents? ==> r.text == q.text)
      && (r.ReadFailed? <==> q.ReadFailed?)
      && (r.ReadFailed? ==> r.cause == q.cause)
  {
    PathStrDropsTrailingSlash(path);
  }

  /** A directory, with or without a trailing `/`, is a failed read: `IsADirectoryError`. */
  lemma DirectoryIsFailedRead(fs: FileSystem, path: string)
    requires fs.Valid() && fs.IsDir(PathStr(path))
    ensures ReadFile(fs, path) == ReadFailed(path, IsADirectoryError)
    ensures path != "" ==> ReadFile(fs, path + "/") == ReadFailed(path + "/", IsADirectoryError)
  {
    if path != "" {
      PathStrDropsTrailingSlash(path);
    }
  }

  /** `..` always exists and is a directory, so reading it is a failed read, never "not found". */
  lemma ParentDirIsFailedRead(fs: FileSystem)
    requires fs.Valid()
    ensures ReadFile(fs, "..") == ReadFailed("..", IsADirectoryError)
  {
    UpStr();
    DirectoryIsFailedRead(fs, "..");
  }

  /**
   * The two messages: a path that names nothing below real directories is
   * "not found"; a path below a file, or a directory, is a failed read
   * carrying its cause.
   */
  lemma ReadFileErrors(fs: FileSystem, path: string)
    requires fs.Valid()
    ensures var file := PathStr(path);
      !fs.Exists(file) && Ancestors(file) !! fs.files.Keys ==>
      Message(ReadFile(fs, path)) == ErrorTag + ("File not found at '" + path + "'")
    ensures var file := PathStr(path);
      !fs.Exists(file) && !(Ancestors(file) !! fs.files.Keys) ==>
      Message(ReadFile(fs, path)) == ErrorTag + ("Failed to read file '" + path + "': " + CauseText(NotADirectoryError))
    ensures fs.IsDir(PathStr(path)) ==>
      Message(ReadFile(fs, path)) == ErrorTag + ("Failed to read file '" + path + "': " + CauseText(IsADirectoryError))
  {
    if fs.IsDir(PathStr(path)) {
      assert PathStr(path) !in fs.files;
    }
  }
}
