/**
 * `Note`: a handle on a note, the directory it is in and its file name
 * (src/actions/note/model.rs). Its existence check, the split of a user's token
 * into directory and file name, and the pretty name read from its first heading.
 */
module NoteModel {
  import opened Wrappers
  import opened Text
  import opened Paths
  import opened Fs

  datatype NoteError =
    | PathBufConversionError
    | NoteDoesNotExist(name: string)
    | ReadError(io: IoError)

  datatype Note = Note(path: Path, name: string)
  {
    /** `Note::get_path`: the directory with the name pushed onto it. */
    function GetPath(): (r: Path)
      ensures ValidName(name) ==> r == path + [name]
      ensures name == "." ==> r == path
    {
      PushOne(path, name);
      Push(path, name)
    }

    /** `Note::new`: a handle on an existing regular file, and `NoteDoesNotExist(name)` otherwise. */
    static function New(fs: FileSystem, path: Path, name: string): (r: Result<Note, NoteError>)
      ensures r.Ok? <==> IsFile(fs, Push(path, name))
      ensures r.Ok? ==> r.value == Note(path, name)
      ensures r.Err? ==> r.error == NoteDoesNotExist(name)
    {
      var note := Note(path, name);
      if !Exists(fs, note.GetPath()) || !IsFile(fs, note.GetPath()) then Err(NoteDoesNotExist(name))
      else Ok(note)
    }

    /**
     * `Note::from_pathbuf`: pushes `name` onto `path`, takes the last component
     * as the file name and the rest as the directory, and checks the note exists.
     */
    static function FromPathbuf(fs: FileSystem, path: Path, name: string): (r: Result<Note, NoteError>)
      ensures r == Err(PathBufConversionError) <==> FileName(Push(path, name)).None?
      ensures ValidPath(path) ==> (r.Ok? <==> FileName(Push(path, name)).Some? && IsFile(fs, Push(path, name)))
      ensures r.Err? && FileName(Push(path, name)).Some? ==>
        r.error == NoteDoesNotExist(FileName(Push(path, name)).value)
      ensures r.Ok? ==> r.value.path + [r.value.name] == Push(path, name)
      ensures r.Ok? && ValidPath(path) ==> r.value.GetPath() == Push(path, name)
    {
      var big := Push(path, name);
      match FileName(big)
      case None => Err(PathBufConversionError)
      case Some(fileName) =>
        assert big == Pop(big) + [fileName];
        PushValid(path, name);
        PushOne(Pop(big), fileName);
        New(fs, Pop(big), fileName)
    }

    /** What `get_pretty_name` returns, or fails with. */
    function PrettyName(fs: FileSystem): Result<Option<string>, NoteError> {
      match OpenLines(fs, GetPath())
      case Err(e) => Err(ReadError(e))
      case Ok(lines) => Ok(PrettyNameOf(lines))
    }

    /** What `get_name` returns, or fails with: the pretty name if there is one, else the file name. */
    function DisplayName(fs: FileSystem): Result<string, NoteError> {
      match PrettyName(fs)
      case Err(e) => Err(e)
      case Ok(pretty) => Ok(if pretty.Some? then pretty.value else name)
    }
  }

  /** The trimmed text after `# ` of the first line that starts with `# `. */
  function PrettyNameOf(lines: seq<string>): Option<string> {
    if lines == [] then None
    else if StartsWith(lines[0], "# ") then Some(Trim(lines[0][2..]))
    else PrettyNameOf(lines[1..])
  }

  /** The pretty name is absent exactly when no line starts with `# `. */
  lemma {:induction false} PrettyNameAbsent(lines: seq<string>)
    ensures PrettyNameOf(lines).None? <==> forall k | 0 <= k < |lines| :: !StartsWith(lines[k], "# ")
  {
    if lines != [] && !StartsWith(lines[0], "# ") {
      PrettyNameAbsent(lines[1..]);
      assert forall k | 1 <= k < |lines| :: lines[k] == lines[1..][k - 1];
    }
  }

  /** When line `k` is the first to start with `# `, the pretty name is the rest of it, trimmed. */
  lemma {:induction false} PrettyNameAt(lines: seq<string>, k: nat)
    requires k < |lines| && StartsWith(lines[k], "# ")
    requires forall j | 0 <= j < k :: !StartsWith(lines[j], "# ")
    ensures PrettyNameOf(lines) == Some(Trim(lines[k][2..]))
  {
    if k > 0 {
      assert !StartsWith(lines[0], "# ");
      var rest := lines[1..];
      assert rest[k - 1] == lines[k];
      assert forall j | 0 <= j < k - 1 :: rest[j] == lines[j + 1];
      PrettyNameAt(rest, k - 1);
    }
  }

  /** The pretty name never has whitespace at either end. */
  lemma {:induction false} PrettyNameTrimmed(lines: seq<string>)
    requires PrettyNameOf(lines).Some?
    ensures var t := PrettyNameOf(lines).value;
      t == [] || (!IsWhitespace(t[0]) && !IsWhitespace(t[|t| - 1]))
  {
    if StartsWith(lines[0], "# ") {
      TrimmedHasNoEdgeWhitespace(lines[0][2..]);
    } else {
      PrettyNameTrimmed(lines[1..]);
    }
  }

  /**
   * The display name of a readable note is the trimmed text of its first `# `
   * line, or its file name when no line read before the first read error starts
   * with `# `. It fails exactly when the note cannot be opened.
   */
  lemma DisplayNameIsHeadingOrFileName(fs: FileSystem, note: Note)
    ensures note.DisplayName(fs).Err? <==> OpenLines(fs, note.GetPath()).Err?
    ensures OpenLines(fs, note.GetPath()).Ok? ==>
      var lines := OpenLines(fs, note.GetPath()).value;
      && ((forall k | 0 <= k < |lines| :: !StartsWith(lines[k], "# ")) ==> note.DisplayName(fs) == Ok(note.name))
      && (forall k | 0 <= k < |lines| && StartsWith(lines[k], "# ") && (forall j | 0 <= j < k :: !StartsWith(lines[j], "# ")) ::
            note.DisplayName(fs) == Ok(Trim(lines[k][2..])))
  {
    if OpenLines(fs, note.GetPath()).Ok? {
      var lines := OpenLines(fs, note.GetPath()).value;
      PrettyNameAbsent(lines);
      forall k | 0 <= k < |lines| && StartsWith(lines[k], "# ") && (forall j | 0 <= j < k :: !StartsWith(lines[j], "# "))
        ensures PrettyNameOf(lines) == Some(Trim(lines[k][2..]))
      {
        PrettyNameAt(lines, k);
      }
    }
  }

  /**
   * `Note::get_pretty_name`: opens the note and scans its lines, up to the first
   * read error, for the first one that starts with `# `.
   */
  method GetPrettyName(fs: FileSystem, note: Note) returns (r: Result<Option<string>, NoteError>)
    ensures r == note.PrettyName(fs)
  {
    var content := OpenLines(fs, note.GetPath());
    if content.Err? {
      return Err(ReadError(content.error));
    }
    var lines := content.value;
    var i := 0;
    while i < |lines|
      invariant 0 <= i <= |lines|
      invariant PrettyNameOf(lines[i..]) == PrettyNameOf(lines)
    {
      if StartsWith(lines[i], "# ") {
        var heading := lines[i][2..];
        return Ok(Some(Trim(heading)));
      }
      assert lines[i..][1..] == lines[i + 1..];
      i := i + 1;
    }
    return Ok(None);
  }

  /** `Note::get_name`: the pretty name if the note has one, else its file name. */
  method GetName(fs: FileSystem, note: Note) returns (r: Result<string, NoteError>)
    ensures r == note.DisplayName(fs)
  {
    var pretty := GetPrettyName(fs, note);
    if pretty.Err? {
      return Err(pretty.error);
    }
    return Ok(if pretty.value.Some? then pretty.value.value else note.name);
  }
}
