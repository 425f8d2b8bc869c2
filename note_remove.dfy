/**
 * `Note::remove` (src/actions/note/remove.rs): asks for confirmation and deletes
 * the note's file only on the answer `y`. The line read from standard input is a
 * parameter: either the line, with its newline, or the error reading it.
 */
module NoteRemove {
  import opened Wrappers
  import opened Text
  import opened Paths
  import opened Fs
  import NoteModel

  datatype RemoveNoteError =
    | RemoveIo(io: IoError)
    | NoteDoesNotExist(name: string)

  /** What a call returns, and the filesystem after it. */
  datatype Removal = Removal(result: Result<(), RemoveNoteError>, fs: FileSystem)

  /** Whether the answer confirms: the line, trimmed, is exactly `y`. */
  predicate Confirms(line: string) {
    Trim(line) == "y"
  }

  /** What `note.remove()` does to `fs`, given what reading the answer gives. */
  function RemoveNote(fs: FileSystem, note: NoteModel.Note, answer: Result<string, IoError>): Removal {
    var path := note.GetPath();
    if !Exists(fs, path) then Removal(Err(NoteDoesNotExist(note.name)), fs)
    else match answer
      case Err(e) => Removal(Err(RemoveIo(e)), fs)
      case Ok(line) =>
        if !Confirms(line) then Removal(Ok(()), fs)
        else match RemoveError(fs, path)
          case Some(e) => Removal(Err(RemoveIo(e)), fs)
          case None => Removal(Ok(()), Delete(fs, path))
  }

  /**
   * Nothing changes unless the note exists and the answer confirms; a missing
   * note is reported before any answer is read, and any other answer is a
   * successful no-op.
   */
  lemma RemoveOnlyWhenConfirmed(fs: FileSystem, note: NoteModel.Note, answer: Result<string, IoError>)
    ensures !Exists(fs, note.GetPath()) ==> RemoveNote(fs, note, answer) == Removal(Err(NoteDoesNotExist(note.name)), fs)
    ensures RemoveNote(fs, note, answer).fs != fs ==> Exists(fs, note.GetPath()) && answer.Ok? && Confirms(answer.value)
    ensures Exists(fs, note.GetPath()) && answer.Ok? && !Confirms(answer.value) ==>
      RemoveNote(fs, note, answer) == Removal(Ok(()), fs)
    ensures RemoveNote(fs, note, answer).result.Err? ==> RemoveNote(fs, note, answer).fs == fs
  {
  }

  /**
   * A confirmed removal of an existing file deletes exactly that file, unlists
   * it from its directory, leaves every other entry as it was, and keeps the tree
   * consistent.
   */
  lemma ConfirmedRemovalDeletesOneFile(fs: FileSystem, note: NoteModel.Note, line: string)
    requires WellFormed(fs) && IsFile(fs, note.GetPath()) && Confirms(line)
    requires RemoveError(fs, note.GetPath()).None?
    ensures RemoveNote(fs, note, Ok(line)).result == Ok(())
    ensures forall q :: q in RemoveNote(fs, note, Ok(line)).fs <==> q in fs && q != note.GetPath()
    ensures forall q | q in fs && q != note.GetPath() && q != Pop(note.GetPath()) :: RemoveNote(fs, note, Ok(line)).fs[q] == fs[q]
    ensures WellFormed(RemoveNote(fs, note, Ok(line)).fs)
  {
    var p := note.GetPath();
    DeleteKeepsWellFormed(fs, p);
    assert p != [] by {
      assert IsDir(fs, []);
    }
    DeleteEntries(fs, p);
  }

  /**
   * For an answer of one word and its newline, only `y` confirms: the comparison is
   * exact and case-sensitive, so `Y` and `yes` do not.
   */
  lemma ConfirmationIsExact(word: string)
    requires word != [] && forall k | 0 <= k < |word| :: !IsWhitespace(word[k])
    ensures Confirms(word + "\n") <==> word == "y"
  {
    var line := word + "\n";
    assert TrimStart(line) == line;
    assert line[..|line| - 1] == word;
    assert TrimEnd(line) == TrimEnd(word);
  }

  /** `Note::remove`. */
  method RemoveIn(disk: Disk, note: NoteModel.Note, answer: Result<string, IoError>) returns (r: Result<(), RemoveNoteError>)
    modifies disk
    ensures Removal(r, disk.fs) == RemoveNote(old(disk.fs), note, answer)
  {
    var path := note.GetPath();
    if !Exists(disk.fs, path) {
      return Err(NoteDoesNotExist(note.name));
    }
    if answer.Err? {
      return Err(RemoveIo(answer.error));
    }
    var input := answer.value;
    if Trim(input) != "y" {
      return Ok(());
    }
    var removed := disk.RemoveFile(path);
    if removed.Err? {
      return Err(RemoveIo(removed.error));
    }
    return Ok(());
  }
}
