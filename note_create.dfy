/**
 * `Note::create` and `Note::new_create` (src/actions/note/create.rs,
 * src/actions/note/model.rs): check that nothing is at the note's path, then
 * create a new, empty file there.
 */
module NoteCreate {
  import opened Wrappers
  import opened Paths
  import opened Fs
  import opened NoteModel

  datatype NoteCreationError =
    | NoteExists(name: string)
    | Create(message: string)
    | CreationNoteError(note: NoteError)

  /** What a call returns, and the filesystem after it. */
  datatype Creation = Creation(result: Result<(), NoteCreationError>, fs: FileSystem)

  /** What `note.create()` does to `fs`. */
  function CreateNote(fs: FileSystem, note: Note): Creation {
    var path := note.GetPath();
    if Exists(fs, path) then Creation(Err(NoteExists(note.name)), fs)
    else match CreateError(fs, path)
      case Some(e) => Creation(Err(Create(e.Message())), fs)
      case None => Creation(Ok(()), Insert(fs, path, File([], true)))
  }

  /**
   * Anything at the note's path, file or directory, is reported as the note
   * existing, and nothing else is; a failed call changes nothing.
   */
  lemma CreateNoteRefuses(fs: FileSystem, note: Note)
    ensures CreateNote(fs, note).result == Err(NoteExists(note.name)) <==> Exists(fs, note.GetPath())
    ensures CreateNote(fs, note).result.Err? ==> CreateNote(fs, note).fs == fs
    ensures CreateNote(fs, note).result.Ok? <==> CreateError(fs, note.GetPath()).None?
  {
  }

  /**
   * A successful call leaves an empty, readable file at the note's path, lists
   * its name last in its directory, changes no other entry, and keeps the tree
   * consistent.
   */
  lemma CreateNoteMakesEmptyFile(fs: FileSystem, note: Note)
    requires CreateNote(fs, note).result.Ok?
    ensures IsFile(CreateNote(fs, note).fs, note.GetPath())
    ensures OpenLines(CreateNote(fs, note).fs, note.GetPath()) == Ok([])
    ensures CreateNote(fs, note).fs[Pop(note.GetPath())].children
      == fs[Pop(note.GetPath())].children + [note.GetPath()[|note.GetPath()| - 1]]
    ensures forall q | q != note.GetPath() && q != Pop(note.GetPath()) ::
      (q in CreateNote(fs, note).fs <==> q in fs) && (q in fs ==> CreateNote(fs, note).fs[q] == fs[q])
    ensures WellFormed(fs) ==> WellFormed(CreateNote(fs, note).fs)
  {
    var p := note.GetPath();
    InsertEntries(fs, p, File([], true));
    if WellFormed(fs) {
      InsertKeepsWellFormed(fs, p, File([], true));
    }
  }

  /** `Note::create`. */
  method CreateIn(disk: Disk, note: Note) returns (r: Result<(), NoteCreationError>)
    modifies disk
    ensures Creation(r, disk.fs) == CreateNote(old(disk.fs), note)
  {
    var path := note.GetPath();
    if Exists(disk.fs, path) {
      return Err(NoteExists(note.name));
    }
    var created := disk.CreateNew(path);
    if created.Err? {
      return Err(Create(created.error.Message()));
    }
    return Ok(());
  }

  /** `Note::new_create`: the handle for `name` in `path`, once its file is created. */
  method NewCreate(disk: Disk, path: Path, name: string) returns (r: Result<Note, NoteCreationError>)
    modifies disk
    ensures var c := CreateNote(old(disk.fs), Note(path, name));
      disk.fs == c.fs && (r.Ok? <==> c.result.Ok?) && (r.Ok? ==> r.value == Note(path, name))
      && (r.Err? ==> c.result == Err(r.error))
  {
    var note := Note(path, name);
    var created := CreateIn(disk, note);
    if created.Err? {
      return Err(created.error);
    }
    return Ok(note);
  }
}
