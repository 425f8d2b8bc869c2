/**
 * `Folder::create` (src/actions/folder/create.rs): check that nothing is at the
 * folder's path, then create that one directory.
 */
module FolderCreate {
  import opened Wrappers
  import opened Paths
  import opened Fs
  import opened FolderModel

  datatype FolderCreationError =
    | FolderExists(name: string)
    | Create(message: string)

  /** What a call returns, and the filesystem after it. */
  datatype Creation = Creation(result: Result<(), FolderCreationError>, fs: FileSystem)

  /** What `folder.create()` does to `fs`. */
  function CreateFolder(fs: FileSystem, folder: Folder): Creation {
    var path := folder.GetPath();
    if Exists(fs, path) then Creation(Err(FolderExists(folder.name)), fs)
    else match CreateError(fs, path)
      case Some(e) => Creation(Err(Create(e.Message())), fs)
      case None => Creation(Ok(()), Insert(fs, path, Dir([], true)))
  }

  /** An existing path is reported as the folder existing, and nothing else is; a failed call changes nothing. */
  lemma CreateFolderRefuses(fs: FileSystem, folder: Folder)
    ensures CreateFolder(fs, folder).result == Err(FolderExists(folder.name)) <==> Exists(fs, folder.GetPath())
    ensures CreateFolder(fs, folder).result.Err? ==> CreateFolder(fs, folder).fs == fs
    ensures CreateFolder(fs, folder).result.Ok? <==> CreateError(fs, folder.GetPath()).None?
  {
  }

  /**
   * A successful call makes exactly one new, empty directory, whose parent
   * already existed: no ancestor is created, and no other entry changes.
   */
  lemma CreateFolderMakesOneDirectory(fs: FileSystem, folder: Folder)
    requires CreateFolder(fs, folder).result.Ok?
    ensures IsDir(CreateFolder(fs, folder).fs, folder.GetPath())
    ensures CreateFolder(fs, folder).fs[folder.GetPath()].children == []
    ensures IsDir(fs, Pop(folder.GetPath()))
    ensures forall q :: q in CreateFolder(fs, folder).fs <==> q in fs || q == folder.GetPath()
    ensures forall q | q in fs && q != Pop(folder.GetPath()) :: CreateFolder(fs, folder).fs[q] == fs[q]
    ensures WellFormed(fs) ==> WellFormed(CreateFolder(fs, folder).fs)
  {
    var p := folder.GetPath();
    InsertEntries(fs, p, Dir([], true));
    if WellFormed(fs) {
      InsertKeepsWellFormed(fs, p, Dir([], true));
    }
  }

  /** `Folder::create`. */
  method CreateIn(disk: Disk, folder: Folder) returns (r: Result<(), FolderCreationError>)
    modifies disk
    ensures Creation(r, disk.fs) == CreateFolder(old(disk.fs), folder)
  {
    var path := folder.GetPath();
    if Exists(disk.fs, path) {
      return Err(FolderExists(folder.name));
    }
    var created := disk.CreateDir(path);
    if created.Err? {
      return Err(Create(created.error.Message()));
    }
    return Ok(());
  }
}
