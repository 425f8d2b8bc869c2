/**
 * `Folder`: a handle on a directory of the notebook, the directory it is in and
 * its name (src/actions/folder/model.rs). Unlike a note handle, a folder handle
 * is never checked against the filesystem.
 */
module FolderModel {
  import opened Wrappers
  import opened Paths

  datatype FolderError = PathBufConversionError

  datatype Folder = Folder(path: Path, name: string)
  {
    /**
     * `Folder::get_path`: the directory with the name pushed onto it. The data
     * directory itself is the folder named `.` inside it.
     */
    function GetPath(): (r: Path)
      ensures ValidName(name) ==> r == path + [name]
      ensures name == "." ==> r == path
    {
      PushOne(path, name);
      Push(path, name)
    }

    /** `Folder::new`: keeps both parts as given; a `.` name is not normalised away. */
    static function New(path: Path, name: string): (f: Folder)
      ensures f.path == path && f.name == name
      ensures name == "." ==> f.GetPath() == path
    {
      Folder(path, name)
    }

    /**
     * `Folder::from_pathbuf`: the handle for `name` inside `path`. It takes no
     * filesystem, so it cannot notice a missing directory, and every path of the
     * model is text, so it never fails.
     */
    static function FromPathbuf(path: Path, name: string): (r: Result<Folder, FolderError>)
      ensures r.Ok? && r.value == New(path, name)
    {
      Ok(New(path, name))
    }
  }

  /** All but the last of a run of sub-folders of `p` are still sub-folders of `p`. */
  lemma SubfoldersInit(p: Path, subs: seq<Folder>, init: seq<Folder>)
    requires subs != [] && init == subs[..|subs| - 1]
    requires forall k | 0 <= k < |subs| :: subs[k].path == p && ValidName(subs[k].name)
    ensures forall k | 0 <= k < |init| :: init[k].path == p && ValidName(init[k].name)
    ensures subs[|subs| - 1].path == p && ValidName(subs[|subs| - 1].name)
  {
  }
}
