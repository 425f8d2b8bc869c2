/**
 * `Folder::list` (src/actions/folder/list.rs): one pass over the entries of a
 * folder's directory that sorts them into sub-folders and notes. Directories
 * whose names start with `.` are skipped; entries that are neither directories
 * nor regular files are ignored; any error aborts the whole listing.
 */
module Listing {
  import opened Wrappers
  import opened Text
  import opened Paths
  import opened Fs
  import opened NoteModel
  import opened FolderModel

  datatype FolderSearchResult = FolderSearchResult(folders: seq<Folder>, notes: seq<Note>)

  datatype ListFolderError =
    | IoFailure(io: IoError)
    | NoteFailure(note: NoteError)
    | FolderFailure(folder: FolderError)

  /** What a listing makes of an entry. */
  datatype Kind = Subfolder | NoteFile

  /**
   * The kind of the entry `c` of directory `p`: a directory not named with a
   * leading `.` is a sub-folder, a regular file is a note, anything else is
   * not listed.
   */
  function Classify(fs: FileSystem, p: Path, c: string): Option<Kind> {
    if IsDir(fs, p + [c]) && !StartsWith(c, ".") then Some(Subfolder)
    else if IsFile(fs, p + [c]) then Some(NoteFile)
    else None
  }

  /** The entries of `cs` of the given kind, in iteration order. */
  function OfKind(fs: FileSystem, p: Path, cs: seq<string>, kind: Kind): (r: seq<string>)
    ensures |r| <= |cs|
    ensures forall c :: c in r <==> c in cs && Classify(fs, p, c) == Some(kind)
  {
    if cs == [] then []
    else
      var last := cs[|cs| - 1];
      assert cs == cs[..|cs| - 1] + [last];
      OfKind(fs, p, cs[..|cs| - 1], kind) + (if Classify(fs, p, last) == Some(kind) then [last] else [])
  }

  /** The handles for the names `cs` inside directory `p`. */
  function FoldersAt(p: Path, cs: seq<string>): (r: seq<Folder>)
    ensures |r| == |cs| && forall k | 0 <= k < |cs| :: r[k] == Folder(p, cs[k])
  {
    seq(|cs|, k requires 0 <= k < |cs| => Folder(p, cs[k]))
  }

  function NotesAt(p: Path, cs: seq<string>): (r: seq<Note>)
    ensures |r| == |cs| && forall k | 0 <= k < |cs| :: r[k] == Note(p, cs[k])
  {
    seq(|cs|, k requires 0 <= k < |cs| => Note(p, cs[k]))
  }

  /**
   * The outcome of the loop of `list` over the entries `cs` of directory `p`:
   * an entry that has vanished is an I/O error, a regular file becomes a note
   * through `Note::new`.
   */
  function ListEntries(fs: FileSystem, p: Path, cs: seq<string>): Result<FolderSearchResult, ListFolderError>
  {
    if cs == [] then Ok(FolderSearchResult([], []))
    else match ListEntries(fs, p, cs[..|cs| - 1])
      case Err(e) => Err(e)
      case Ok(acc) =>
        var c := cs[|cs| - 1];
        if p + [c] !in fs then Err(IoFailure(NotFound))
        else if fs[p + [c]].Dir? then
          if StartsWith(c, ".") then Ok(acc)
          else Ok(acc.(folders := acc.folders + [Folder.New(p, c)]))
        else if fs[p + [c]].File? then
          match Note.New(fs, p, c)
          case Err(e) => Err(NoteFailure(e))
          case Ok(note) => Ok(acc.(notes := acc.notes + [note]))
        else Ok(acc)
  }

  /** What `folder.list()` returns, or fails with. */
  function ListSpec(fs: FileSystem, folder: Folder): Result<FolderSearchResult, ListFolderError> {
    match ReadDir(fs, folder.GetPath())
    case Err(e) => Err(IoFailure(e))
    case Ok(cs) => ListEntries(fs, folder.GetPath(), cs)
  }

  /** Once the loop has failed, the rest of the entries change nothing: there is no partial result. */
  lemma {:induction false} ListEntriesErrorStays(fs: FileSystem, p: Path, cs: seq<string>, n: nat)
    requires n <= |cs|
    requires ListEntries(fs, p, cs[..n]).Err?
    ensures ListEntries(fs, p, cs) == ListEntries(fs, p, cs[..n])
    decreases |cs|
  {
    if n < |cs| {
      var init := cs[..|cs| - 1];
      assert init[..n] == cs[..n];
      ListEntriesErrorStays(fs, p, init, n);
    } else {
      assert cs[..n] == cs;
    }
  }

  /** One step of the loop: the last entry is appended to the sub-folders or to the notes, as it is classified. */
  lemma ListEntriesStep(fs: FileSystem, p: Path, cs: seq<string>)
    requires cs != [] && ListEntries(fs, p, cs).Ok?
    ensures ListEntries(fs, p, cs[..|cs| - 1]).Ok?
    ensures var acc, r, c := ListEntries(fs, p, cs[..|cs| - 1]).value, ListEntries(fs, p, cs).value, cs[|cs| - 1];
      && r.folders == acc.folders + FoldersAt(p, if Classify(fs, p, c) == Some(Subfolder) then [c] else [])
      && r.notes == acc.notes + NotesAt(p, if Classify(fs, p, c) == Some(NoteFile) then [c] else [])
  {
    var c := cs[|cs| - 1];
    assert FoldersAt(p, [c]) == [Folder(p, c)] && NotesAt(p, [c]) == [Note(p, c)];
    assert FoldersAt(p, []) == [] && NotesAt(p, []) == [];
  }

  lemma FoldersAtAppend(p: Path, a: seq<string>, b: seq<string>)
    ensures FoldersAt(p, a + b) == FoldersAt(p, a) + FoldersAt(p, b)
  {
  }

  lemma NotesAtAppend(p: Path, a: seq<string>, b: seq<string>)
    ensures NotesAt(p, a + b) == NotesAt(p, a) + NotesAt(p, b)
  {
  }

  /**
   * A successful listing is exactly the entries classified as sub-folders and as
   * notes, each kept in iteration order, with the listed directory as their path.
   */
  lemma {:induction false} ListEntriesAreClassified(fs: FileSystem, p: Path, cs: seq<string>)
    requires ListEntries(fs, p, cs).Ok?
    ensures ListEntries(fs, p, cs).value.folders == FoldersAt(p, OfKind(fs, p, cs, Subfolder))
    ensures ListEntries(fs, p, cs).value.notes == NotesAt(p, OfKind(fs, p, cs, NoteFile))
  {
    if cs != [] {
      var init, c := cs[..|cs| - 1], cs[|cs| - 1];
      ListEntriesStep(fs, p, cs);
      ListEntriesAreClassified(fs, p, init);
      FoldersAtAppend(p, OfKind(fs, p, init, Subfolder), if Classify(fs, p, c) == Some(Subfolder) then [c] else []);
      NotesAtAppend(p, OfKind(fs, p, init, NoteFile), if Classify(fs, p, c) == Some(NoteFile) then [c] else []);
    }
  }

  /**
   * The loop fails only on an entry that does not exist: when every entry is a
   * file name that exists below `p`, the listing succeeds.
   */
  lemma {:induction false} ListEntriesSucceed(fs: FileSystem, p: Path, cs: seq<string>)
    requires forall k | 0 <= k < |cs| :: ValidName(cs[k]) && p + [cs[k]] in fs
    ensures ListEntries(fs, p, cs).Ok?
  {
    if cs != [] {
      ListEntriesSucceed(fs, p, cs[..|cs| - 1]);
      PushName(p, cs[|cs| - 1]);
    }
  }

  /**
   * On a consistent tree, listing a folder fails exactly when its path is not a
   * readable directory; otherwise it returns every visible sub-folder and every
   * regular file, dot-named files included, and nothing else.
   */
  lemma ListFolderContents(fs: FileSystem, folder: Folder)
    requires TreeShaped(fs) && ListedExist(fs)
    ensures ListSpec(fs, folder).Ok? <==> IsDir(fs, folder.GetPath()) && fs[folder.GetPath()].readable
    ensures ListSpec(fs, folder).Ok? ==>
      var p, r := folder.GetPath(), ListSpec(fs, folder).value;
      && (forall f :: f in r.folders <==>
            f.path == p && IsDir(fs, p + [f.name]) && !StartsWith(f.name, ".") && f.name in fs[p].children)
      && (forall n :: n in r.notes <==> n.path == p && IsFile(fs, p + [n.name]) && n.name in fs[p].children)
  {
    var p := folder.GetPath();
    if IsDir(fs, p) && fs[p].readable {
      var cs := fs[p].children;
      ListEntriesSucceed(fs, p, cs);
      ListEntriesAreClassified(fs, p, cs);
      var r := ListSpec(fs, folder).value;
      var dirs, files := OfKind(fs, p, cs, Subfolder), OfKind(fs, p, cs, NoteFile);
      forall f
        ensures f in r.folders <==> f.path == p && IsDir(fs, p + [f.name]) && !StartsWith(f.name, ".") && f.name in cs
      {
        if f in r.folders {
          var k :| 0 <= k < |r.folders| && r.folders[k] == f;
          assert dirs[k] in dirs;
        }
        if f.path == p && IsDir(fs, p + [f.name]) && !StartsWith(f.name, ".") && f.name in cs {
          assert f.name in dirs;
          var k :| 0 <= k < |dirs| && dirs[k] == f.name;
          assert r.folders[k] == f;
        }
      }
      forall n
        ensures n in r.notes <==> n.path == p && IsFile(fs, p + [n.name]) && n.name in cs
      {
        if n in r.notes {
          var k :| 0 <= k < |r.notes| && r.notes[k] == n;
          assert files[k] in files;
        }
        if n.path == p && IsFile(fs, p + [n.name]) && n.name in cs {
          assert n.name in files;
          var k :| 0 <= k < |files| && files[k] == n.name;
          assert r.notes[k] == n;
        }
      }
    }
  }

  /**
   * Whatever a successful listing returns lies directly inside the listed
   * directory and is one of its entries: sub-folders are visible directories,
   * notes regular files.
   */
  lemma ListedEntriesShape(fs: FileSystem, folder: Folder)
    requires TreeShaped(fs)
    requires ListSpec(fs, folder).Ok?
    ensures var p := folder.GetPath();
      IsDir(fs, p) && fs[p].readable &&
      var r := ListSpec(fs, folder).value;
      && (forall k | 0 <= k < |r.folders| ::
            && r.folders[k].path == p && r.folders[k].name in fs[p].children && ValidName(r.folders[k].name)
            && IsDir(fs, p + [r.folders[k].name]) && !StartsWith(r.folders[k].name, "."))
      && (forall k | 0 <= k < |r.notes| ::
            && r.notes[k].path == p && r.notes[k].name in fs[p].children && ValidName(r.notes[k].name)
            && IsFile(fs, p + [r.notes[k].name]))
  {
    var p := folder.GetPath();
    var cs := fs[p].children;
    ListEntriesAreClassified(fs, p, cs);
    var dirs, files := OfKind(fs, p, cs, Subfolder), OfKind(fs, p, cs, NoteFile);
    assert forall k | 0 <= k < |dirs| :: dirs[k] in dirs;
    assert forall k | 0 <= k < |files| :: files[k] in files;
  }

  /** A visible sub-directory of a folder that lists successfully is among its sub-folders. */
  lemma ListedSubfolder(fs: FileSystem, folder: Folder, c: string)
    requires ListSpec(fs, folder).Ok?
    requires var p := folder.GetPath();
      IsDir(fs, p) && c in fs[p].children && IsDir(fs, p + [c]) && !StartsWith(c, ".")
    ensures Folder(folder.GetPath(), c) in ListSpec(fs, folder).value.folders
  {
    var p := folder.GetPath();
    var cs := fs[p].children;
    ListEntriesAreClassified(fs, p, cs);
    var dirs := OfKind(fs, p, cs, Subfolder);
    assert c in dirs;
    var k :| 0 <= k < |dirs| && dirs[k] == c;
    assert ListSpec(fs, folder).value.folders[k] == Folder(p, c);
  }

  /** A regular file in a folder that lists successfully is among its notes. */
  lemma ListedNote(fs: FileSystem, folder: Folder, c: string)
    requires ListSpec(fs, folder).Ok?
    requires var p := folder.GetPath();
      IsDir(fs, p) && c in fs[p].children && IsFile(fs, p + [c])
    ensures Note(folder.GetPath(), c) in ListSpec(fs, folder).value.notes
  {
    var p := folder.GetPath();
    var cs := fs[p].children;
    ListEntriesAreClassified(fs, p, cs);
    var files := OfKind(fs, p, cs, NoteFile);
    assert c in files;
    var k :| 0 <= k < |files| && files[k] == c;
    assert ListSpec(fs, folder).value.notes[k] == Note(p, c);
  }

  /** The entries of one kind come out in the order the directory yields them. */
  lemma {:induction false} OfKindKeepsOrder(fs: FileSystem, p: Path, cs: seq<string>, kind: Kind) returns (idx: seq<nat>)
    ensures |idx| == |OfKind(fs, p, cs, kind)|
    ensures forall k | 0 <= k < |idx| :: idx[k] < |cs| && cs[idx[k]] == OfKind(fs, p, cs, kind)[k]
    ensures forall k, l | 0 <= k < l < |idx| :: idx[k] < idx[l]
  {
    if cs == [] {
      idx := [];
    } else {
      var init, c := cs[..|cs| - 1], cs[|cs| - 1];
      idx := OfKindKeepsOrder(fs, p, init, kind);
      if Classify(fs, p, c) == Some(kind) {
        idx := idx + [|cs| - 1];
      }
    }
  }

  /** Entries of one kind are as distinct as the directory's entries. */
  lemma OfKindUnique(fs: FileSystem, p: Path, cs: seq<string>, kind: Kind)
    requires NoDuplicates(cs)
    ensures NoDuplicates(OfKind(fs, p, cs, kind))
  {
    var idx := OfKindKeepsOrder(fs, p, cs, kind);
    var r := OfKind(fs, p, cs, kind);
    forall i, j | 0 <= i < j < |r|
      ensures r[i] != r[j]
    {
      assert idx[i] < idx[j] && cs[idx[i]] == r[i] && cs[idx[j]] == r[j];
    }
  }

  /** A listing names each note once, and each sub-folder once. */
  lemma ListedUnique(fs: FileSystem, folder: Folder)
    requires TreeShaped(fs) && ListSpec(fs, folder).Ok?
    ensures NoDuplicates(ListSpec(fs, folder).value.notes)
    ensures var fs' := ListSpec(fs, folder).value.folders;
      forall i, j | 0 <= i < j < |fs'| :: fs'[i].name != fs'[j].name
  {
    var p := folder.GetPath();
    ListedEntriesShape(fs, folder);
    var cs := fs[p].children;
    ListEntriesAreClassified(fs, p, cs);
    OfKindUnique(fs, p, cs, NoteFile);
    OfKindUnique(fs, p, cs, Subfolder);
    var r := ListSpec(fs, folder).value;
    var files, dirs := OfKind(fs, p, cs, NoteFile), OfKind(fs, p, cs, Subfolder);
    forall i, j | 0 <= i < j < |r.notes|
      ensures r.notes[i] != r.notes[j]
    {
      assert r.notes[i].name == files[i] && r.notes[j].name == files[j];
    }
    forall i, j | 0 <= i < j < |r.folders|
      ensures r.folders[i].name != r.folders[j].name
    {
      assert r.folders[i].name == dirs[i] && r.folders[j].name == dirs[j];
    }
  }

  /** The entry count that `print` reports never exceeds the number of directory entries. */
  lemma {:induction false} EntryCountBounded(fs: FileSystem, p: Path, cs: seq<string>)
    ensures |OfKind(fs, p, cs, Subfolder)| + |OfKind(fs, p, cs, NoteFile)| <= |cs|
  {
    if cs != [] {
      EntryCountBounded(fs, p, cs[..|cs| - 1]);
    }
  }

  /**
   * `q` is reached from `p` by going down through directories none of whose
   * names starts with `.`: the sub-folders that `list` reports.
   */
  ghost predicate VisibleBelow(fs: FileSystem, p: Path, q: Path) {
    p <= q && forall k | |p| < k <= |q| :: IsDir(fs, q[..k]) && !StartsWith(q[k - 1], ".")
  }

  /** The notes that a traversal from `p` through the listed sub-folders meets. */
  ghost predicate Reaches(fs: FileSystem, p: Path, n: Note) {
    VisibleBelow(fs, p, n.path) && ValidName(n.name) && IsFile(fs, n.path + [n.name])
  }

  /** A path strictly below `p` is visible from `p` when it is visible from the visible sub-directory on its way. */
  lemma VisibleBelowStep(fs: FileSystem, p: Path, q: Path)
    requires p < q
    ensures VisibleBelow(fs, p, q) <==>
      var c := q[|p|];
      IsDir(fs, p + [c]) && !StartsWith(c, ".") && VisibleBelow(fs, p + [c], q)
  {
    var c := q[|p|];
    assert q[..|p| + 1] == p + [c];
  }

  lemma PrefixStep(p: Path, c: string, q: Path)
    requires p + [c] <= q
    ensures p < q && q[|p|] == c
  {
    assert (p + [c])[|p|] == c;
  }

  /** On a consistent tree, the notes a listing returns are the ones reached at the folder's own level. */
  lemma ReachedHere(fs: FileSystem, folder: Folder)
    requires TreeShaped(fs) && ListedExist(fs) && ExistListed(fs)
    requires ListSpec(fs, folder).Ok?
    ensures forall n :: n in ListSpec(fs, folder).value.notes <==>
      n.path == folder.GetPath() && Reaches(fs, folder.GetPath(), n)
  {
    var p := folder.GetPath();
    ListFolderContents(fs, folder);
    forall n: Note | n.path == p && Reaches(fs, p, n)
      ensures n.name in fs[p].children
    {
      PopLast(p + [n.name]);
    }
  }

  /** What a traversal from a listed sub-folder reaches lies deeper than the folder and is reached from it. */
  lemma ReachedFromSubfolder(fs: FileSystem, folder: Folder, k: nat, n: Note)
    requires TreeShaped(fs) && ListSpec(fs, folder).Ok?
    requires k < |ListSpec(fs, folder).value.folders|
    requires Reaches(fs, ListSpec(fs, folder).value.folders[k].GetPath(), n)
    ensures folder.GetPath() < n.path && Reaches(fs, folder.GetPath(), n)
  {
    var p := folder.GetPath();
    ListedEntriesShape(fs, folder);
    var sub := ListSpec(fs, folder).value.folders[k];
    var c := sub.name;
    assert sub.GetPath() == p + [c];
    PrefixStep(p, c, n.path);
    VisibleBelowStep(fs, p, n.path);
  }

  /** A note reached deeper than the folder is reached from the listed sub-folder on its way. */
  lemma ReachedThroughSubfolder(fs: FileSystem, folder: Folder, n: Note) returns (k: nat)
    requires TreeShaped(fs) && ListedExist(fs) && ExistListed(fs) && ListSpec(fs, folder).Ok?
    requires folder.GetPath() < n.path && Reaches(fs, folder.GetPath(), n)
    ensures k < |ListSpec(fs, folder).value.folders|
    ensures Reaches(fs, ListSpec(fs, folder).value.folders[k].GetPath(), n)
  {
    var p := folder.GetPath();
    var c := n.path[|p|];
    VisibleBelowStep(fs, p, n.path);
    PopLast(p + [c]);
    ListedSubfolder(fs, folder, c);
    ListedEntriesShape(fs, folder);
    var subs := ListSpec(fs, folder).value.folders;
    k :| 0 <= k < |subs| && subs[k] == Folder(p, c);
  }

  /** `Folder::list`: reads the directory and sorts its entries in one pass. */
  method List(fs: FileSystem, folder: Folder) returns (r: Result<FolderSearchResult, ListFolderError>)
    ensures r == ListSpec(fs, folder)
  {
    var path := folder.GetPath();
    var dir := ReadDir(fs, path);
    if dir.Err? {
      return Err(IoFailure(dir.error));
    }
    var entries := dir.value;
    var folders: seq<Folder> := [];
    var notes: seq<Note> := [];
    for i := 0 to |entries|
      invariant ListEntries(fs, path, entries[..i]) == Ok(FolderSearchResult(folders, notes))
    {
      var name := entries[i];
      assert entries[..i + 1][..i] == entries[..i];
      if path + [name] !in fs {
        ListEntriesErrorStays(fs, path, entries, i + 1);
        return Err(IoFailure(NotFound));
      }
      var entry := fs[path + [name]];
      if entry.Dir? {
        var sub := Folder.New(path, name);
        if StartsWith(sub.name, ".") {
          continue;
        }
        folders := folders + [sub];
      } else if entry.File? {
        var note := Note.New(fs, path, name);
        if note.Err? {
          ListEntriesErrorStays(fs, path, entries, i + 1);
          return Err(NoteFailure(note.error));
        }
        notes := notes + [note.value];
      }
    }
    assert entries[..|entries|] == entries;
    return Ok(FolderSearchResult(folders, notes));
  }
}
