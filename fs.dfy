/**
 * The filesystem the notebook lives in, as a map from paths to entries, and the
 * `std::fs` calls the engine makes on it. Read-only operations take the map as a
 * value; the calls that change it are methods of `Disk`.
 */
module Fs {
  import opened Wrappers
  import opened Paths

  /** One item of `BufRead::lines`: a line's text, or a read error. */
  datatype LineRead = Line(text: string) | LineError

  /**
   * What a path names. `readable` is false for an entry whose permissions refuse
   * to open it, and for a directory also to create or delete entries in it.
   */
  datatype Entry =
    | Dir(children: seq<string>, readable: bool)  // entry names in `read_dir` order
    | File(lines: seq<LineRead>, readable: bool)
    | Special                                     // symbolic link (never followed), device, socket or fifo

  type FileSystem = map<Path, Entry>

  /** The `std::io::Error`s the model produces. */
  datatype IoError =
    | NotFound
    | PermissionDenied
    | AlreadyExists
    | NotADirectory
    | IsADirectory
    | InvalidFilename
    | Failed(message: string)
  {
    /** What `io::Error` displays for the corresponding OS error. */
    function Message(): string {
      match this
      case NotFound => "No such file or directory (os error 2)"
      case PermissionDenied => "Permission denied (os error 13)"
      case AlreadyExists => "File exists (os error 17)"
      case NotADirectory => "Not a directory (os error 20)"
      case IsADirectory => "Is a directory (os error 21)"
      case InvalidFilename => "Invalid argument (os error 22)"
      case Failed(m) => m
    }
  }

  /** `Path::exists`. */
  predicate Exists(fs: FileSystem, p: Path) {
    p in fs
  }

  /** `Path::is_file`. */
  predicate IsFile(fs: FileSystem, p: Path) {
    p in fs && fs[p].File?
  }

  /** `Path::is_dir`. */
  predicate IsDir(fs: FileSystem, p: Path) {
    p in fs && fs[p].Dir?
  }

  /** `lines.map_while(Result::ok)`: the lines before the first read error. */
  function ReadableLines(lines: seq<LineRead>): (r: seq<string>)
    ensures |r| <= |lines|
    ensures forall k | 0 <= k < |r| :: lines[k] == Line(r[k])
    ensures |r| < |lines| ==> lines[|r|] == LineError
  {
    if lines == [] || lines[0].LineError? then [] else [lines[0].text] + ReadableLines(lines[1..])
  }

  /** Whatever follows the first read error is never seen. */
  lemma {:induction false} ReadableLinesStopAtError(before: seq<LineRead>, after: seq<LineRead>)
    requires forall k | 0 <= k < |before| :: before[k].Line?
    ensures ReadableLines(before + [LineError] + after) == ReadableLines(before)
  {
    if before != [] {
      assert (before + [LineError] + after)[1..] == before[1..] + [LineError] + after;
      ReadableLinesStopAtError(before[1..], after);
    }
  }

  /**
   * `File::open(p)` and then `lines().map_while(Result::ok)`. Opening a directory
   * succeeds on Unix and its first read fails, so it yields no line.
   */
  function OpenLines(fs: FileSystem, p: Path): Result<seq<string>, IoError> {
    if p !in fs then Err(NotFound)
    else match fs[p]
      case File(lines, readable) => if readable then Ok(ReadableLines(lines)) else Err(PermissionDenied)
      case Dir(_, readable) => if readable then Ok([]) else Err(PermissionDenied)
      case Special => Ok([])
  }

  /** `fs::read_dir(p)`: the entry names of a readable directory, in iteration order. */
  function ReadDir(fs: FileSystem, p: Path): Result<seq<string>, IoError> {
    if p !in fs then Err(NotFound)
    else match fs[p]
      case Dir(children, readable) => if readable then Ok(children) else Err(PermissionDenied)
      case _ => Err(NotADirectory)
  }

  predicate NoDuplicates<T(==)>(xs: seq<T>) {
    forall i, j | 0 <= i < j < |xs| :: xs[i] != xs[j]
  }

  /** What `read_dir` guarantees: entry names are file names, each listed once. */
  ghost predicate TreeShaped(fs: FileSystem) {
    forall p | p in fs && fs[p].Dir? ::
      && (forall c | c in fs[p].children :: ValidName(c))
      && NoDuplicates(fs[p].children)
  }

  /** Every entry a directory lists exists. */
  ghost predicate ListedExist(fs: FileSystem) {
    forall p, c | p in fs && fs[p].Dir? && c in fs[p].children :: p + [c] in fs
  }

  /** Every entry but the root is listed in its parent, which is a directory. */
  ghost predicate ExistListed(fs: FileSystem) {
    forall q | q in fs && q != [] :: IsDir(fs, Pop(q)) && q[|q| - 1] in fs[Pop(q)].children
  }

  /** A consistent tree whose root is a directory. */
  ghost predicate WellFormed(fs: FileSystem) {
    TreeShaped(fs) && IsDir(fs, []) && ListedExist(fs) && ExistListed(fs)
  }

  /** The entries at or below `p`: what a traversal from `p` can still visit. */
  ghost function Below(fs: FileSystem, p: Path): set<Path> {
    set q | q in fs && p <= q
  }

  /** Going down one level strictly shrinks what is left to visit. */
  lemma BelowShrinks(fs: FileSystem, p: Path, c: string)
    requires p in fs
    ensures Below(fs, p + [c]) < Below(fs, p)
  {
    assert p in Below(fs, p);
    assert p !in Below(fs, p + [c]);
  }

  /** Why `File::create_new(p)` or `fs::create_dir(p)` would fail, if it would. */
  function CreateError(fs: FileSystem, p: Path): Option<IoError> {
    if p in fs || p == [] then Some(AlreadyExists)
    else if !ValidName(p[|p| - 1]) then Some(InvalidFilename)
    else if Pop(p) !in fs then Some(NotFound)
    else if !fs[Pop(p)].Dir? then Some(NotADirectory)
    else if !fs[Pop(p)].readable then Some(PermissionDenied)
    else None
  }

  /** The filesystem after a new entry `e` is made at `p`; it is listed last in its directory. */
  function Insert(fs: FileSystem, p: Path, e: Entry): FileSystem
    requires CreateError(fs, p) == None
  {
    var d := fs[Pop(p)];
    fs[p := e][Pop(p) := Dir(d.children + [p[|p| - 1]], d.readable)]
  }

  /** What creating `p` does to each entry: `p` appears, its directory lists it last, the rest stay. */
  lemma InsertEntries(fs: FileSystem, p: Path, e: Entry)
    requires CreateError(fs, p) == None
    ensures forall r :: r in Insert(fs, p, e) <==> r in fs || r == p
    ensures Pop(p) != p && Insert(fs, p, e)[p] == e
    ensures Insert(fs, p, e)[Pop(p)] == Dir(fs[Pop(p)].children + [p[|p| - 1]], fs[Pop(p)].readable)
    ensures forall r | r in fs && r != Pop(p) :: Insert(fs, p, e)[r] == fs[r]
  {
    assert |Pop(p)| < |p|;
  }

  /** `cs` without the name `c`. */
  function Without(cs: seq<string>, c: string): (r: seq<string>)
    ensures forall x :: x in r <==> x in cs && x != c
    ensures NoDuplicates(cs) ==> NoDuplicates(r)
  {
    if cs == [] then []
    else
      var rest := Without(cs[1..], c);
      assert NoDuplicates(cs) ==> cs[0] !in cs[1..];
      if cs[0] == c then rest else [cs[0]] + rest
  }

  /** Why `fs::remove_file(p)` would fail, if it would. */
  function RemoveError(fs: FileSystem, p: Path): Option<IoError> {
    if p !in fs then Some(NotFound)
    else if fs[p].Dir? then Some(IsADirectory)
    else if p != [] && IsDir(fs, Pop(p)) && !fs[Pop(p)].readable then Some(PermissionDenied)
    else None
  }

  /** The filesystem after the entry at `p` is deleted and unlisted from its directory. */
  function Delete(fs: FileSystem, p: Path): FileSystem {
    var rest := fs - {p};
    if p != [] && IsDir(fs, Pop(p)) && Pop(p) != p then
      var d := fs[Pop(p)];
      rest[Pop(p) := Dir(Without(d.children, p[|p| - 1]), d.readable)]
    else rest
  }

  /** Creating a file or an empty directory keeps the tree consistent. */
  lemma InsertKeepsWellFormed(fs: FileSystem, p: Path, e: Entry)
    requires WellFormed(fs) && CreateError(fs, p) == None
    requires e.File? || (e.Dir? && e.children == [])
    ensures WellFormed(Insert(fs, p, e))
    ensures p[|p| - 1] !in fs[Pop(p)].children
  {
    var parent, c := Pop(p), p[|p| - 1];
    PopLast(p);
    assert c !in fs[parent].children;
    InsertTreeShaped(fs, p, e);
    InsertListedExist(fs, p, e);
    InsertExistListed(fs, p, e);
  }

  lemma InsertTreeShaped(fs: FileSystem, p: Path, e: Entry)
    requires TreeShaped(fs) && CreateError(fs, p) == None
    requires e.File? || (e.Dir? && e.children == [])
    requires p[|p| - 1] !in fs[Pop(p)].children
    ensures TreeShaped(Insert(fs, p, e))
  {
    var parent, c, fs' := Pop(p), p[|p| - 1], Insert(fs, p, e);
    forall q | q in fs' && fs'[q].Dir?
      ensures (forall x | x in fs'[q].children :: ValidName(x)) && NoDuplicates(fs'[q].children)
    {
      if q == parent {
        var cs := fs[parent].children;
        assert fs'[q].children == cs + [c];
        forall i, j | 0 <= i < j < |cs + [c]| ensures (cs + [c])[i] != (cs + [c])[j] {
          if j == |cs| { assert cs[i] in cs; }
        }
      } else if q != p {
        assert fs'[q] == fs[q];
      }
    }
  }

  lemma InsertListedExist(fs: FileSystem, p: Path, e: Entry)
    requires ListedExist(fs) && CreateError(fs, p) == None
    requires e.File? || (e.Dir? && e.children == [])
    ensures ListedExist(Insert(fs, p, e))
  {
    var parent, c, fs' := Pop(p), p[|p| - 1], Insert(fs, p, e);
    PopLast(p);
    forall q, x | q in fs' && fs'[q].Dir? && x in fs'[q].children
      ensures q + [x] in fs'
    {
      if q == parent {
        assert x in fs[parent].children || x == c;
      } else if q != p {
        assert fs'[q] == fs[q];
        assert q + [x] in fs;
      }
    }
  }

  lemma InsertExistListed(fs: FileSystem, p: Path, e: Entry)
    requires ExistListed(fs) && CreateError(fs, p) == None
    ensures ExistListed(Insert(fs, p, e))
  {
    var parent, c, fs' := Pop(p), p[|p| - 1], Insert(fs, p, e);
    forall q | q in fs' && q != []
      ensures IsDir(fs', Pop(q)) && q[|q| - 1] in fs'[Pop(q)].children
    {
      if q != p {
        assert q in fs;
        assert IsDir(fs, Pop(q)) && q[|q| - 1] in fs[Pop(q)].children;
        assert Pop(q) != p;
        if Pop(q) != parent {
          assert fs'[Pop(q)] == fs[Pop(q)];
        }
      }
    }
  }

  /** Deleting a file keeps the tree consistent. */
  lemma DeleteKeepsWellFormed(fs: FileSystem, p: Path)
    requires WellFormed(fs) && RemoveError(fs, p) == None
    ensures WellFormed(Delete(fs, p))
    ensures p !in Delete(fs, p)
  {
    assert p != [] by {
      assert IsDir(fs, []);
    }
    assert IsDir(fs, Pop(p));
    DeleteTreeShaped(fs, p);
    DeleteListedExist(fs, p);
    DeleteExistListed(fs, p);
  }

  lemma DeleteTreeShaped(fs: FileSystem, p: Path)
    requires TreeShaped(fs) && p != [] && IsDir(fs, Pop(p)) && p in fs && !fs[p].Dir?
    ensures TreeShaped(Delete(fs, p))
  {
    var parent, fs' := Pop(p), Delete(fs, p);
    forall q | q in fs' && fs'[q].Dir?
      ensures (forall x | x in fs'[q].children :: ValidName(x)) && NoDuplicates(fs'[q].children)
    {
      if q != parent {
        assert fs'[q] == fs[q];
      }
    }
  }

  lemma DeleteListedExist(fs: FileSystem, p: Path)
    requires ListedExist(fs) && p != [] && IsDir(fs, Pop(p)) && p in fs && !fs[p].Dir?
    ensures ListedExist(Delete(fs, p))
  {
    var parent, c, fs' := Pop(p), p[|p| - 1], Delete(fs, p);
    PopLast(p);
    forall q, x | q in fs' && fs'[q].Dir? && x in fs'[q].children
      ensures q + [x] in fs'
    {
      if q == parent {
        assert x in fs[parent].children && x != c;
        assert q + [x] in fs;
      } else {
        assert fs'[q] == fs[q];
        assert q + [x] in fs;
        assert Pop(q + [x]) == q;
        assert q + [x] != p;
      }
    }
  }

  lemma DeleteExistListed(fs: FileSystem, p: Path)
    requires ExistListed(fs) && p != [] && IsDir(fs, Pop(p)) && p in fs && !fs[p].Dir?
    ensures ExistListed(Delete(fs, p))
  {
    forall q | q in Delete(fs, p) && q != []
      ensures IsDir(Delete(fs, p), Pop(q)) && q[|q| - 1] in Delete(fs, p)[Pop(q)].children
    {
      DeleteKeepsListed(fs, p, q);
    }
  }

  lemma DeleteKeepsListed(fs: FileSystem, p: Path, q: Path)
    requires ExistListed(fs) && p != [] && IsDir(fs, Pop(p)) && p in fs && !fs[p].Dir?
    requires q in Delete(fs, p) && q != []
    ensures IsDir(Delete(fs, p), Pop(q)) && q[|q| - 1] in Delete(fs, p)[Pop(q)].children
  {
    var parent, c := Pop(p), p[|p| - 1];
    var d := fs[parent];
    DeleteEntries(fs, p);
    var up, last := Pop(q), q[|q| - 1];
    assert IsDir(fs, up) && last in fs[up].children;
    if up == parent {
      assert last != c by {
        PopLast(q);
        PopLast(p);
      }
      assert last in Without(d.children, c);
    }
  }

  /** What deleting `p` does to each entry: `p` goes, its parent forgets it, the rest stay. */
  lemma DeleteEntries(fs: FileSystem, p: Path)
    requires p != [] && IsDir(fs, Pop(p)) && p in fs && !fs[p].Dir?
    ensures forall r :: r in Delete(fs, p) <==> r in fs && r != p
    ensures Delete(fs, p)[Pop(p)] == Dir(Without(fs[Pop(p)].children, p[|p| - 1]), fs[Pop(p)].readable)
    ensures forall r | r in Delete(fs, p) && r != Pop(p) :: Delete(fs, p)[r] == fs[r]
  {
  }

  /** The machine's filesystem, which the creating and deleting calls change in place. */
  class Disk {
    var fs: FileSystem

    constructor (fs: FileSystem)
      ensures this.fs == fs
    {
      this.fs := fs;
    }

    /** `File::create_new(p)`: a new, empty, readable file. */
    method CreateNew(p: Path) returns (r: Result<(), IoError>)
      modifies this
      ensures CreateError(old(fs), p).Some? ==> r == Err(CreateError(old(fs), p).value) && fs == old(fs)
      ensures CreateError(old(fs), p).None? ==> r == Ok(()) && fs == Insert(old(fs), p, File([], true))
    {
      var e := CreateError(fs, p);
      if e.Some? {
        return Err(e.value);
      }
      fs := Insert(fs, p, File([], true));
      return Ok(());
    }

    /** `fs::create_dir(p)`: one new, empty, readable directory; no ancestor is created. */
    method CreateDir(p: Path) returns (r: Result<(), IoError>)
      modifies this
      ensures CreateError(old(fs), p).Some? ==> r == Err(CreateError(old(fs), p).value) && fs == old(fs)
      ensures CreateError(old(fs), p).None? ==> r == Ok(()) && fs == Insert(old(fs), p, Dir([], true))
    {
      var e := CreateError(fs, p);
      if e.Some? {
        return Err(e.value);
      }
      fs := Insert(fs, p, Dir([], true));
      return Ok(());
    }

    /** `fs::remove_file(p)`. */
    method RemoveFile(p: Path) returns (r: Result<(), IoError>)
      modifies this
      ensures RemoveError(old(fs), p).Some? ==> r == Err(RemoveError(old(fs), p).value) && fs == old(fs)
      ensures RemoveError(old(fs), p).None? ==> r == Ok(()) && fs == Delete(old(fs), p)
    {
      var e := RemoveError(fs, p);
      if e.Some? {
        return Err(e.value);
      }
      fs := Delete(fs, p);
      return Ok(());
    }
  }
}
