/**
 * `Folder::sync_note` (src/actions/folder/sync/sync_note.rs): finds the nearest
 * directory at or above the folder that holds `.git`, names the note relative to
 * it, and commits and pushes that one note from there.
 */
module NoteSync {
  import opened Wrappers
  import opened Text
  import opened Paths
  import opened Fs
  import opened NoteModel
  import opened FolderModel
  import opened GitSync

  datatype SyncError =
    | GitFailure(git: SetupSyncError)
    | FolderConversion(folder: FolderError)

  /** How `sync_note` ends: it returns, or it panics on the `unwrap` of a missing file name. */
  datatype SyncNoteOutcome = Returned(result: Result<(), SyncError>) | Panicked

  /**
   * Where the walk up from `p` stops: the first of `p` and its ancestors that
   * holds `.git`. It is `None` where the walk reaches the root, or a `..`, first,
   * and `file_name().unwrap()` panics.
   */
  function GitRoot(fs: FileSystem, p: Path): Option<Path>
    decreases |p|
  {
    if Exists(fs, GitDir(p)) then Some(p)
    else if FileName(p).None? then None
    else GitRoot(fs, Pop(p))
  }

  /** The names the walk strips off on its way up, innermost first. */
  function Stripped(fs: FileSystem, p: Path): seq<string>
    decreases |p|
  {
    if Exists(fs, GitDir(p)) || FileName(p).None? then []
    else [FileName(p).value] + Stripped(fs, Pop(p))
  }

  function Reversed<T>(s: seq<T>): (r: seq<T>)
    ensures |r| == |s|
  {
    if s == [] then [] else Reversed(s[1..]) + [s[0]]
  }

  lemma {:induction false} ReversedSnoc<T>(s: seq<T>, x: T)
    ensures Reversed(s + [x]) == [x] + Reversed(s)
  {
    if s != [] {
      assert (s + [x])[1..] == s[1..] + [x];
      ReversedSnoc(s[1..], x);
    } else {
      assert Reversed([x]) == Reversed([]) + [x];
    }
  }

  lemma {:induction false} ReversedTwice<T>(s: seq<T>)
    ensures Reversed(Reversed(s)) == s
  {
    if s != [] {
      ReversedSnoc(Reversed(s[1..]), s[0]);
      ReversedTwice(s[1..]);
      assert [s[0]] + s[1..] == s;
    }
  }

  lemma {:induction false} ReversedHas<T>(s: seq<T>, x: T)
    ensures x in Reversed(s) <==> x in s
  {
    if s != [] {
      ReversedHas(s[1..], x);
      assert s == [s[0]] + s[1..];
    }
  }

  /**
   * The walk stops at the nearest directory that holds `.git`; it strips exactly
   * the components between that directory and `p`, innermost first, and none of
   * them is `..`.
   */
  lemma {:induction false} WalkFindsNearest(fs: FileSystem, p: Path, root: Path)
    requires GitRoot(fs, p) == Some(root)
    ensures root <= p && Exists(fs, GitDir(root))
    ensures forall k | |root| < k <= |p| :: !Exists(fs, GitDir(p[..k]))
    ensures forall k | |root| <= k < |p| :: p[k] != ".."
    ensures Stripped(fs, p) == Reversed(p[|root|..])
    decreases |p|
  {
    WalkStopsAtRoot(fs, p, root);
    WalkStrips(fs, p, root);
  }

  /** Where the walk from `p` stops: the nearest directory with `.git`, reached over no `..`. */
  lemma {:induction false} WalkStopsAtRoot(fs: FileSystem, p: Path, root: Path)
    requires GitRoot(fs, p) == Some(root)
    ensures root <= p && Exists(fs, GitDir(root))
    ensures forall k | |root| < k <= |p| :: !Exists(fs, GitDir(p[..k]))
    ensures forall k | |root| <= k < |p| :: p[k] != ".."
    decreases |p|
  {
    if !Exists(fs, GitDir(p)) {
      var up := Pop(p);
      WalkStopsAtRoot(fs, up, root);
      PopLast(p);
      forall k | |root| < k <= |p|
        ensures !Exists(fs, GitDir(p[..k]))
      {
        if k < |p| {
          assert p[..k] == up[..k];
        } else {
          assert p[..k] == p;
        }
      }
      forall k | |root| <= k < |p|
        ensures p[k] != ".."
      {
        if k < |up| {
          assert p[k] == up[k];
        } else {
          assert FileName(p).Some?;
        }
      }
    }
  }

  /** What the walk from `p` strips: the components below its root, innermost first. */
  lemma {:induction false} WalkStrips(fs: FileSystem, p: Path, root: Path)
    requires GitRoot(fs, p) == Some(root)
    ensures |root| <= |p| && Stripped(fs, p) == Reversed(p[|root|..])
    decreases |p|
  {
    if Exists(fs, GitDir(p)) {
      assert p[|root|..] == [];
    } else {
      var up, last := Pop(p), p[|p| - 1];
      WalkStrips(fs, up, root);
      PopLast(p);
      assert p[|root|..] == up[|root|..] + [last];
      ReversedSnoc(up[|root|..], last);
    }
  }

  /** On a path without `..`, the walk panics exactly when neither the path nor any ancestor holds `.git`. */
  lemma {:induction false} WalkPanics(fs: FileSystem, p: Path)
    requires forall k | 0 <= k < |p| :: p[k] != ".."
    ensures GitRoot(fs, p).None? <==> forall k | 0 <= k <= |p| :: !Exists(fs, GitDir(p[..k]))
    decreases |p|
  {
    assert p[..|p|] == p;
    if p != [] && !Exists(fs, GitDir(p)) {
      var up := Pop(p);
      WalkPanics(fs, up);
      forall k | 0 <= k <= |up|
        ensures p[..k] == up[..k]
      {
      }
    }
  }

  /** Joining keeps the first character of the first part. */
  lemma JoinStartsWithFirst(parts: seq<string>, sep: string)
    requires parts != [] && parts[0] != ""
    ensures Join(parts, sep) != "" && Join(parts, sep)[0] == parts[0][0]
  {
  }

  /** `Join(xs + [y])` is `Join(xs)`, the separator and `y`. */
  lemma {:induction false} JoinSnoc(xs: seq<string>, y: string, sep: string)
    requires xs != []
    ensures Join(xs + [y], sep) == Join(xs, sep) + sep + y
  {
    if |xs| == 1 {
      assert xs + [y] == [xs[0], y];
    } else {
      assert (xs + [y])[1..] == xs[1..] + [y];
      JoinSnoc(xs[1..], y, sep);
    }
  }

  /** Pushing names joined by `/` appends those names. */
  lemma PushJoined(base: Path, cs: seq<string>)
    requires cs != [] && forall k | 0 <= k < |cs| :: ValidName(cs[k])
    ensures Push(base, Join(cs, "/")) == base + cs
  {
    JoinStartsWithFirst(cs, "/");
    assert cs[0][0] in cs[0];
    ComponentsOfJoin(cs);
  }

  /**
   * The argument of `git add` as the source builds it: the stripped names in the
   * order the walk collected them, innermost first, then the note's name.
   */
  function AddArgumentAsWritten(stripped: seq<string>, name: string): string {
    if stripped == [] then name else Join(stripped, "/") + "/" + name
  }

  /** The argument meant: the note's path relative to the repository, outermost name first. */
  function RelativeName(stripped: seq<string>, name: string): string {
    AddArgumentAsWritten(Reversed(stripped), name)
  }

  /** Names, then one more name, joined by `/` and pushed onto `root`, are appended to it. */
  lemma PushNamesThenName(root: Path, names: seq<string>, name: string)
    requires ValidName(name) && forall k | 0 <= k < |names| :: ValidName(names[k])
    ensures Push(root, AddArgumentAsWritten(names, name)) == root + names + [name]
  {
    var cs := names + [name];
    forall k | 0 <= k < |cs|
      ensures ValidName(cs[k])
    {
      if k < |names| {
        assert cs[k] == names[k];
      }
    }
    if names != [] {
      JoinSnoc(names, name, "/");
      assert AddArgumentAsWritten(names, name) == Join(cs, "/");
    } else {
      assert cs == [name];
      assert AddArgumentAsWritten(names, name) == Join(cs, "/");
    }
    PushJoined(root, cs);
  }

  /** The names between `root` and `p`, when the walk from `p` stops at `root`, are file names. */
  lemma StrippedAreNames(fs: FileSystem, p: Path, root: Path)
    requires ValidPath(p) && GitRoot(fs, p) == Some(root)
    ensures root <= p && Stripped(fs, p) == Reversed(p[|root|..])
    ensures forall k | 0 <= k < |p[|root|..]| :: ValidName(p[|root|..][k])
  {
    WalkFindsNearest(fs, p, root);
    forall k | 0 <= k < |p[|root|..]|
      ensures ValidName(p[|root|..][k])
    {
      assert p[|root|..][k] == p[|root| + k];
    }
  }

  /**
   * The relative name, pushed onto the repository's directory, names the note
   * in the folder: `git add` run there adds exactly that file.
   */
  lemma RelativeNameNamesNote(fs: FileSystem, folder: Folder, note: Note, root: Path)
    requires ValidPath(folder.GetPath()) && ValidName(note.name)
    requires GitRoot(fs, folder.GetPath()) == Some(root)
    ensures Push(root, RelativeName(Stripped(fs, folder.GetPath()), note.name)) == folder.GetPath() + [note.name]
    ensures note.path == folder.GetPath() ==>
      Push(root, RelativeName(Stripped(fs, folder.GetPath()), note.name)) == note.GetPath()
  {
    var p := folder.GetPath();
    StrippedAreNames(fs, p, root);
    var between := p[|root|..];
    ReversedTwice(between);
    PushNamesThenName(root, between, note.name);
    assert RelativeName(Reversed(between), note.name) == AddArgumentAsWritten(between, note.name);
    assert root + between == p;
  }

  /**
   * As written, the argument names the stripped directories in reverse: pushed
   * onto the repository's directory it gives the innermost name first.
   */
  lemma AsWrittenNamesReversedPath(fs: FileSystem, folder: Folder, note: Note, root: Path)
    requires ValidPath(folder.GetPath()) && ValidName(note.name)
    requires GitRoot(fs, folder.GetPath()) == Some(root)
    ensures root <= folder.GetPath()
    ensures Push(root, AddArgumentAsWritten(Stripped(fs, folder.GetPath()), note.name))
      == root + Reversed(folder.GetPath()[|root|..]) + [note.name]
  {
    var p := folder.GetPath();
    StrippedAreNames(fs, p, root);
    var stripped := Stripped(fs, p);
    forall k | 0 <= k < |stripped|
      ensures ValidName(stripped[k])
    {
      ReversedHas(p[|root|..], stripped[k]);
    }
    PushNamesThenName(root, stripped, note.name);
  }

  /** With at most one stripped name the two arguments agree. */
  lemma AsWrittenAgreesUpToOneLevel(stripped: seq<string>, name: string)
    requires |stripped| <= 1
    ensures AddArgumentAsWritten(stripped, name) == RelativeName(stripped, name)
  {
    if |stripped| == 1 {
      assert Reversed(stripped) == Reversed(stripped[1..]) + [stripped[0]];
    }
    assert Reversed(stripped) == stripped;
  }

  /** With exactly two distinct stripped names, the argument as written is not the one meant. */
  lemma AsWrittenDiffersFromTwoLevels(stripped: seq<string>, name: string)
    requires |stripped| == 2 && stripped[0] != stripped[1] && '/' !in stripped[0] && '/' !in stripped[1]
    ensures AddArgumentAsWritten(stripped, name) != RelativeName(stripped, name)
  {
    var a, b := stripped[0], stripped[1];
    assert Reversed(stripped) == [b, a] by {
      assert stripped[1..] == [b];
      assert Reversed([b]) == Reversed([]) + [b];
    }
    assert stripped[1..] == [b];
    assert Join(stripped, "/") == a + "/" + b;
    assert Join([b, a], "/") == b + "/" + a by {
      assert [b, a][1..] == [a];
    }
    assert AddArgumentAsWritten(stripped, name) == a + "/" + b + "/" + name;
    assert RelativeName(stripped, name) == AddArgumentAsWritten([b, a], name) == b + "/" + a + "/" + name;
    assert a + "/" + b + "/" + name == a + "/" + (b + "/" + name);
    assert b + "/" + a + "/" + name == b + "/" + (a + "/" + name);
    SeparatedPartsDiffer(a, b, b + "/" + name, a + "/" + name);
  }

  /** Two texts that begin with different `/`-free parts followed by `/` differ. */
  lemma SeparatedPartsDiffer(a: string, b: string, x: string, y: string)
    requires a != b && '/' !in a && '/' !in b
    ensures a + "/" + x != b + "/" + y
  {
    PiecesOfSeparated(a, x);
    PiecesOfSeparated(b, y);
    assert Pieces(a + "/" + x)[0] == a;
    assert Pieces(b + "/" + y)[0] == b;
  }

  /**
   * A note `n` in folder `/a/b` of a repository at `/`: the walk strips `b`
   * then `a`, and the argument as written, `b/a/n`, names `/b/a/n` and not the note.
   */
  lemma AsWrittenAddsWrongFile(fs: FileSystem, folder: Folder)
    requires fs == map[[".git"] := Dir([], true)] && folder == Folder(["a"], "b")
    ensures GitRoot(fs, folder.GetPath()) == Some([])
    ensures Stripped(fs, folder.GetPath()) == ["b", "a"]
    ensures AddArgumentAsWritten(Stripped(fs, folder.GetPath()), "n") == "b/a/n"
    ensures Push([], AddArgumentAsWritten(Stripped(fs, folder.GetPath()), "n")) == ["b", "a", "n"]
    ensures Push([], AddArgumentAsWritten(Stripped(fs, folder.GetPath()), "n")) != Note(folder.GetPath(), "n").GetPath()
  {
    ExamplePaths();
    ExampleWalk(fs);
    ExampleArgumentText();
    ExampleArgumentPath();
  }

  /** The folder and the note of the example. */
  lemma ExamplePaths()
    ensures Folder(["a"], "b").GetPath() == ["a", "b"]
    ensures Note(["a", "b"], "n").GetPath() == ["a", "b", "n"]
  {
    assert ValidName("b") && ValidName("n");
  }

  /** The argument of the example, as text. */
  lemma ExampleArgumentText()
    ensures AddArgumentAsWritten(["b", "a"], "n") == "b/a/n"
  {
    assert ["b", "a"][1..] == ["a"];
  }

  /** The argument of the example, pushed onto the repository's directory. */
  lemma ExampleArgumentPath()
    ensures Push([], AddArgumentAsWritten(["b", "a"], "n")) == ["b", "a", "n"]
  {
    PushNamesThenName([], ["b", "a"], "n");
  }

  /** The walk of the example: from `/a/b` up to `/`, which alone holds `.git`. */
  lemma ExampleWalk(fs: FileSystem)
    requires fs == map[[".git"] := Dir([], true)]
    ensures GitRoot(fs, ["a", "b"]) == Some([]) && Stripped(fs, ["a", "b"]) == ["b", "a"]
  {
    assert Pop(["a", "b"]) == ["a"];
    assert Pop(["a"]) == [];
    assert GitDir([]) == [".git"];
    assert GitRoot(fs, []) == Some([]);
    assert GitRoot(fs, ["a"]) == Some([]);
    assert Stripped(fs, ["a"]) == ["a"];
  }

  /** The three commands of `sync_note`, none of which ignores errors. */
  function SyncNoteSteps(addArgument: string, name: string): seq<Step> {
    [ Step(["add", addArgument], false),
      Step(["commit", "-m", "[nb-rs] Changed " + name], false),
      Step(["push"], false) ]
  }

  /** A failing commit ends the sync: the note was added, and nothing is pushed. */
  lemma FailedCommitStopsPush(oracle: Oracle, log: seq<Invocation>, root: Path, addArgument: string, name: string)
    requires StepResult(oracle, log, root, SyncNoteSteps(addArgument, name), 0).Ok?
    requires StepResult(oracle, log, root, SyncNoteSteps(addArgument, name), 1).Err?
    ensures RunSteps(oracle, log, root, SyncNoteSteps(addArgument, name)).log
      == log + [Invocation(root, ["add", addArgument]), Invocation(root, ["commit", "-m", "[nb-rs] Changed " + name])]
    ensures RunSteps(oracle, log, root, SyncNoteSteps(addArgument, name)).result.Err?
  {
    var steps := SyncNoteSteps(addArgument, name);
    RunStepsFailsAt(oracle, log, root, steps, 1);
    assert Calls(root, steps[..2]) == [Invocation(root, ["add", addArgument]), Invocation(root, ["commit", "-m", "[nb-rs] Changed " + name])];
  }

  function SyncResult(r: Result<(), SetupSyncError>): (s: Result<(), SyncError>)
    ensures s.Ok? <==> r.Ok?
    ensures r.Err? ==> s == Err(GitFailure(r.error))
  {
    match r
    case Ok(_) => Ok(())
    case Err(e) => Err(GitFailure(e))
  }

  /** One step of the walk from `p`: it stops, it panics, or it goes on from the parent with one more name. */
  lemma WalkStep(fs: FileSystem, p: Path)
    ensures Exists(fs, GitDir(p)) ==> GitRoot(fs, p) == Some(p) && Stripped(fs, p) == []
    ensures !Exists(fs, GitDir(p)) && FileName(p).None? ==> GitRoot(fs, p) == None
    ensures !Exists(fs, GitDir(p)) && FileName(p).Some? ==>
      GitRoot(fs, p) == GitRoot(fs, Pop(p)) && Stripped(fs, p) == [FileName(p).value] + Stripped(fs, Pop(p))
  {
  }

  lemma ConcatAssociates<T>(a: seq<T>, b: seq<T>, c: seq<T>)
    ensures a + (b + c) == (a + b) + c
  {
  }

  /** The invariant of the walk holds again after one step up. */
  lemma WalkGoesOn(fs: FileSystem, start: Path, p: Path, stripped: seq<string>)
    requires !Exists(fs, GitDir(p)) && FileName(p).Some?
    requires GitRoot(fs, p) == GitRoot(fs, start)
    requires stripped + Stripped(fs, p) == Stripped(fs, start)
    ensures GitRoot(fs, Pop(p)) == GitRoot(fs, start)
    ensures (stripped + [FileName(p).value]) + Stripped(fs, Pop(p)) == Stripped(fs, start)
  {
    WalkStep(fs, p);
    ConcatAssociates(stripped, [FileName(p).value], Stripped(fs, Pop(p)));
  }

  /**
   * The loop of `sync_note` that walks up from `start` to the directory holding
   * `.git`, collecting the names it strips; `None` where it would panic.
   */
  method FindRepository(fs: FileSystem, start: Path) returns (root: Option<Path>, stripped: seq<string>)
    ensures root == GitRoot(fs, start)
    ensures root.Some? ==> stripped == Stripped(fs, start)
  {
    var gitRoot := start;
    stripped := [];
    while !Exists(fs, GitDir(gitRoot))
      invariant GitRoot(fs, gitRoot) == GitRoot(fs, start)
      invariant stripped + Stripped(fs, gitRoot) == Stripped(fs, start)
      decreases |gitRoot|
    {
      var base := FileName(gitRoot);
      if base.None? {
        WalkStep(fs, gitRoot);
        return None, stripped;
      }
      WalkGoesOn(fs, start, gitRoot, stripped);
      stripped := stripped + [base.value];
      gitRoot := Pop(gitRoot);
    }
    WalkStep(fs, gitRoot);
    assert stripped + [] == stripped;
    return Some(gitRoot), stripped;
  }

  /**
   * The three commands of `sync_note`, run with `?` in the repository's
   * directory: `add`, `commit` and `push`, the first failure ending them.
   */
  method CommitNote(git: GitProcess, rootFolder: Folder, addArgument: string, name: string) returns (r: Result<(), SyncError>)
    modifies git
    ensures var s := RunSteps(git.oracle, old(git.log), rootFolder.GetPath(), SyncNoteSteps(addArgument, name));
      r == SyncResult(s.result) && git.log == s.log
  {
    ghost var root := rootFolder.GetPath();
    ghost var steps := SyncNoteSteps(addArgument, name);
    var added := RunGitCommand(git, rootFolder, ["add", addArgument]);
    if added.Err? {
      return Err(GitFailure(added.error));
    }
    assert RunSteps(git.oracle, old(git.log), root, steps) == RunSteps(git.oracle, git.log, root, steps[1..]);
    var committed := RunGitCommand(git, rootFolder, ["commit", "-m", "[nb-rs] Changed " + name]);
    if committed.Err? {
      return Err(GitFailure(committed.error));
    }
    assert RunSteps(git.oracle, old(git.log), root, steps) == RunSteps(git.oracle, git.log, root, steps[2..]);
    var pushed := RunGitCommand(git, rootFolder, ["push"]);
    if pushed.Err? {
      return Err(GitFailure(pushed.error));
    }
    assert steps[2..][1..] == [];
    assert RunSteps(git.oracle, old(git.log), root, steps) == Session(Ok(()), git.log);
    return Ok(());
  }

  /**
   * `Folder::sync_note` as written: walks up to the repository, collecting the
   * names it strips, and runs `add`, `commit` and `push` there for the note,
   * the first failure ending it. The `add` argument joins the stripped names
   * innermost first. It panics when no directory on the way holds `.git`.
   */
  method SyncNote(fs: FileSystem, git: GitProcess, folder: Folder, note: Note) returns (outcome: SyncNoteOutcome)
    modifies git
    ensures GitRoot(fs, folder.GetPath()).None? ==> outcome == Panicked && git.log == old(git.log)
    ensures GitRoot(fs, folder.GetPath()).Some? ==>
      var s := RunSteps(git.oracle, old(git.log), GitRoot(fs, folder.GetPath()).value,
        SyncNoteSteps(AddArgumentAsWritten(Stripped(fs, folder.GetPath()), note.name), note.name));
      outcome == Returned(SyncResult(s.result)) && git.log == s.log
  {
    var found, stripped := FindRepository(fs, folder.GetPath());
    if found.None? {
      return Panicked;
    }
    var rootFolder := Folder.FromPathbuf(found.value, ".").value;
    assert rootFolder.GetPath() == found.value;
    var r := CommitNote(git, rootFolder, AddArgumentAsWritten(stripped, note.name), note.name);
    return Returned(r);
  }

  /**
   * `Folder::sync_note` with the `add` argument it means: the note's path
   * relative to the repository, outermost name first. Pushed onto the
   * repository's directory, that argument is the note's path
   * (`RelativeNameNamesNote`).
   */
  method SyncNoteCorrected(fs: FileSystem, git: GitProcess, folder: Folder, note: Note) returns (outcome: SyncNoteOutcome)
    modifies git
    ensures GitRoot(fs, folder.GetPath()).None? ==> outcome == Panicked && git.log == old(git.log)
    ensures GitRoot(fs, folder.GetPath()).Some? ==>
      var s := RunSteps(git.oracle, old(git.log), GitRoot(fs, folder.GetPath()).value,
        SyncNoteSteps(RelativeName(Stripped(fs, folder.GetPath()), note.name), note.name));
      outcome == Returned(SyncResult(s.result)) && git.log == s.log
  {
    var found, stripped := FindRepository(fs, folder.GetPath());
    if found.None? {
      return Panicked;
    }
    var rootFolder := Folder.FromPathbuf(found.value, ".").value;
    assert rootFolder.GetPath() == found.value;
    var r := CommitNote(git, rootFolder, RelativeName(stripped, note.name), note.name);
    return Returned(r);
  }
}
