/**
 * Running `git` for a folder, finding whether a folder is already tracked, and
 * setting up tracking (src/actions/folder/sync/setup.rs). The `git` program is
 * an oracle: each call is answered from the calls made so far, and every call
 * is appended to a log, so the model can say which commands run, where, and
 * in what order.
 */
module GitSync {
  import opened Wrappers
  import opened Text
  import opened Paths
  import opened Fs
  import opened FolderModel

  /** One call of `git`: the directory it runs in and its arguments. */
  datatype Invocation = Invocation(cwd: Path, args: seq<string>)

  /**
   * How a call ends: `git` exits, successfully or not, or the process cannot be
   * spawned, waited for or read from.
   */
  datatype Run = Exited(success: bool) | SpawnFailed(io: IoError)

  /** `std::process::ExitStatus`, reduced to whether it is a success. */
  datatype ExitStatus = ExitStatus(success: bool)

  datatype SetupSyncError =
    | SyncExists
    | Git(command: string)   // the arguments joined by spaces
    | SetupIo(io: IoError)

  /** What `git` does when called, given every call made before. */
  type Oracle = (seq<Invocation>, Invocation) -> Run

  /** The machine's `git`: it answers from the oracle and remembers every call. */
  class GitProcess {
    var log: seq<Invocation>
    const oracle: Oracle

    constructor (oracle: Oracle)
      ensures log == [] && this.oracle == oracle
    {
      log := [];
      this.oracle := oracle;
    }

    /** Spawns `git` with `args` in `cwd` and waits for it to end. */
    method Spawn(cwd: Path, args: seq<string>) returns (run: Run)
      modifies this
      ensures log == old(log) + [Invocation(cwd, args)]
      ensures run == oracle(old(log), Invocation(cwd, args))
    {
      run := oracle(log, Invocation(cwd, args));
      log := log + [Invocation(cwd, args)];
    }
  }

  /**
   * The result `sync_run_git_command_conf` makes of a call: an unsuccessful exit
   * is an error naming the command unless errors are ignored, and a process that
   * cannot be run is always an error.
   */
  function CommandResult(run: Run, args: seq<string>, ignoreErrors: bool): (r: Result<ExitStatus, SetupSyncError>)
    ensures r.Ok? <==> run.Exited? && (run.success || ignoreErrors)
    ensures r.Ok? ==> r.value.success == run.success
    ensures r.Err? && run.Exited? ==> r.error == Git(Join(args, " "))
    ensures run.SpawnFailed? ==> r == Err(SetupIo(run.io))
  {
    match run
    case SpawnFailed(e) => Err(SetupIo(e))
    case Exited(ok) => if !ok && !ignoreErrors then Err(Git(Join(args, " "))) else Ok(ExitStatus(ok))
  }

  /** With errors ignored, only a process that cannot be run makes an error. */
  lemma IgnoredErrorsNeverAbort(run: Run, args: seq<string>)
    ensures CommandResult(run, args, true).Err? <==> run.SpawnFailed?
    ensures CommandResult(run, args, true) != CommandResult(run, args, false) <==> run == Exited(false)
  {
  }

  /** `Folder::sync_run_git_command_conf`: runs `git args` in the folder and applies the error rule. */
  method RunGitCommandConf(git: GitProcess, folder: Folder, args: seq<string>, ignoreErrors: bool)
    returns (r: Result<ExitStatus, SetupSyncError>)
    modifies git
    ensures git.log == old(git.log) + [Invocation(folder.GetPath(), args)]
    ensures r == CommandResult(git.oracle(old(git.log), Invocation(folder.GetPath(), args)), args, ignoreErrors)
  {
    var run := git.Spawn(folder.GetPath(), args);
    if run.SpawnFailed? {
      return Err(SetupIo(run.io));
    }
    if !run.success && !ignoreErrors {
      return Err(Git(Join(args, " ")));
    }
    return Ok(ExitStatus(run.success));
  }

  /** `Folder::sync_run_git_command`: the same, with errors not ignored. */
  method RunGitCommand(git: GitProcess, folder: Folder, args: seq<string>) returns (r: Result<ExitStatus, SetupSyncError>)
    modifies git
    ensures git.log == old(git.log) + [Invocation(folder.GetPath(), args)]
    ensures r == CommandResult(git.oracle(old(git.log), Invocation(folder.GetPath(), args)), args, false)
  {
    r := RunGitCommandConf(git, folder, args, false);
  }

  /** One command of a fixed sequence, and whether its failures are ignored. */
  datatype Step = Step(args: seq<string>, ignoreErrors: bool)

  /** Where a sequence of commands ends, and the log of calls after it. */
  datatype Session = Session(result: Result<(), SetupSyncError>, log: seq<Invocation>)

  /** A sequence of commands run in `cwd`, each with `?`: the first error ends it. */
  function RunSteps(oracle: Oracle, log: seq<Invocation>, cwd: Path, steps: seq<Step>): Session
    decreases |steps|
  {
    if steps == [] then Session(Ok(()), log)
    else
      var call := Invocation(cwd, steps[0].args);
      match CommandResult(oracle(log, call), steps[0].args, steps[0].ignoreErrors)
      case Err(e) => Session(Err(e), log + [call])
      case Ok(_) => RunSteps(oracle, log + [call], cwd, steps[1..])
  }

  /** The calls that the steps make, in order. */
  function Calls(cwd: Path, steps: seq<Step>): (r: seq<Invocation>)
    ensures |r| == |steps|
    ensures forall j | 0 <= j < |steps| :: r[j] == Invocation(cwd, steps[j].args)
  {
    seq(|steps|, j requires 0 <= j < |steps| => Invocation(cwd, steps[j].args))
  }

  /** What step `j` makes of its call, when every step before it has been called. */
  function StepResult(oracle: Oracle, log: seq<Invocation>, cwd: Path, steps: seq<Step>, j: nat): Result<ExitStatus, SetupSyncError>
    requires j < |steps|
  {
    var call := Invocation(cwd, steps[j].args);
    CommandResult(oracle(log + Calls(cwd, steps[..j]), call), steps[j].args, steps[j].ignoreErrors)
  }

  /** The history before step `j + 1` is the history before step `j` of the rest, after the first call. */
  lemma CallsShift(log: seq<Invocation>, cwd: Path, steps: seq<Step>, j: nat)
    requires j < |steps|
    ensures log + Calls(cwd, steps[..j + 1]) == (log + [Invocation(cwd, steps[0].args)]) + Calls(cwd, steps[1..][..j])
  {
    var a := log + Calls(cwd, steps[..j + 1]);
    var b := (log + [Invocation(cwd, steps[0].args)]) + Calls(cwd, steps[1..][..j]);
    assert |a| == |b|;
    forall k | 0 <= k < |a|
      ensures a[k] == b[k]
    {
      if k > |log| {
        assert steps[..j + 1][k - |log|] == steps[1..][..j][k - |log| - 1];
      }
    }
  }

  lemma StepResultShift(oracle: Oracle, log: seq<Invocation>, cwd: Path, steps: seq<Step>, j: nat)
    requires j + 1 < |steps|
    ensures StepResult(oracle, log, cwd, steps, j + 1)
      == StepResult(oracle, log + [Invocation(cwd, steps[0].args)], cwd, steps[1..], j)
  {
    CallsShift(log, cwd, steps, j);
    assert steps[j + 1] == steps[1..][j];
  }

  /** When every step succeeds, every command is called, in order, and the sequence succeeds. */
  lemma {:induction false} RunStepsAllPass(oracle: Oracle, log: seq<Invocation>, cwd: Path, steps: seq<Step>)
    requires forall j | 0 <= j < |steps| :: StepResult(oracle, log, cwd, steps, j).Ok?
    ensures RunSteps(oracle, log, cwd, steps) == Session(Ok(()), log + Calls(cwd, steps))
    decreases |steps|
  {
    if steps == [] {
      assert log + Calls(cwd, steps) == log;
    } else {
      var call := Invocation(cwd, steps[0].args);
      assert log + Calls(cwd, steps[..0]) == log;
      assert StepResult(oracle, log, cwd, steps, 0).Ok?;
      forall j | 0 <= j < |steps[1..]|
        ensures StepResult(oracle, log + [call], cwd, steps[1..], j).Ok?
      {
        StepResultShift(oracle, log, cwd, steps, j);
      }
      RunStepsAllPass(oracle, log + [call], cwd, steps[1..]);
      CallsShift(log, cwd, steps, |steps| - 1);
      assert steps[..|steps|] == steps;
      assert steps[1..][..|steps| - 1] == steps[1..];
    }
  }

  /**
   * When step `k` is the first to fail, the commands up to and including it are
   * called, no later one is, and the sequence fails with that step's error.
   */
  lemma {:induction false} RunStepsFailsAt(oracle: Oracle, log: seq<Invocation>, cwd: Path, steps: seq<Step>, k: nat)
    requires k < |steps| && StepResult(oracle, log, cwd, steps, k).Err?
    requires forall j | 0 <= j < k :: StepResult(oracle, log, cwd, steps, j).Ok?
    ensures RunSteps(oracle, log, cwd, steps)
      == Session(Err(StepResult(oracle, log, cwd, steps, k).error), log + Calls(cwd, steps[..k + 1]))
    decreases k
  {
    var call := Invocation(cwd, steps[0].args);
    assert log + Calls(cwd, steps[..0]) == log;
    if k == 0 {
      assert Calls(cwd, steps[..1]) == [call];
    } else {
      assert StepResult(oracle, log, cwd, steps, 0).Ok?;
      forall j | 0 <= j < k - 1
        ensures StepResult(oracle, log + [call], cwd, steps[1..], j).Ok?
      {
        StepResultShift(oracle, log, cwd, steps, j);
      }
      StepResultShift(oracle, log, cwd, steps, k - 1);
      RunStepsFailsAt(oracle, log + [call], cwd, steps[1..], k - 1);
      CallsShift(log, cwd, steps, k);
    }
  }

  /** Where `tmp.push(".git")` points: the `.git` entry inside `p`. */
  function GitDir(p: Path): Path {
    p + [".git"]
  }

  /** `GitDir` is what pushing `.git` gives. */
  lemma GitDirIsPush(p: Path)
    ensures Push(p, ".git") == GitDir(p)
  {
    PushName(p, ".git");
  }

  /**
   * Whether some directory from `p` up to, but not including, `dataDir` holds a
   * `.git` entry: what `sync_exists` answers.
   */
  function RepositoryAbove(fs: FileSystem, dataDir: Path, p: Path): bool
    requires dataDir <= p
    decreases |p|
  {
    if p == dataDir then false
    else Exists(fs, GitDir(p)) || RepositoryAbove(fs, dataDir, Pop(p))
  }

  /** The directories `sync_exists` looks in are those strictly below `dataDir` on the way to `p`. */
  lemma {:induction false} RepositoryAboveIff(fs: FileSystem, dataDir: Path, p: Path)
    requires dataDir <= p
    ensures RepositoryAbove(fs, dataDir, p) <==>
      exists k | |dataDir| < k <= |p| :: Exists(fs, GitDir(p[..k]))
    decreases |p|
  {
    if p != dataDir {
      var up := Pop(p);
      RepositoryAboveIff(fs, dataDir, up);
      assert p[..|p|] == p;
      if RepositoryAbove(fs, dataDir, up) && !Exists(fs, GitDir(p)) {
        var k :| |dataDir| < k <= |up| && Exists(fs, GitDir(up[..k]));
        assert up[..k] == p[..k];
      }
      if exists k | |dataDir| < k <= |p| :: Exists(fs, GitDir(p[..k])) {
        var k :| |dataDir| < k <= |p| && Exists(fs, GitDir(p[..k]));
        if k < |p| {
          assert up[..k] == p[..k];
        }
      }
    }
  }

  /**
   * `dataDir` itself is never looked in: two filesystems that differ only at
   * `dataDir/.git` give the same answer.
   */
  lemma {:induction false} DataDirNeverChecked(fs: FileSystem, fs': FileSystem, dataDir: Path, p: Path)
    requires dataDir <= p
    requires forall q :: q != dataDir + [".git"] ==> (q in fs <==> q in fs')
    ensures RepositoryAbove(fs, dataDir, p) == RepositoryAbove(fs', dataDir, p)
    decreases |p|
  {
    if p != dataDir {
      assert |GitDir(p)| > |dataDir + [".git"]|;
      DataDirNeverChecked(fs, fs', dataDir, Pop(p));
    }
  }

  /**
   * `Folder::sync_exists`: walks up from the folder to the data directory. The
   * walk only ends when it meets `dataDir`, so the folder must lie inside it.
   */
  method SyncExistsIn(fs: FileSystem, folder: Folder, dataDir: Path) returns (found: bool)
    requires dataDir <= folder.GetPath()
    ensures found == RepositoryAbove(fs, dataDir, folder.GetPath())
  {
    var path := folder.GetPath();
    while path != dataDir
      invariant dataDir <= path
      invariant RepositoryAbove(fs, dataDir, path) == RepositoryAbove(fs, dataDir, folder.GetPath())
      decreases |path|
    {
      GitDirIsPush(path);
      var tmp := Push(path, ".git");
      if Exists(fs, tmp) {
        return true;
      }
      path := Pop(path);
    }
    return false;
  }

  /** The four commands of `sync_setup`, none of which ignores errors. */
  function SetupSteps(repo: string, branch: string): seq<Step> {
    [ Step(["init", "-b", branch], false),
      Step(["remote", "add", "origin", repo], false),
      Step(["fetch", "origin"], false),
      Step(["checkout", "-b", branch, "origin/" + branch], false) ]
  }

  /**
   * A sequence of commands succeeds exactly when every command does, and then
   * calls them all in order; otherwise it calls the commands up to the first
   * that fails, in order, and returns that command's error.
   */
  lemma StopsAtFirstFailure(oracle: Oracle, log: seq<Invocation>, cwd: Path, steps: seq<Step>)
    ensures RunSteps(oracle, log, cwd, steps).result.Ok? <==>
      forall j | 0 <= j < |steps| :: StepResult(oracle, log, cwd, steps, j).Ok?
    ensures RunSteps(oracle, log, cwd, steps).result.Ok? ==>
      RunSteps(oracle, log, cwd, steps).log == log + Calls(cwd, steps)
    ensures forall k | 0 <= k < |steps| && StepResult(oracle, log, cwd, steps, k).Err? &&
        (forall j | 0 <= j < k :: StepResult(oracle, log, cwd, steps, j).Ok?) ::
      RunSteps(oracle, log, cwd, steps)
        == Session(Err(StepResult(oracle, log, cwd, steps, k).error), log + Calls(cwd, steps[..k + 1]))
  {
    if forall j | 0 <= j < |steps| :: StepResult(oracle, log, cwd, steps, j).Ok? {
      RunStepsAllPass(oracle, log, cwd, steps);
    } else {
      var k := FirstFailure(oracle, log, cwd, steps);
      RunStepsFailsAt(oracle, log, cwd, steps, k);
    }
    forall k | 0 <= k < |steps| && StepResult(oracle, log, cwd, steps, k).Err? &&
        (forall j | 0 <= j < k :: StepResult(oracle, log, cwd, steps, j).Ok?)
      ensures RunSteps(oracle, log, cwd, steps)
        == Session(Err(StepResult(oracle, log, cwd, steps, k).error), log + Calls(cwd, steps[..k + 1]))
    {
      RunStepsFailsAt(oracle, log, cwd, steps, k);
    }
  }

  /** The first step that fails, when one does. */
  lemma FirstFailure(oracle: Oracle, log: seq<Invocation>, cwd: Path, steps: seq<Step>) returns (k: nat)
    requires exists j | 0 <= j < |steps| :: StepResult(oracle, log, cwd, steps, j).Err?
    ensures k < |steps| && StepResult(oracle, log, cwd, steps, k).Err?
    ensures forall j | 0 <= j < k :: StepResult(oracle, log, cwd, steps, j).Ok?
  {
    k := 0;
    while StepResult(oracle, log, cwd, steps, k).Ok?
      invariant k < |steps|
      invariant forall j | 0 <= j < k :: StepResult(oracle, log, cwd, steps, j).Ok?
      invariant exists j | k <= j < |steps| :: StepResult(oracle, log, cwd, steps, j).Err?
      decreases |steps| - k
    {
      k := k + 1;
    }
  }

  /**
   * `Folder::sync_setup`: refused when the folder is already tracked, otherwise
   * the four commands in order, in the folder, stopping at the first failure.
   */
  method SyncSetup(fs: FileSystem, git: GitProcess, folder: Folder, dataDir: Path, repo: string, branch: string)
    returns (r: Result<(), SetupSyncError>)
    requires dataDir <= folder.GetPath()
    modifies git
    ensures RepositoryAbove(fs, dataDir, folder.GetPath()) ==> r == Err(SyncExists) && git.log == old(git.log)
    ensures !RepositoryAbove(fs, dataDir, folder.GetPath()) ==>
      Session(r, git.log) == RunSteps(git.oracle, old(git.log), folder.GetPath(), SetupSteps(repo, branch))
  {
    var tracked := SyncExistsIn(fs, folder, dataDir);
    if tracked {
      return Err(SyncExists);
    }
    ghost var steps := SetupSteps(repo, branch);
    ghost var cwd := folder.GetPath();
    var init := RunGitCommand(git, folder, ["init", "-b", branch]);
    if init.Err? {
      return Err(init.error);
    }
    assert RunSteps(git.oracle, old(git.log), cwd, steps) == RunSteps(git.oracle, git.log, cwd, steps[1..]);
    var remote := RunGitCommand(git, folder, ["remote", "add", "origin", repo]);
    if remote.Err? {
      return Err(remote.error);
    }
    assert RunSteps(git.oracle, old(git.log), cwd, steps) == RunSteps(git.oracle, git.log, cwd, steps[2..]);
    var fetch := RunGitCommand(git, folder, ["fetch", "origin"]);
    if fetch.Err? {
      return Err(fetch.error);
    }
    assert RunSteps(git.oracle, old(git.log), cwd, steps) == RunSteps(git.oracle, git.log, cwd, steps[3..]);
    var checkout := RunGitCommand(git, folder, ["checkout", "-b", branch, "origin/" + branch]);
    if checkout.Err? {
      return Err(checkout.error);
    }
    assert steps[3..][1..] == [];
    return Ok(());
  }
}
