/**
 * `Folder::sync_manual` (src/actions/folder/sync/sync_manual.rs): in a tracked
 * folder, pulls, then stages, commits and pushes every local change, all in the
 * folder itself.
 */
module ManualSync {
  import opened Wrappers
  import opened Paths
  import opened Fs
  import opened FolderModel
  import opened GitSync

  datatype SyncManualError =
    | NoGitRepository
    | GitFailure(git: SetupSyncError)

  /** The four commands of `sync_manual`; only the commit ignores errors, since it fails when nothing changed. */
  function ManualSteps(): seq<Step> {
    [ Step(["pull"], false),
      Step(["add", "-A"], false),
      Step(["commit", "-m", "[nb-rs] Manual Sync"], true),
      Step(["push"], false) ]
  }

  /**
   * A commit that runs but fails does not stop the push: when `pull`, `add` and
   * `push` succeed and the commit process runs at all, all four commands are
   * called in order and the sync succeeds.
   */
  lemma CommitFailureDoesNotStopPush(oracle: Oracle, log: seq<Invocation>, cwd: Path)
    requires StepResult(oracle, log, cwd, ManualSteps(), 0).Ok?
    requires StepResult(oracle, log, cwd, ManualSteps(), 1).Ok?
    requires oracle(log + Calls(cwd, ManualSteps()[..2]), Invocation(cwd, ManualSteps()[2].args)).Exited?
    requires StepResult(oracle, log, cwd, ManualSteps(), 3).Ok?
    ensures RunSteps(oracle, log, cwd, ManualSteps()) == Session(Ok(()), log + Calls(cwd, ManualSteps()))
  {
    var steps := ManualSteps();
    assert StepResult(oracle, log, cwd, steps, 2).Ok?;
    forall j | 0 <= j < |steps|
      ensures StepResult(oracle, log, cwd, steps, j).Ok?
    {
    }
    RunStepsAllPass(oracle, log, cwd, steps);
  }

  /** A failing `pull` ends the sync at once: nothing else is called. */
  lemma FailedPullStopsAll(oracle: Oracle, log: seq<Invocation>, cwd: Path)
    requires StepResult(oracle, log, cwd, ManualSteps(), 0).Err?
    ensures RunSteps(oracle, log, cwd, ManualSteps()).log == log + [Invocation(cwd, ["pull"])]
    ensures RunSteps(oracle, log, cwd, ManualSteps()).result.Err?
  {
    RunStepsFailsAt(oracle, log, cwd, ManualSteps(), 0);
    assert Calls(cwd, ManualSteps()[..1]) == [Invocation(cwd, ["pull"])];
  }

  function ManualResult(r: Result<(), SetupSyncError>): (m: Result<(), SyncManualError>)
    ensures m.Ok? <==> r.Ok?
    ensures r.Err? ==> m == Err(GitFailure(r.error))
  {
    match r
    case Ok(_) => Ok(())
    case Err(e) => Err(GitFailure(e))
  }

  /**
   * `Folder::sync_manual`: refused when no directory between the folder and the
   * data directory holds `.git`; otherwise `pull`, `add -A`, `commit` and
   * `push`, in the folder, the first failure other than the commit's ending it.
   */
  method SyncManual(fs: FileSystem, git: GitProcess, folder: Folder, dataDir: Path)
    returns (r: Result<(), SyncManualError>)
    requires dataDir <= folder.GetPath()
    modifies git
    ensures !RepositoryAbove(fs, dataDir, folder.GetPath()) ==> r == Err(NoGitRepository) && git.log == old(git.log)
    ensures RepositoryAbove(fs, dataDir, folder.GetPath()) ==>
      var s := RunSteps(git.oracle, old(git.log), folder.GetPath(), ManualSteps());
      r == ManualResult(s.result) && git.log == s.log
  {
    var tracked := SyncExistsIn(fs, folder, dataDir);
    if !tracked {
      return Err(NoGitRepository);
    }
    ghost var steps := ManualSteps();
    ghost var cwd := folder.GetPath();
    var pulled := RunGitCommand(git, folder, ["pull"]);
    if pulled.Err? {
      return Err(GitFailure(pulled.error));
    }
    assert RunSteps(git.oracle, old(git.log), cwd, steps) == RunSteps(git.oracle, git.log, cwd, steps[1..]);
    var added := RunGitCommand(git, folder, ["add", "-A"]);
    if added.Err? {
      return Err(GitFailure(added.error));
    }
    assert RunSteps(git.oracle, old(git.log), cwd, steps) == RunSteps(git.oracle, git.log, cwd, steps[2..]);
    var committed := RunGitCommandConf(git, folder, ["commit", "-m", "[nb-rs] Manual Sync"], true);
    if committed.Err? {
      return Err(GitFailure(committed.error));
    }
    assert RunSteps(git.oracle, old(git.log), cwd, steps) == RunSteps(git.oracle, git.log, cwd, steps[3..]);
    var pushed := RunGitCommand(git, folder, ["push"]);
    if pushed.Err? {
      return Err(GitFailure(pushed.error));
    }
    assert steps[3..][1..] == [];
    return Ok(());
  }
}
