# nb-rs notebook engine, modelled in Dafny

nb-rs keeps notes as files in a directory tree, the data directory. It lists
folders and searches notes by name and by content. It creates and removes
notes and folders. It keeps the tree in a git repository.

This project models the engine of nb-rs over an abstract machine:

- The filesystem is a map from paths (sequences of components) to entries: a
  directory with its children in iteration order, a file with its lines (a
  line read can fail), or a special file. A directory or file can be
  unreadable.
- `git` is an oracle. It answers each call with an exit status or a spawn
  failure, given every call made before. Each call is appended, with its
  working directory, to a command log.

The modules follow the source files:

| module | file | models |
|---|---|---|
| `NoteModel` | `note_model.dfy` | `Note`: `new`, `from_pathbuf`, `get_path`, `get_pretty_name`, `get_name` |
| `FolderModel` | `folder_model.dfy` | `Folder`: `new`, `from_pathbuf`, `get_path` |
| `Listing` | `list.dfy` | `Folder::list` |
| `NameSearch` | `get_notes_by_name.dfy` | `Folder::get_notes_by_name` |
| `ContentSearch` | `search_notes.dfy` | `Folder::search_notes_content` |
| `GitSync` | `setup.dfy` | `sync_exists`, `sync_run_git_command(_conf)`, `sync_setup` |
| `NoteSync` | `sync_note.dfy` | `Folder::sync_note` |
| `ManualSync` | `sync_manual.dfy` | `Folder::sync_manual` |
| `NoteCreate` | `note_create.dfy` | `Note::create`, `Note::new_create` |
| `FolderCreate` | `folder_create.dfy` | `Folder::create` |
| `NoteRemove` | `note_remove.dfy` | `Note::remove` |
| `Cli` | `cli.dfy` | the `Open` resolver, the verbosity level and the search term of `main` |

These modules stand in for the Rust standard library:

- `Paths` models `PathBuf::push`, `file_name` and `pop`.
- `Text` models trimming, ASCII lower-casing, `find`, `replace` and `join`.
- `Fs` models the filesystem, its read calls, and the class `Disk` whose methods
  create and delete entries in place.
- `Wrappers` holds `Option` and `Result`.

Each loop of the source is a method. Each method is proved against a
specification function, and the properties are lemmas about those functions.

Four consistency predicates describe the trees that `read_dir` can produce:

- `TreeShaped`: every directory lists distinct file names.
- `ListedExist`: every listed entry exists.
- `ExistListed`: every entry except the root is listed in its parent directory.
- `WellFormed`: all of the above, and the root is a directory.

The recursive traversals need `TreeShaped`, because it gives them a measure
that shrinks. Their completeness lemmas need all three of the first three.

Where the program's documentation and its code disagree, the model follows
the code:

- `sync_note` does not ignore a failing `commit`, so a failed commit stops `push`.
- The commit message of `sync_note` is `[nb-rs] Changed <name>`.
- For an absolute data directory, `sync_note` on a folder outside any repository walks up to the root and panics.
- In content search, consecutive matching lines do get the previous matching line as context.
  No line is ever context before line 3.
- `Note::remove` takes no arguments, and `sync_note` takes one. The signatures are modelled as defined, not as they are called.

## Model

| member | source | states |
|---|---|---|
| NoteModel.Note.GetPath | src/actions/note/model.rs:84-90 | the path of a note named by a file name is its directory followed by that name |
| NoteModel.Note.New | src/actions/note/model.rs:31-43 | succeeds exactly when `path/name` is a regular file, with the fields unchanged; otherwise `NoteDoesNotExist(name)` |
| NoteModel.Note.FromPathbuf | src/actions/note/model.rs:56-81 | `PathBufConversionError` exactly when the joined path has no file name; on a valid base, success exactly when the joined path is a regular file; the note's directory and name make up the joined path |
| NoteModel.PrettyNameAbsent | src/actions/note/model.rs:103-115 | there is no pretty name exactly when no line starts with `# ` |
| NoteModel.PrettyNameAt | src/actions/note/model.rs:106-110 | when line k is the first to start with `# `, the pretty name is the rest of that line, trimmed |
| NoteModel.PrettyNameTrimmed | src/actions/note/model.rs:108-110 | a pretty name has no whitespace at either end and trimming it again changes nothing |
| NoteModel.DisplayNameIsHeadingOrFileName | src/actions/note/model.rs:98-120 | the display name fails exactly when the note cannot be opened; otherwise it is the trimmed first heading read before the first read error, or the file name when there is none |
| NoteModel.GetPrettyName | src/actions/note/model.rs:103-115 | the scan loop, with its early return, computes the pretty name |
| NoteModel.GetName | src/actions/note/model.rs:118-120 | returns the display name: the pretty name if there is one, else the file name |
| Text.TrimmedHasNoEdgeWhitespace | src/actions/note/model.rs:108-110 | `trim` leaves no whitespace at either end and is idempotent |
| Fs.ReadableLinesStopAtError | src/actions/note/model.rs:106 | `map_while(Result::ok)` never sees a line after the first read error |
| FolderModel.Folder.GetPath | src/actions/folder/model.rs:33-39 | a folder named by a file name is its directory followed by that name; a folder named `.` is its directory |
| FolderModel.Folder.New | src/actions/folder/model.rs:17-22 | both parts are kept as given; a `.` name is not normalised away |
| FolderModel.Folder.FromPathbuf | src/actions/folder/model.rs:24-31 | on a path that is text, succeeds with `new(path, name)`, whether the directory exists or not |
| Paths.PushOne | src/actions/folder/model.rs:33-39 | pushing a file name appends it, and pushing `.` leaves the path unchanged |
| Listing.ListEntriesErrorStays | src/actions/folder/list.rs:73-92 | once the loop fails, later entries do not change the outcome: there is no partial result |
| Listing.ListEntriesAreClassified | src/actions/folder/list.rs:78-91 | the folders are the visible directories, and the notes the regular files, among the entries, in iteration order |
| Listing.ListFolderContents | src/actions/folder/list.rs:65-95 | listing succeeds exactly when the path is a readable directory; the folders are exactly its visible sub-directories, and the notes exactly its regular files, dot-named files included |
| Listing.ListedEntriesShape | src/actions/folder/list.rs:78-90 | every returned folder is a non-dot directory, and every note a regular file, directly inside the listed path |
| Listing.OfKindKeepsOrder | src/actions/folder/list.rs:73-92 | the entries of each kind keep the order of directory iteration |
| Listing.ListedUnique | src/actions/folder/list.rs:73-92 | a listing names each note once and each sub-folder once |
| Listing.EntryCountBounded | src/actions/folder/list.rs:55 | the printed count of folders plus notes never exceeds the number of directory entries |
| Listing.ReachedHere | src/actions/folder/list.rs:85-90 | the notes a listing returns are exactly the notes reached at the folder's own level |
| Listing.ReachedThroughSubfolder | src/actions/folder/list.rs:78-84 | a note reached below the folder is reached through one of the listed sub-folders |
| Listing.List | src/actions/folder/list.rs:65-95 | the loop over `read_dir` computes the listing |
| NameSearch.MatchingNotesMembers | src/actions/folder/get_notes_by_name.rs:23-27 | a note of the folder is kept exactly when its display name, lower-cased, contains the name as given |
| NameSearch.MatchingNotesErrorStays | src/actions/folder/get_notes_by_name.rs:24 | the first display-name error ends the loop with that error |
| NameSearch.NotesByNameMembers | src/actions/folder/get_notes_by_name.rs:18-34 | the result holds exactly the notes reached from the folder whose display name matches |
| NameSearch.NotesByNameUnique | src/actions/folder/get_notes_by_name.rs:18-34 | every note in the result appears once |
| NameSearch.HereFirst | src/actions/folder/get_notes_by_name.rs:23-31 | the folder's own matches come first, in listing order, and every later result lies deeper than the folder |
| NameSearch.NotesByNameInSnoc | src/actions/folder/get_notes_by_name.rs:29-31 | sub-folder results are appended in listing order |
| NameSearch.NotesByNameInErrorStays | src/actions/folder/get_notes_by_name.rs:29-31 | the first failing sub-folder ends the search with its error |
| NameSearch.FilterByName | src/actions/folder/get_notes_by_name.rs:23-27 | the loop computes the folder's own matches |
| NameSearch.GetNotesByName | src/actions/folder/get_notes_by_name.rs:18-34 | the method computes the preorder search |
| NameSearch.SearchSubfolders | src/actions/folder/get_notes_by_name.rs:29-31 | the loop over sub-folders computes their results, appended in order |
| Text.Find | src/actions/folder/search_notes.rs:44 | `find` gives the first offset where the term occurs, and none exactly when it does not occur |
| Text.ReplaceFirstOccurrence | src/actions/folder/search_notes.rs:48 | `replace` keeps the text before the first occurrence and wraps that occurrence |
| Text.LowerOfSlice | src/actions/folder/search_notes.rs:44-46 | lower-casing the sliced word gives the slice of the lower-cased line |
| ContentSearch.HighlightWrapsFirstMatch | src/actions/folder/search_notes.rs:43-48 | the highlighted word is the original-case text at the first lower-case match; it lower-cases to the term, and it is wrapped there and at every later occurrence |
| ContentSearch.FirstMatchFirstOccurs | src/actions/folder/search_notes.rs:44-48 | the word does not occur in the line before the match position |
| ContentSearch.SnippetAtShowsMatch | src/actions/folder/search_notes.rs:50-71 | the snippet for a matching line carries its 1-based number and its highlighted text |
| ContentSearch.ScanShape | src/actions/folder/search_notes.rs:40-77 | every snippet shows a matching line; context is present exactly from line 3 on, and is the unhighlighted previous line with its number |
| ContentSearch.ScanNumbers | src/actions/folder/search_notes.rs:40-77 | the snippet numbers are exactly the numbers of the matching lines, in order |
| ContentSearch.MatchNumbersOrdered | src/actions/folder/search_notes.rs:41 | the numbers run from 1 and strictly increase |
| ContentSearch.ScanInLineOrder | src/actions/folder/search_notes.rs:40-71 | snippets come in increasing line order |
| ContentSearch.ScanCoversMatches | src/actions/folder/search_notes.rs:43-71 | a line has a snippet exactly when it matches, so there is one snippet per matching line |
| ContentSearch.ScanEmpty | src/actions/folder/search_notes.rs:79-81 | there are no snippets exactly when no line matches |
| ContentSearch.ScanStepMatch | src/actions/folder/search_notes.rs:43-76 | one loop step on a matching line appends its snippet, with context from line 3 on |
| ContentSearch.ScanStepSkip | src/actions/folder/search_notes.rs:43-76 | one loop step on a non-matching line adds nothing |
| ContentSearch.ScanLines | src/actions/folder/search_notes.rs:37-77 | the loop, with its counter and one-line window, computes the snippets of a note |
| ContentSearch.NoteResultMatches | src/actions/folder/search_notes.rs:30-81 | a note has a result exactly when one of its readable lines matches; that result carries the note and its snippets, never none |
| ContentSearch.NotesResultsMembers | src/actions/folder/search_notes.rs:30-82 | the folder's own results are exactly its notes that have a match |
| ContentSearch.NotesResultsErrorStays | src/actions/folder/search_notes.rs:31 | the first note that cannot be opened ends the loop with that error |
| ContentSearch.SearchContentFaithful | src/actions/folder/search_notes.rs:24-89 | every result's snippets are the scan of that note's lines, and are not empty |
| ContentSearch.SearchContentMembers | src/actions/folder/search_notes.rs:24-89 | the results are exactly the notes reached from the folder that have a match |
| ContentSearch.HereFirst | src/actions/folder/search_notes.rs:30-87 | the folder's own results come first, in listing order, and every later result lies deeper |
| ContentSearch.SearchInSnoc | src/actions/folder/search_notes.rs:84-87 | sub-folder results are appended in listing order |
| ContentSearch.SearchInErrorStays | src/actions/folder/search_notes.rs:85 | the first failing sub-folder ends the search with its error |
| ContentSearch.SearchNotes | src/actions/folder/search_notes.rs:30-82 | the note loop computes the folder's own results |
| ContentSearch.SearchNotesContent | src/actions/folder/search_notes.rs:24-89 | the method computes the recursive search |
| ContentSearch.SearchSubfolders | src/actions/folder/search_notes.rs:84-87 | the loop over sub-folders computes their results, appended in order |
| GitSync.GitProcess.Spawn | src/actions/folder/sync/setup.rs:50-59 | the call is logged with its working directory, and the oracle's answer for it is returned |
| GitSync.CommandResult | src/actions/folder/sync/setup.rs:67-72 | `Err(Git(args joined by " "))` exactly when git exited with failure and errors are not ignored; a spawn failure is an I/O error; otherwise `Ok(status)` |
| GitSync.IgnoredErrorsNeverAbort | src/actions/folder/sync/setup.rs:67-72 | with errors ignored, only a spawn failure is an error, and ignoring changes the outcome exactly for a failed exit |
| GitSync.RunGitCommandConf | src/actions/folder/sync/setup.rs:45-90 | runs one call in the folder's path, logs it, and applies the error rule |
| GitSync.RunGitCommand | src/actions/folder/sync/setup.rs:41-43 | is the same with errors not ignored |
| GitSync.RunStepsAllPass | src/actions/folder/sync/setup.rs:97-100 | when every step succeeds, every command is logged in order and the sequence succeeds |
| GitSync.RunStepsFailsAt | src/actions/folder/sync/setup.rs:97-100 | when step k is the first failure, exactly the first k+1 commands are logged and step k's error is returned |
| GitSync.StopsAtFirstFailure | src/actions/folder/sync/setup.rs:97-100 | the sequence succeeds exactly when every step does, and fails with the error of its first failing step |
| GitSync.GitDirIsPush | src/actions/folder/sync/setup.rs:30-31 | the checked path is the folder's path with `.git` pushed |
| GitSync.RepositoryAboveIff | src/actions/folder/sync/setup.rs:27-40 | `sync_exists` holds exactly when some directory strictly below the data directory, on the way to the folder, holds `.git` |
| GitSync.DataDirNeverChecked | src/actions/folder/sync/setup.rs:29 | whether the data directory holds `.git` never changes the answer |
| GitSync.SyncExistsIn | src/actions/folder/sync/setup.rs:27-40 | the popping loop computes `sync_exists` |
| GitSync.SyncSetup | src/actions/folder/sync/setup.rs:92-105 | an existing repository gives `SyncExists` and no call; otherwise `init -b B`, `remote add origin R`, `fetch origin` and `checkout -b B origin/B` run in the folder until the first failure |
| NoteSync.WalkStopsAtRoot | src/actions/folder/sync/sync_note.rs:34-45 | the walk checks the folder first, then each ancestor, and stops at the nearest directory holding `.git`; it crosses no `..` |
| NoteSync.WalkStrips | src/actions/folder/sync/sync_note.rs:42-44 | the stripped names are the components below the repository, innermost first, one per level walked |
| NoteSync.WalkFindsNearest | src/actions/folder/sync/sync_note.rs:34-45 | both of the above together |
| NoteSync.WalkPanics | src/actions/folder/sync/sync_note.rs:42 | on a path without `..`, the walk panics exactly when neither the path nor an ancestor holds `.git` |
| NoteSync.FindRepository | src/actions/folder/sync/sync_note.rs:34-45 | the loop computes the repository directory and the stripped names, or the panic |
| NoteSync.AsWrittenAgreesUpToOneLevel | src/actions/folder/sync/sync_note.rs:50-53 | with at most one stripped name, the argument as written is the right one; with none it is the note's name |
| NoteSync.AsWrittenNamesReversedPath | src/actions/folder/sync/sync_note.rs:42-53 | as written, the `add` argument names the stripped directories in reverse order |
| NoteSync.AsWrittenDiffersFromTwoLevels | src/actions/folder/sync/sync_note.rs:50-52 | with two distinct stripped names, the argument as written is not the relative path |
| NoteSync.AsWrittenAddsWrongFile | src/actions/folder/sync/sync_note.rs:42-52 | for the note `n` in `/a/b` of a repository at `/`, the argument as written is `b/a/n`, which does not name the note |
| NoteSync.RelativeNameNamesNote | src/actions/folder/sync/sync_note.rs:42-53 | the corrected argument, pushed onto the repository directory, is exactly the note's path |
| NoteSync.FailedCommitStopsPush | src/actions/folder/sync/sync_note.rs:59-64 | a failing commit ends the sync after `add` and `commit`, and nothing is pushed |
| NoteSync.CommitNote | src/actions/folder/sync/sync_note.rs:55-65 | runs `add <argument>`, `commit -m "[nb-rs] Changed <name>"` and `push` in the repository directory, none ignoring errors, until the first failure |
| NoteSync.SyncNote | src/actions/folder/sync/sync_note.rs:27-66 | panics with no call when no repository is found; otherwise runs the three commands in the repository directory with the `add` argument as written: the stripped names innermost first, then the note's name |
| NoteSync.SyncNoteCorrected | src/actions/folder/sync/sync_note.rs:27-66 | the same, with the `add` argument the code means: the note's path relative to the repository, which RelativeNameNamesNote shows names the note |
| ManualSync.CommitFailureDoesNotStopPush | src/actions/folder/sync/sync_manual.rs:42-43 | a commit that exits with failure does not stop `push`, and the sync succeeds when the other three succeed |
| ManualSync.FailedPullStopsAll | src/actions/folder/sync/sync_manual.rs:34 | a failing `pull` ends the sync with nothing else called |
| ManualSync.SyncManual | src/actions/folder/sync/sync_manual.rs:26-48 | no repository gives `NoGitRepository` and no call; otherwise `pull`, `add -A`, `commit -m "[nb-rs] Manual Sync"` and `push` run in the folder itself, the commit's failure ignored |
| Fs.Disk.CreateNew | src/actions/note/create.rs:28 | `File::create_new` fails with the matching OS error, changing nothing, when the path exists or its parent is not a readable directory; otherwise it adds one empty file, listed last in its directory |
| Fs.Disk.CreateDir | src/actions/folder/create.rs:26 | `create_dir` makes exactly one empty directory under the same rule, never an ancestor |
| Fs.Disk.RemoveFile | src/actions/note/remove.rs:43 | `remove_file` deletes exactly that entry and unlists it, or fails and changes nothing |
| Fs.InsertKeepsWellFormed | src/actions/note/create.rs:28 | creating a file or an empty directory keeps the tree consistent |
| Fs.DeleteKeepsWellFormed | src/actions/note/remove.rs:43 | deleting a file keeps the tree consistent |
| NoteCreate.CreateNoteRefuses | src/actions/note/create.rs:22-35 | `NoteExists(name)` exactly when something exists at the path; a failed call changes nothing; success exactly when creation raises no error |
| NoteCreate.CreateNoteMakesEmptyFile | src/actions/note/create.rs:28-34 | success leaves an empty file at exactly the note's path, listed in its directory, and nothing else changed |
| NoteCreate.CreateIn | src/actions/note/create.rs:22-35 | the method's result and new filesystem are those of `create` |
| NoteCreate.NewCreate | src/actions/note/model.rs:45-54 | `new_create` is `create` on the handle, which it returns on success |
| FolderCreate.CreateFolderRefuses | src/actions/folder/create.rs:19-31 | `FolderExists(name)` exactly when something exists at the path; a failed call changes nothing |
| FolderCreate.CreateFolderMakesOneDirectory | src/actions/folder/create.rs:26 | success adds exactly one empty directory, whose parent already existed, and changes nothing else |
| FolderCreate.CreateIn | src/actions/folder/create.rs:19-31 | the method's result and new filesystem are those of `create` |
| NoteRemove.RemoveOnlyWhenConfirmed | src/actions/note/remove.rs:18-48 | a missing note gives `NoteDoesNotExist(name)` with no change; the filesystem changes only on an exact `y`; any other answer returns `Ok` unchanged |
| NoteRemove.ConfirmedRemovalDeletesOneFile | src/actions/note/remove.rs:38-47 | on confirmation exactly that file goes, and the call returns `Ok` |
| NoteRemove.ConfirmationIsExact | src/actions/note/remove.rs:38 | a typed word confirms exactly when it is `y`: the comparison is case-sensitive |
| NoteRemove.RemoveIn | src/actions/note/remove.rs:18-48 | the method's result and new filesystem are those of `remove` |
| Cli.OpenFallsBackOnlyOnMissing | src/main.rs:96-106 | a regular file at the named path is opened as it is; a conversion error is returned unchanged; when the search finds nothing, the error names the token's last component |
| Cli.OpenedAmongMatches | src/main.rs:101-129 | what the search opens is one of its matches, and among several it carries the selected label |
| Cli.OpenedBySearch | src/main.rs:99-129 | what the search opens is reached from the data directory and its display name contains the lower-cased token |
| Cli.OpenWithMatches | src/main.rs:103-129 | no match gives the original `NoteDoesNotExist`; one match is opened; among several, the selection is opened when some match carries that label, else `NoteDoesNotExist(selected)` |
| Cli.OpenedNoteIsFile | src/main.rs:95-136 | whatever `Open` resolves is a regular file |
| Cli.ChoicesDescribe | src/main.rs:110-117 | the options are the display names in traversal order, duplicates kept, and each label maps to the last note that carries it |
| Cli.SnocLastWins | src/main.rs:116 | inserting a label again overwrites it: the later note wins |
| Cli.ChoicesErrorStays | src/main.rs:114 | the first display-name error ends the loop with that error |
| Cli.SelectionOffered | src/main.rs:119-129 | a selection is in the map exactly when some match is labelled with it |
| Cli.BuildChoices | src/main.rs:110-117 | the loop computes the options and the map |
| Cli.Open | src/main.rs:95-136 | the method resolves the token as the `Open` branch does |
| Cli.LogLevel | src/main.rs:45-50 | the level is one of `tracing`'s levels and never `warn` |
| Cli.MoreFlagsMoreOutput | src/main.rs:45-50 | more `-v` flags never give less output, each count from 0 to 2 gives a level of its own, and the level is `trace` exactly from 3 on; with LogLevel this fixes 0, 1, 2 and 3 or more to `error`, `info`, `debug` and `trace` |
| Cli.SearchTerm | src/main.rs:160 | the term passed on has its length and no upper-case letter |
| Cli.SearchIgnoresCase | src/main.rs:160-163 | with the lower-cased term, a line matches exactly when the term occurs in it ignoring case |
| Cli.UpperCaseTermNeverMatches | src/actions/folder/search_notes.rs:43 | a term with an upper-case letter, passed on as given, matches no line |
| Cli.Search | src/main.rs:156-163 | the method runs content search from the named folder with the lower-cased term |

## Left out

- Process I/O is not modelled: spawning `git`, its pipes and nulled stdin, and its stdout and stderr.
  A `git` call is one oracle answer, and its effects on the filesystem are not modelled.
  So in the model, `init` does not create `.git`.
- GitSync.CommandResult: `ExitStatus` is reduced to success or failure; exit codes and signals are not kept.
- Terminal output is not modelled: `println!`, colours other than the red highlight, and `FolderSearchResult::print` (src/actions/folder/list.rs:32-61).
  Of `print`, only its entry count is modelled.
- The snippet text is kept as its parts (context line, number, highlighted line), not as the formatted string with green numbers.
- The `FuzzySelect` prompt is not modelled. The selected label is a parameter, and an interactive failure of the prompt is not modelled.
- NoteRemove.RemoveIn: the stdin answer is a parameter.
  A failure to flush stdout, or to read the answer, is a `Result` error given as that parameter.
- Lower-casing covers ASCII letters only. Unicode case mappings that change a string's length are not modelled.
  Byte offsets and character offsets coincide in the model.
- `std::io::Error` messages are reduced to a few OS error kinds.
- GitSync.SyncExistsIn and GitSync.SyncSetup require the data directory to be at or above the folder's path.
  ManualSync.SyncManual has the same requirement.
  This also excludes a folder outside the data directory (`Folder::from_pathbuf(data_dir, "/abs")` gives such a folder).
  For that folder the source's loop walks up to `/` and returns true at the first `.git` on the way (src/actions/folder/sync/setup.rs:30-34), so `sync_setup` returns `SyncExists` and `sync_manual` goes ahead.
  Only when no `.git` is on the way does it loop forever, because `pop` at `/` changes nothing (src/actions/folder/sync/setup.rs:36).
  Neither outcome is modelled.
- NoteSync.SyncNote: the `unwrap` panic at the root is an explicit `Panicked` outcome, not a crash.
- NoteSync.SyncNote: a relative data directory (`-D notes`, which the arguments accept and the configuration passes on unchanged) is not modelled, because a model `Path` is always absolute.
  For a relative path the source's walk ends at the working directory. `pop` on `notes` gives the empty path, `.git` is looked for in the working directory, and when it is not there `file_name().unwrap()` panics on the empty path (src/actions/folder/sync/sync_note.rs:36-44).
  The model's walk instead goes on to `/`. So with `-D notes` and a `.git` only above the working directory, the source panics while the model runs `add`, `commit` and `push` in that repository.
  The other operations resolve a relative path against the working directory, which the model also does not represent.
- NoteModel.Note.FromPathbuf: paths keep a `..` component as it is, and the lookups of `Fs` (`Exists`, `IsFile`, `IsDir`) do not resolve it as the OS does. A path through `..` therefore counts as absent. A token `x/../n`, with `d/x` a directory and `d/n` a file, gives `NoteDoesNotExist("n")` where the source returns the note.
- Fs.Exists: for the same reason, creating a note or folder named `..` reports `InvalidFilename` where the source reports that it exists, and a `.git` reached through `..` is not seen by `sync_exists` or `sync_note`.
- NoteModel.Note.FromPathbuf: model paths are Unicode text, so the `PathBufConversionError` that the source returns for a file name or directory that is not valid UTF-8 (src/actions/note/model.rs:67-70, 75-77) cannot arise. Only the missing-file-name case of that error is modelled.
- FolderModel.Folder.FromPathbuf: model paths are Unicode text, so its `PathBufConversionError` on a base path that is not valid UTF-8 (src/actions/folder/model.rs:25-27) cannot arise, and the model always succeeds.
- ContentSearch.Red: the highlight always wraps the word in the red escape codes. When `colored` turns colouring off (`NO_COLOR`, `CLICOLOR=0`, or a stdout that is not a terminal), the source prints the bare word and its `replace` leaves the line unchanged; that case is not modelled.
- Fs.CreateError: one `readable` flag on the parent decides whether `create_new`, `create_dir` and `remove_file` (Fs.RemoveError) are allowed. The separate write and search permissions that POSIX requires on the parent are not modelled.
- ManualSync.SyncManual: the two `stdout().flush()?` calls (src/actions/folder/sync/sync_manual.rs:32, 39) are not modelled, so their `Io` error, which ends the sync before `pull` or before `add`, has no counterpart.
- NoteModel.Note.New: a symbolic link is a `Special` entry that is never followed. The lookups of `Fs` (`Exists`, `IsFile`, `IsDir`) see the link itself, whereas `Path::exists`, `is_file` and `is_dir` follow it (src/actions/note/model.rs:37, src/actions/note/create.rs:24, src/actions/folder/create.rs:22, src/actions/note/remove.rs:21, src/actions/folder/sync/setup.rs:32, src/actions/folder/sync/sync_note.rs:38).
  A link to a regular file is refused with `NoteDoesNotExist` where the source accepts it, and `open` then falls back to the name search.
  A dangling link counts as present: create reports `NoteExists` or `FolderExists` where the source gets past its `exists` check and then fails with the OS's `File exists` error, remove asks and deletes the link where the source reports `NoteDoesNotExist`, and the `.git` walks stop at it where the source walks on.
- The traversals (NameSearch.NotesByName, ContentSearch.SearchContent) require `TreeShaped`.
  A cyclic or inconsistent tree, for example through symlinks, is not modelled.
- Cli.LogLevel: its own contract says only that the level is one of the levels and never `warn`.
  The exact mapping follows from it together with Cli.MoreFlagsMoreOutput.
- `main`'s argument parsing, logger initialisation and `data_dir` creation are not part of this model (src/main.rs:29-81), and neither are the `Create`, `Ls`, `Rm` and `Sync` dispatch.
- src/actions/note/open.rs is not part of this model: it spawns an editor, reads modification times, and calls functions that are not defined.
- src/actions/folder/remove.rs is not part of this model: it is a single `remove_dir` call.
- Configuration (src/config), the clap argument declarations (src/args), build.rs and the test helpers in src/tests are not part of this model.

## Findings

| source | as written | input that shows it | evidently intended | confidence | as-written member | corrected member |
|---|---|---|---|---|---|---|
| src/actions/folder/sync/sync_note.rs:42-52 | the names stripped on the way up to the repository are joined innermost first, then the note's name | a note `n` in folder `/a/b`, with the repository at `/` (only `/.git` exists): the argument is `b/a/n` | `a/b/n`, the note's path relative to the repository | not executed | NoteSync.AsWrittenAddsWrongFile | NoteSync.RelativeNameNamesNote |

`NoteSync.SyncNote` models the code as written. `NoteSync.SyncNoteCorrected` is the same operation with the corrected name, `RelativeName`.
