/**
 * The parts of `main` (src/main.rs) that decide something: how `open` resolves
 * the note the user names, which log level each count of `-v` selects, and the
 * lower-casing of the term that `search` looks for.
 */
module Cli {
  import opened Wrappers
  import opened Text
  import opened Paths
  import opened Fs
  import opened NoteModel
  import opened FolderModel
  import opened Listing
  import opened NameSearch
  import ContentSearch

  datatype OpenError =
    | OpenNote(note: NoteError)
    | OpenFolder(folder: FolderError)  // `Folder::from_pathbuf(data_dir, ".")?`: its non-text-path error cannot arise over text paths
    | OpenSearch(search: GetNotesByNameError)

  /** The labels offered when several notes match, in order, and the note each label selects. */
  datatype Choices = Choices(options: seq<string>, byName: map<string, Note>)

  /** The loop over the matches: each display name is pushed as an option and inserted into the map. */
  function ChoicesOf(fs: FileSystem, notes: seq<Note>): Result<Choices, NoteError> {
    if notes == [] then Ok(Choices([], map[]))
    else match ChoicesOf(fs, notes[..|notes| - 1])
      case Err(e) => Err(e)
      case Ok(c) =>
        var note := notes[|notes| - 1];
        match note.DisplayName(fs)
        case Err(e) => Err(e)
        case Ok(name) => Ok(Choices(c.options + [name], c.byName[name := note]))
  }

  /**
   * `c` offers the display names of `notes`, duplicates kept, in order; a label
   * selects a note exactly when it is offered; the selected note has that label
   * as its display name, and of several notes with the same label it is the last.
   */
  ghost predicate Describes(fs: FileSystem, notes: seq<Note>, c: Choices) {
    && |c.options| == |notes|
    && (forall k | 0 <= k < |notes| :: notes[k].DisplayName(fs) == Ok(c.options[k]))
    && (forall s :: s in c.byName <==> s in c.options)
    && (forall s | s in c.byName :: c.byName[s] in notes && c.byName[s].DisplayName(fs) == Ok(s))
    && (forall k | 0 <= k < |notes| && (forall j | k < j < |notes| :: c.options[j] != c.options[k]) ::
          c.byName[c.options[k]] == notes[k])
  }

  /** One more match, `note` labelled `name`, at the end of `notes'`. */
  lemma ChoicesSnoc(fs: FileSystem, notes: seq<Note>, c: Choices, note: Note, name: string, notes': seq<Note>)
    requires Describes(fs, notes, c) && note.DisplayName(fs) == Ok(name)
    requires |notes'| == |notes| + 1 && notes'[..|notes|] == notes && notes'[|notes|] == note
    ensures Describes(fs, notes', Choices(c.options + [name], c.byName[name := note]))
  {
    SnocLabels(fs, notes, c, note, name, notes');
    SnocSelected(fs, notes, c, note, name, notes');
    SnocLastWins(notes, c, note, name, notes');
  }

  /** After one more match, every note still has its label at its own position. */
  lemma SnocLabels(fs: FileSystem, notes: seq<Note>, c: Choices, note: Note, name: string, notes': seq<Note>)
    requires Describes(fs, notes, c) && note.DisplayName(fs) == Ok(name)
    requires |notes'| == |notes| + 1 && notes'[..|notes|] == notes && notes'[|notes|] == note
    ensures forall k | 0 <= k < |notes'| :: notes'[k].DisplayName(fs) == Ok((c.options + [name])[k])
  {
    forall k | 0 <= k < |notes'|
      ensures notes'[k].DisplayName(fs) == Ok((c.options + [name])[k])
    {
      if k < |notes| {
        assert notes'[k] == notes[k];
      }
    }
  }

  /** After one more match, every label still selects a note that carries it. */
  lemma SnocSelected(fs: FileSystem, notes: seq<Note>, c: Choices, note: Note, name: string, notes': seq<Note>)
    requires Describes(fs, notes, c) && note.DisplayName(fs) == Ok(name)
    requires |notes'| == |notes| + 1 && notes'[..|notes|] == notes && notes'[|notes|] == note
    ensures forall s | s in c.byName[name := note] ::
      c.byName[name := note][s] in notes' && c.byName[name := note][s].DisplayName(fs) == Ok(s)
  {
    var m := c.byName[name := note];
    forall s | s in m
      ensures m[s] in notes' && m[s].DisplayName(fs) == Ok(s)
    {
      if s != name {
        var k :| 0 <= k < |notes| && notes[k] == c.byName[s];
        assert notes'[k] == notes[k];
      }
    }
  }

  /** After one more match, the last note with a label is still the one it selects. */
  lemma SnocLastWins(notes: seq<Note>, c: Choices, note: Note, name: string, notes': seq<Note>)
    requires |c.options| == |notes| && forall s :: s in c.byName <==> s in c.options
    requires forall k | 0 <= k < |notes| && (forall j | k < j < |notes| :: c.options[j] != c.options[k]) ::
      c.byName[c.options[k]] == notes[k]
    requires |notes'| == |notes| + 1 && notes'[..|notes|] == notes && notes'[|notes|] == note
    ensures var o, m := c.options + [name], c.byName[name := note];
      forall k | 0 <= k < |notes'| && (forall j | k < j < |notes'| :: o[j] != o[k]) :: m[o[k]] == notes'[k]
  {
    var o, m := c.options + [name], c.byName[name := note];
    forall k | 0 <= k < |notes'| && (forall j | k < j < |notes'| :: o[j] != o[k])
      ensures m[o[k]] == notes'[k]
    {
      if k < |notes| {
        assert o[|notes|] == name;
        assert o[k] == c.options[k] != name;
        forall j | k < j < |notes|
          ensures c.options[j] != c.options[k]
        {
          assert o[j] == c.options[j];
        }
        assert notes'[k] == notes[k];
      }
    }
  }

  /** What the loop builds describes the matches. */
  lemma {:induction false} ChoicesDescribe(fs: FileSystem, notes: seq<Note>)
    requires ChoicesOf(fs, notes).Ok?
    ensures Describes(fs, notes, ChoicesOf(fs, notes).value)
  {
    if notes != [] {
      var init, note := notes[..|notes| - 1], notes[|notes| - 1];
      ChoicesDescribe(fs, init);
      ChoicesSnoc(fs, init, ChoicesOf(fs, init).value, note, note.DisplayName(fs).value, notes);
    }
  }

  /** The loop fails only on a note whose display name cannot be read. */
  lemma {:induction false} ChoicesOfReadable(fs: FileSystem, notes: seq<Note>)
    requires forall k | 0 <= k < |notes| :: notes[k].DisplayName(fs).Ok?
    ensures ChoicesOf(fs, notes).Ok?
  {
    if notes != [] {
      var init := notes[..|notes| - 1];
      assert forall k | 0 <= k < |init| :: init[k] == notes[k];
      ChoicesOfReadable(fs, init);
    }
  }

  /**
   * The `Open` branch of `main`: the note named by the token as a path if it
   * is one; otherwise, on `NoteDoesNotExist` only, the notes of the whole data
   * directory whose display names contain the lower-cased token: none is the
   * original error, one is opened, and among several the user's selection is.
   */
  function OpenSpec(fs: FileSystem, dataDir: Path, token: string, selected: string): Result<Note, OpenError>
    requires TreeShaped(fs)
  {
    match Note.FromPathbuf(fs, dataDir, token)
    case Ok(note) => Ok(note)
    case Err(e) =>
      if !e.NoteDoesNotExist? then Err(OpenNote(e))
      else match NotesByName(fs, Folder.New(dataDir, "."), Lower(token))
        case Err(se) => Err(OpenSearch(se))
        case Ok(notes) =>
          if |notes| == 0 then Err(OpenNote(NoteDoesNotExist(e.name)))
          else if |notes| == 1 then Ok(notes[0])
          else match ChoicesOf(fs, notes)
            case Err(ne) => Err(OpenNote(ne))
            case Ok(c) =>
              if selected in c.byName then Ok(c.byName[selected])
              else Err(OpenNote(NoteDoesNotExist(selected)))
  }

  /** What the search opens is one of its matches; among several, one labelled with the selection. */
  lemma OpenedAmongMatches(fs: FileSystem, dataDir: Path, token: string, selected: string)
    requires TreeShaped(fs)
    requires Note.FromPathbuf(fs, dataDir, token).Err? && OpenSpec(fs, dataDir, token, selected).Ok?
    ensures NotesByName(fs, Folder.New(dataDir, "."), Lower(token)).Ok?
    ensures OpenSpec(fs, dataDir, token, selected).value in NotesByName(fs, Folder.New(dataDir, "."), Lower(token)).value
    ensures |NotesByName(fs, Folder.New(dataDir, "."), Lower(token)).value| > 1 ==>
      OpenSpec(fs, dataDir, token, selected).value.DisplayName(fs) == Ok(selected)
  {
    var notes := NotesByName(fs, Folder.New(dataDir, "."), Lower(token)).value;
    if |notes| > 1 {
      ChoicesDescribe(fs, notes);
    }
  }

  /** On a consistent tree and a proper data directory, `open` only ever yields a note that is a regular file. */
  lemma OpenedNoteIsFile(fs: FileSystem, dataDir: Path, token: string, selected: string)
    requires TreeShaped(fs) && ListedExist(fs) && ExistListed(fs) && ValidPath(dataDir)
    requires OpenSpec(fs, dataDir, token, selected).Ok?
    ensures IsFile(fs, OpenSpec(fs, dataDir, token, selected).value.GetPath())
  {
    if Note.FromPathbuf(fs, dataDir, token).Err? {
      var folder := Folder.New(dataDir, ".");
      OpenedAmongMatches(fs, dataDir, token, selected);
      NotesByNameMembers(fs, folder, Lower(token));
      var n := OpenSpec(fs, dataDir, token, selected).value;
      assert Found(fs, folder.GetPath(), n, Lower(token));
    }
  }

  /**
   * The fallback search runs only when the token names no regular file: a note
   * at the named path is opened as it is, and every other error of
   * `from_pathbuf` is returned unchanged. When the search finds nothing, the
   * error names the token's last component.
   */
  lemma OpenFallsBackOnlyOnMissing(fs: FileSystem, dataDir: Path, token: string, selected: string)
    requires TreeShaped(fs) && ValidPath(dataDir)
    ensures IsFile(fs, Push(dataDir, token)) && FileName(Push(dataDir, token)).Some? ==>
      OpenSpec(fs, dataDir, token, selected).Ok? &&
      OpenSpec(fs, dataDir, token, selected).value.GetPath() == Push(dataDir, token)
    ensures FileName(Push(dataDir, token)).None? ==>
      OpenSpec(fs, dataDir, token, selected) == Err(OpenNote(NoteModel.PathBufConversionError))
    ensures (FileName(Push(dataDir, token)).Some? && !IsFile(fs, Push(dataDir, token)) &&
      NotesByName(fs, Folder.New(dataDir, "."), Lower(token)) == Ok([])) ==>
      OpenSpec(fs, dataDir, token, selected) == Err(OpenNote(NoteDoesNotExist(FileName(Push(dataDir, token)).value)))
  {
  }

  /**
   * A note the search opens is found from the data directory by the lower-cased
   * token; when there were several, its display name is the selected label.
   */
  lemma OpenedBySearch(fs: FileSystem, dataDir: Path, token: string, selected: string)
    requires TreeShaped(fs) && ListedExist(fs) && ExistListed(fs)
    requires Note.FromPathbuf(fs, dataDir, token).Err? && Note.FromPathbuf(fs, dataDir, token).error.NoteDoesNotExist?
    requires OpenSpec(fs, dataDir, token, selected).Ok?
    ensures Found(fs, dataDir, OpenSpec(fs, dataDir, token, selected).value, Lower(token))
    ensures |NotesByName(fs, Folder.New(dataDir, "."), Lower(token)).value| > 1 ==>
      OpenSpec(fs, dataDir, token, selected).value.DisplayName(fs) == Ok(selected)
  {
    var folder := Folder.New(dataDir, ".");
    OpenedAmongMatches(fs, dataDir, token, selected);
    NotesByNameMembers(fs, folder, Lower(token));
  }

  /** The search results are readable notes, so building the choices never fails after a successful search. */
  lemma SearchedNotesHaveChoices(fs: FileSystem, folder: Folder, name: string)
    requires TreeShaped(fs) && ListedExist(fs) && ExistListed(fs)
    requires NotesByName(fs, folder, name).Ok?
    ensures ChoicesOf(fs, NotesByName(fs, folder, name).value).Ok?
  {
    var notes := NotesByName(fs, folder, name).value;
    NotesByNameMembers(fs, folder, name);
    forall k | 0 <= k < |notes|
      ensures notes[k].DisplayName(fs).Ok?
    {
      assert notes[k] in notes;
    }
    ChoicesOfReadable(fs, notes);
  }

  /**
   * When the token names no note and the search succeeds: no match is the
   * original error, a single match is opened, and among several matches the
   * selection opens a note exactly when some match is labelled with it;
   * otherwise the selection itself is reported missing.
   */
  lemma OpenWithMatches(fs: FileSystem, dataDir: Path, token: string, selected: string)
    requires TreeShaped(fs) && ListedExist(fs) && ExistListed(fs)
    requires Note.FromPathbuf(fs, dataDir, token).Err? && Note.FromPathbuf(fs, dataDir, token).error.NoteDoesNotExist?
    requires NotesByName(fs, Folder.New(dataDir, "."), Lower(token)).Ok?
    ensures var notes, r := NotesByName(fs, Folder.New(dataDir, "."), Lower(token)).value, OpenSpec(fs, dataDir, token, selected);
      && (|notes| == 0 ==> r == Err(OpenNote(Note.FromPathbuf(fs, dataDir, token).error)))
      && (|notes| == 1 ==> r == Ok(notes[0]))
      && (|notes| > 1 ==> (r.Ok? <==> exists k | 0 <= k < |notes| :: notes[k].DisplayName(fs) == Ok(selected)))
      && (|notes| > 1 && r.Err? ==> r == Err(OpenNote(NoteDoesNotExist(selected))))
  {
    var notes := NotesByName(fs, Folder.New(dataDir, "."), Lower(token)).value;
    if |notes| > 1 {
      SearchedNotesHaveChoices(fs, Folder.New(dataDir, "."), Lower(token));
      ChoicesDescribe(fs, notes);
      SelectionOffered(fs, notes, ChoicesOf(fs, notes).value, selected);
    }
  }

  /** A label can be selected exactly when some match has it as its display name. */
  lemma SelectionOffered(fs: FileSystem, notes: seq<Note>, c: Choices, selected: string)
    requires Describes(fs, notes, c)
    ensures selected in c.byName <==> exists k | 0 <= k < |notes| :: notes[k].DisplayName(fs) == Ok(selected)
  {
    if exists k | 0 <= k < |notes| :: notes[k].DisplayName(fs) == Ok(selected) {
      var k :| 0 <= k < |notes| && notes[k].DisplayName(fs) == Ok(selected);
      assert c.options[k] == selected;
    }
  }

  /** The `Open` branch of `main`, up to the call that opens the note in the editor. */
  method Open(fs: FileSystem, dataDir: Path, token: string, selected: string) returns (r: Result<Note, OpenError>)
    requires TreeShaped(fs)
    ensures r == OpenSpec(fs, dataDir, token, selected)
  {
    var exact := Note.FromPathbuf(fs, dataDir, token);
    if exact.Ok? {
      return Ok(exact.value);
    }
    var e := exact.error;
    if !e.NoteDoesNotExist? {
      return Err(OpenNote(e));
    }
    var folder := Folder.FromPathbuf(dataDir, ".").value;
    var found := GetNotesByName(fs, folder, Lower(token));
    if found.Err? {
      return Err(OpenSearch(found.error));
    }
    var notes := found.value;
    if |notes| == 0 {
      return Err(OpenNote(NoteDoesNotExist(e.name)));
    }
    if |notes| == 1 {
      return Ok(notes[0]);
    }
    var choices := BuildChoices(fs, notes);
    if choices.Err? {
      return Err(OpenNote(choices.error));
    }
    if selected !in choices.value.byName {
      return Err(OpenNote(NoteDoesNotExist(selected)));
    }
    return Ok(choices.value.byName[selected]);
  }

  /** The loop of the `Open` branch that collects the display names of several matches. */
  method BuildChoices(fs: FileSystem, notes: seq<Note>) returns (r: Result<Choices, NoteError>)
    ensures r == ChoicesOf(fs, notes)
  {
    var byName: map<string, Note> := map[];
    var options: seq<string> := [];
    for i := 0 to |notes|
      invariant ChoicesOf(fs, notes[..i]) == Ok(Choices(options, byName))
    {
      var note := notes[i];
      assert notes[..i + 1][..i] == notes[..i];
      var name := GetName(fs, note);
      if name.Err? {
        ChoicesErrorStays(fs, notes, i + 1);
        return Err(name.error);
      }
      options := options + [name.value];
      byName := byName[name.value := note];
    }
    assert notes[..|notes|] == notes;
    return Ok(Choices(options, byName));
  }

  /** An unreadable display name among the first `n` notes fails the whole loop. */
  lemma {:induction false} ChoicesErrorStays(fs: FileSystem, notes: seq<Note>, n: nat)
    requires n <= |notes| && ChoicesOf(fs, notes[..n]).Err?
    ensures ChoicesOf(fs, notes) == ChoicesOf(fs, notes[..n])
    decreases |notes| - n
  {
    if n < |notes| {
      assert notes[..n + 1][..n] == notes[..n];
      ChoicesErrorStays(fs, notes, n + 1);
    } else {
      assert notes[..n] == notes;
    }
  }

  /** The levels of `tracing`, from the least output to the most. */
  const Levels: seq<string> := ["error", "warn", "info", "debug", "trace"]

  /** `args.verbose`: clap's count of `-v` flags, a `u8`. */
  newtype U8 = x: int | 0 <= x < 256

  /** The log level for a count of `-v` flags: `warn` is never selected. */
  function LogLevel(verbose: U8): (level: string)
    ensures level in Levels && level != "warn"
  {
    match verbose
    case 0 => "error"
    case 1 => "info"
    case 2 => "debug"
    case _ => "trace"
  }

  /** Where a level stands in `Levels`. */
  function Rank(level: string): (k: nat)
    requires level in Levels
    ensures k < |Levels| && Levels[k] == level
  {
    if level == "error" then 0
    else if level == "warn" then 1
    else if level == "info" then 2
    else if level == "debug" then 3
    else 4
  }

  /**
   * More `-v` flags never give less output, each of the first three counts
   * gives a level of its own, and from three on the output is the most there is.
   */
  lemma MoreFlagsMoreOutput(v: U8, w: U8)
    ensures v <= w ==> Rank(LogLevel(v)) <= Rank(LogLevel(w))
    ensures v < w < 3 ==> Rank(LogLevel(v)) < Rank(LogLevel(w))
    ensures LogLevel(v) == "trace" <==> v >= 3
  {
  }

  /** The `search` term, as `main` passes it on. */
  function SearchTerm(term: string): (r: string)
    ensures |r| == |term|
    ensures forall k | 0 <= k < |r| :: !IsUpper(r[k])
  {
    forall k | 0 <= k < |term|
      ensures !IsUpper(Lower(term)[k])
    {
      LowerAt(term, k);
    }
    Lower(term)
  }

  /** `term` occurs at `i` in `line` when case is ignored. */
  predicate MatchesIgnoringCase(line: string, term: string, i: nat) {
    i + |term| <= |line| && Lower(line[i..i + |term|]) == Lower(term)
  }

  lemma MatchAt(line: string, lower: string, term: string, i: nat)
    requires lower == Lower(line)
    ensures OccursAt(lower, Lower(term), i) <==> MatchesIgnoringCase(line, term, i)
  {
    if i + |term| <= |line| {
      LowerOfSlice(line, i, i + |term|, line[i..i + |term|]);
    }
  }

  /**
   * Searching for the lower-cased term finds exactly the lines that contain
   * the term when ASCII case is ignored on both sides.
   */
  lemma SearchIgnoresCase(line: string, term: string)
    ensures ContentSearch.LineMatches(line, SearchTerm(term)) <==> exists i: nat :: MatchesIgnoringCase(line, term, i)
  {
    var lower := Lower(line);
    forall i: nat
      ensures OccursAt(lower, Lower(term), i) <==> MatchesIgnoringCase(line, term, i)
    {
      MatchAt(line, lower, term, i);
    }
    if exists i: nat :: MatchesIgnoringCase(line, term, i) {
      var i: nat :| MatchesIgnoringCase(line, term, i);
      assert OccursAt(lower, Lower(term), i) && i <= |lower|;
    }
  }

  /**
   * A term with an upper-case letter matches no line, since lines are compared
   * lower-cased: what `search` would find without lower-casing the term.
   */
  lemma UpperCaseTermNeverMatches(line: string, term: string, k: nat)
    requires k < |term| && IsUpper(term[k])
    ensures !ContentSearch.LineMatches(line, term)
  {
    var lower := Lower(line);
    forall i: nat | i <= |lower|
      ensures !OccursAt(lower, term, i)
    {
      if i + |term| <= |lower| {
        NoUpperAt(line, lower, i + k);
        assert lower[i..i + |term|][k] == lower[i + k];
      }
    }
  }

  lemma NoUpperAt(line: string, lower: string, j: nat)
    requires lower == Lower(line) && j < |line|
    ensures !IsUpper(lower[j])
  {
    LowerAt(line, j);
  }

  /** The `Search` branch of `main`: the lower-cased term, searched for from the named folder. */
  method Search(fs: FileSystem, dataDir: Path, folderName: string, term: string)
    returns (r: Result<seq<ContentSearch.SearchNoteResult>, ContentSearch.SearchNotesError>)
    requires TreeShaped(fs)
    ensures r == ContentSearch.SearchContent(fs, Folder.New(dataDir, folderName), SearchTerm(term))
  {
    var lowered := SearchTerm(term);
    var folder := Folder.FromPathbuf(dataDir, folderName).value;
    r := ContentSearch.SearchNotesContent(fs, folder, lowered);
  }
}
