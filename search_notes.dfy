/**
 * `Folder::search_notes_content` (src/actions/folder/search_notes.rs): a walk of
 * the folder tree that scans every note line by line for a term. Each matching
 * line becomes a snippet: the line with its match highlighted, numbered, and
 * preceded by the line before it when that line was kept as context. Notes
 * without a snippet are dropped; the notes of a folder come before the results
 * of its sub-folders.
 */
module ContentSearch {
  import opened Wrappers
  import opened Text
  import opened Paths
  import opened Fs
  import opened NoteModel
  import opened FolderModel
  import opened Listing

  /** A line of a note and its 1-based line number. */
  datatype NumberedLine = NumberedLine(number: nat, text: string)

  /**
   * One snippet of `SearchNoteResult::snippets`, before it is formatted: the
   * matching line, highlighted, and the line before it when there is context.
   */
  datatype Snippet = Snippet(context: Option<NumberedLine>, hit: NumberedLine)

  datatype SearchNoteResult = SearchNoteResult(note: Note, snippets: seq<Snippet>)

  datatype SearchNotesError =
    | SearchListFailure(list: ListFolderError)
    | SearchReadFailure(read: NoteError)

  /** A line matches when its lower-cased text contains `term`; the term itself is used as given. */
  predicate LineMatches(line: string, term: string) {
    Contains(Lower(line), term)
  }

  /** The text `colored` prints for `s.red()`. */
  function Red(s: string): string {
    "\U{1B}[31m" + (s + "\U{1B}[0m")
  }

  /**
   * The line as the snippet shows it: the original-case text at the first
   * lower-case match, `term`'s length long, is wrapped in red wherever it occurs.
   */
  function Highlight(line: string, term: string): string {
    HighlightWith(line, Lower(line), term)
  }

  /** `Highlight`, with the lower-cased line given by name. */
  function HighlightWith(line: string, lower: string, term: string): string
    requires |lower| == |line|
  {
    match Find(lower, term)
    case None => line
    case Some(i) => HighlightAt(line, term, i)
  }

  /** The line with every occurrence of its text at `i`, `term`'s length long, wrapped in red. */
  function HighlightAt(line: string, term: string, i: nat): string
    requires i + |term| <= |line|
  {
    var word := line[i..i + |term|];
    Replace(line, word, Red(word))
  }

  /**
   * The highlighted text is the first match in its original case, and its first
   * occurrence in the line is the match itself: everything before the match is
   * kept, the match is wrapped, and the rest of the line is treated alike.
   */
  lemma HighlightWrapsFirstMatch(line: string, term: string)
    requires term != [] && LineMatches(line, term)
    ensures var i := Find(Lower(line), term).value;
      var word := line[i..i + |term|];
      && Lower(word) == term
      && Highlight(line, term) == line[..i] + (Red(word) + ReplaceFrom(line, word, Red(word), i + |term|))
  {
    var lower := Lower(line);
    var i := Find(lower, term).value;
    var word := line[i..i + |term|];
    FirstMatchFirstOccurs(line, lower, term, i, word);
    ReplaceFirstOccurrence(line, word, Red(word), i);
  }

  /**
   * The original-case text at the first match in `lower`, the lower-cased line,
   * lower-cases to the term and occurs nowhere earlier in the line.
   */
  lemma FirstMatchFirstOccurs(line: string, lower: string, term: string, i: nat, word: string)
    requires lower == Lower(line) && OccursAt(lower, term, i)
    requires forall j: nat | j < i :: !OccursAt(lower, term, j)
    requires word == line[i..i + |term|]
    ensures Lower(word) == term
    ensures forall j: nat | j < i :: !OccursAt(line, word, j)
  {
    MatchText(line, lower, term, i, word);
    forall j: nat | j < i
      ensures !OccursAt(line, word, j)
    {
      NoEarlierOccurrence(line, lower, term, i, j, word);
    }
  }

  /** The original-case text of a match lower-cases to the term. */
  lemma MatchText(line: string, lower: string, term: string, i: nat, word: string)
    requires lower == Lower(line) && OccursAt(lower, term, i)
    requires word == line[i..i + |term|]
    ensures Lower(word) == term
  {
    LowerOfSlice(line, i, i + |term|, word);
  }

  /** Where the lower-cased line has no match, the original-case text of a match does not occur either. */
  lemma NoEarlierOccurrence(line: string, lower: string, term: string, i: nat, j: nat, word: string)
    requires lower == Lower(line) && OccursAt(lower, term, i) && !OccursAt(lower, term, j)
    requires word == line[i..i + |term|]
    ensures !OccursAt(line, word, j)
  {
    if OccursAt(line, word, j) {
      MatchText(line, lower, term, i, word);
      LowerOfSlice(line, j, j + |term|, word);
    }
  }

  /**
   * The snippet of the line at index `k`, line number `k + 1`. The line before
   * it is context from line 3 on: line 1 is never kept as context.
   */
  function SnippetAt(lines: seq<string>, term: string, k: nat): Snippet
    requires k < |lines|
  {
    var context := if k >= 2 then Some(NumberedLine(k, lines[k - 1])) else None;
    Snippet(context, NumberedLine(k + 1, Highlight(lines[k], term)))
  }

  /** The snippets of the first `n` lines. */
  function ScanUpTo(lines: seq<string>, term: string, n: nat): seq<Snippet>
    requires n <= |lines|
  {
    if n == 0 then []
    else if LineMatches(lines[n - 1], term) then ScanUpTo(lines, term, n - 1) + [SnippetAt(lines, term, n - 1)]
    else ScanUpTo(lines, term, n - 1)
  }

  /** The snippets of a note whose readable lines are `lines`. */
  function Scan(lines: seq<string>, term: string): seq<Snippet> {
    ScanUpTo(lines, term, |lines|)
  }

  /**
   * `s` is a snippet for a matching line of `lines`: it shows that line
   * highlighted under its number, and it has context exactly from line 3 on,
   * the previous line's original text under the previous number, whether or
   * not that line matched.
   */
  predicate ShowsMatch(lines: seq<string>, term: string, s: Snippet) {
    var k := s.hit.number - 1;
    && 0 <= k < |lines| && LineMatches(lines[k], term)
    && s.hit.text == Highlight(lines[k], term)
    && (s.context.Some? <==> k >= 2)
    && (s.context.Some? ==> s.context.value == NumberedLine(k, lines[k - 1]))
  }

  lemma SnippetAtShowsMatch(lines: seq<string>, term: string, k: nat)
    requires k < |lines| && LineMatches(lines[k], term)
    ensures ShowsMatch(lines, term, SnippetAt(lines, term, k)) && SnippetAt(lines, term, k).hit.number == k + 1
  {
  }

  /** Every snippet of the first `n` lines is for one of them, and it matches. */
  lemma {:induction false} ScanShape(lines: seq<string>, term: string, n: nat)
    requires n <= |lines|
    ensures forall j | 0 <= j < |ScanUpTo(lines, term, n)| ::
      ScanUpTo(lines, term, n)[j].hit.number <= n && ShowsMatch(lines, term, ScanUpTo(lines, term, n)[j])
  {
    if n > 0 {
      ScanShape(lines, term, n - 1);
      if LineMatches(lines[n - 1], term) {
        SnippetAtShowsMatch(lines, term, n - 1);
      }
    }
  }

  /** The `j`-th snippet of a note is for a matching line. */
  lemma ScanShapeAt(lines: seq<string>, term: string, j: nat)
    requires j < |Scan(lines, term)|
    ensures ShowsMatch(lines, term, Scan(lines, term)[j])
  {
    ScanShape(lines, term, |lines|);
  }

  /** The line numbers of the snippets, in order. */
  function HitNumbers(r: seq<Snippet>): (ns: seq<nat>)
    ensures |ns| == |r| && forall j | 0 <= j < |r| :: ns[j] == r[j].hit.number
  {
    seq(|r|, j requires 0 <= j < |r| => r[j].hit.number)
  }

  /** The numbers of the matching lines among the first `n`, in order. */
  function MatchNumbers(lines: seq<string>, term: string, n: nat): seq<nat>
    requires n <= |lines|
  {
    if n == 0 then []
    else if LineMatches(lines[n - 1], term) then MatchNumbers(lines, term, n - 1) + [n]
    else MatchNumbers(lines, term, n - 1)
  }

  /** There is one snippet per matching line, in line order. */
  lemma {:induction false} ScanNumbers(lines: seq<string>, term: string, n: nat)
    requires n <= |lines|
    ensures HitNumbers(ScanUpTo(lines, term, n)) == MatchNumbers(lines, term, n)
  {
    if n > 0 {
      ScanNumbers(lines, term, n - 1);
      if LineMatches(lines[n - 1], term) {
        HitNumbersSnoc(ScanUpTo(lines, term, n - 1), SnippetAt(lines, term, n - 1));
      }
    }
  }

  /** Appending a snippet appends its line number. */
  lemma HitNumbersSnoc(r: seq<Snippet>, s: Snippet)
    ensures HitNumbers(r + [s]) == HitNumbers(r) + [s.hit.number]
  {
    var hits, expected := HitNumbers(r + [s]), HitNumbers(r) + [s.hit.number];
    forall j | 0 <= j < |hits|
      ensures hits[j] == expected[j]
    {
      if j < |r| {
        assert (r + [s])[j] == r[j];
      }
    }
  }

  /** The matching line numbers increase and stay within the first `n` lines. */
  lemma {:induction false} MatchNumbersOrdered(lines: seq<string>, term: string, n: nat)
    requires n <= |lines|
    ensures forall i | 0 <= i < |MatchNumbers(lines, term, n)| :: 1 <= MatchNumbers(lines, term, n)[i] <= n
    ensures forall i, j | 0 <= i < j < |MatchNumbers(lines, term, n)| ::
      MatchNumbers(lines, term, n)[i] < MatchNumbers(lines, term, n)[j]
  {
    if n > 0 {
      MatchNumbersOrdered(lines, term, n - 1);
    }
  }

  /** Every matching line among the first `n` is listed. */
  lemma {:induction false} MatchNumbersComplete(lines: seq<string>, term: string, n: nat)
    requires n <= |lines|
    ensures forall k | 0 <= k < n && LineMatches(lines[k], term) :: k + 1 in MatchNumbers(lines, term, n)
  {
    if n > 0 {
      MatchNumbersComplete(lines, term, n - 1);
    }
  }

  /** The snippets of a note come in increasing line order. */
  lemma ScanInLineOrder(lines: seq<string>, term: string)
    ensures forall i, j | 0 <= i < j < |Scan(lines, term)| :: Scan(lines, term)[i].hit.number < Scan(lines, term)[j].hit.number
  {
    ScanNumbers(lines, term, |lines|);
    MatchNumbersOrdered(lines, term, |lines|);
  }

  /** There is a snippet for line `k + 1` exactly when that line matches. */
  lemma ScanCoversMatches(lines: seq<string>, term: string)
    ensures forall k | 0 <= k < |lines| :: k + 1 in HitNumbers(Scan(lines, term)) <==> LineMatches(lines[k], term)
  {
    HitsMatch(lines, term);
    MatchesHit(lines, term);
  }

  lemma HitsMatch(lines: seq<string>, term: string)
    ensures forall k | 0 <= k < |lines| && k + 1 in HitNumbers(Scan(lines, term)) :: LineMatches(lines[k], term)
  {
    var r := Scan(lines, term);
    forall k | 0 <= k < |lines| && k + 1 in HitNumbers(r)
      ensures LineMatches(lines[k], term)
    {
      var j :| 0 <= j < |r| && HitNumbers(r)[j] == k + 1;
      ScanShapeAt(lines, term, j);
      ShownLineMatches(lines, term, r[j]);
    }
  }

  lemma ShownLineMatches(lines: seq<string>, term: string, s: Snippet)
    requires ShowsMatch(lines, term, s)
    ensures 1 <= s.hit.number <= |lines| && LineMatches(lines[s.hit.number - 1], term)
  {
  }

  lemma MatchesHit(lines: seq<string>, term: string)
    ensures forall k | 0 <= k < |lines| && LineMatches(lines[k], term) :: k + 1 in HitNumbers(Scan(lines, term))
  {
    ScanNumbers(lines, term, |lines|);
    MatchNumbersComplete(lines, term, |lines|);
  }

  /** A note yields no snippet exactly when none of its lines matches. */
  lemma ScanEmpty(lines: seq<string>, term: string)
    ensures Scan(lines, term) == [] <==> forall k | 0 <= k < |lines| :: !LineMatches(lines[k], term)
  {
    ScanCoversMatches(lines, term);
    var r := Scan(lines, term);
    if r != [] {
      ScanShapeAt(lines, term, 0);
      ShownLineMatches(lines, term, r[0]);
    }
  }

  /** A matching line adds its snippet, with the line before it as context from line 3 on. */
  lemma ScanStepMatch(lines: seq<string>, term: string, i: nat, lower: string,
                      context: Option<NumberedLine>, highlighted: string)
    requires i < |lines| && lower == Lower(lines[i]) && Contains(lower, term)
    requires highlighted == HighlightWith(lines[i], lower, term)
    requires context == if i >= 2 then Some(NumberedLine(i, lines[i - 1])) else None
    ensures ScanUpTo(lines, term, i + 1) == ScanUpTo(lines, term, i) + [Snippet(context, NumberedLine(i + 1, highlighted))]
  {
    assert Snippet(context, NumberedLine(i + 1, highlighted)) == SnippetAt(lines, term, i);
  }

  /** A line that does not match adds nothing. */
  lemma ScanStepSkip(lines: seq<string>, term: string, i: nat, lower: string)
    requires i < |lines| && lower == Lower(lines[i]) && !Contains(lower, term)
    ensures ScanUpTo(lines, term, i + 1) == ScanUpTo(lines, term, i)
  {
  }

  /**
   * The inner loop of `search_notes_content` over the lines of one note, with
   * its line counter and its one-line context window.
   */
  method ScanLines(lines: seq<string>, term: string) returns (snippets: seq<Snippet>)
    ensures snippets == Scan(lines, term)
  {
    snippets := [];
    var lineBefore: Option<string> := None;
    var lineNumber: nat := 0;
    for i := 0 to |lines|
      invariant lineNumber == i
      invariant snippets == ScanUpTo(lines, term, i)
      invariant lineBefore == if i >= 2 then Some(lines[i - 1]) else None
    {
      var line := lines[i];
      lineNumber := lineNumber + 1;
      var lower := Lower(line);
      if Contains(lower, term) {
        var index := Find(lower, term).value;
        var correctWord := line[index..index + |term|];
        var highlighted := Replace(line, correctWord, Red(correctWord));
        assert highlighted == HighlightAt(line, term, index);
        var context: Option<NumberedLine> := None;
        if lineBefore.Some? {
          context := Some(NumberedLine(lineNumber - 1, lineBefore.value));
        }
        lineBefore := None;
        ScanStepMatch(lines, term, i, lower, context, highlighted);
        snippets := snippets + [Snippet(context, NumberedLine(lineNumber, highlighted))];
      } else {
        ScanStepSkip(lines, term, i, lower);
      }
      if lineNumber != 1 {
        lineBefore := Some(line);
      }
    }
  }

  /** What the search makes of one note: a result when some line matches, nothing otherwise. */
  function NoteResult(fs: FileSystem, note: Note, term: string): Result<Option<SearchNoteResult>, NoteError> {
    match OpenLines(fs, note.GetPath())
    case Err(e) => Err(ReadError(e))
    case Ok(lines) =>
      var snippets := Scan(lines, term);
      Ok(if snippets == [] then None else Some(SearchNoteResult(note, snippets)))
  }

  /** The first loop: the results for the notes of one folder, in order. */
  function NotesResults(fs: FileSystem, notes: seq<Note>, term: string): Result<seq<SearchNoteResult>, NoteError> {
    if notes == [] then Ok([])
    else match NotesResults(fs, notes[..|notes| - 1], term)
      case Err(e) => Err(e)
      case Ok(acc) =>
        match NoteResult(fs, notes[|notes| - 1], term)
        case Err(e) => Err(e)
        case Ok(r) => Ok(if r.Some? then acc + [r.value] else acc)
  }

  /** What `folder.search_notes_content(term)` returns, or fails with. */
  function SearchContent(fs: FileSystem, folder: Folder, term: string): Result<seq<SearchNoteResult>, SearchNotesError>
    requires TreeShaped(fs)
    decreases Below(fs, folder.GetPath()), 1, 0
  {
    match ListSpec(fs, folder)
    case Err(e) => Err(SearchListFailure(e))
    case Ok(entries) =>
      ListedEntriesShape(fs, folder);
      match NotesResults(fs, entries.notes, term)
      case Err(e) => Err(SearchReadFailure(e))
      case Ok(here) =>
        match SearchIn(fs, folder.GetPath(), entries.folders, term)
        case Err(e) => Err(e)
        case Ok(below) => Ok(here + below)
  }

  /** The second loop: the results of the sub-folders `subs` of directory `p`, one after the other. */
  function SearchIn(fs: FileSystem, p: Path, subs: seq<Folder>, term: string): Result<seq<SearchNoteResult>, SearchNotesError>
    requires TreeShaped(fs) && p in fs
    requires forall k | 0 <= k < |subs| :: subs[k].path == p && ValidName(subs[k].name)
    decreases Below(fs, p), 0, |subs|
  {
    if subs == [] then Ok([])
    else match SearchIn(fs, p, subs[..|subs| - 1], term)
      case Err(e) => Err(e)
      case Ok(acc) =>
        var sub := subs[|subs| - 1];
        BelowShrinks(fs, p, sub.name);
        match SearchContent(fs, sub, term)
        case Err(e) => Err(e)
        case Ok(found) => Ok(acc + found)
  }

  /** The notes the results are about, in order. */
  function ResultNotes(rs: seq<SearchNoteResult>): (ns: seq<Note>)
    ensures |ns| == |rs| && forall i | 0 <= i < |rs| :: ns[i] == rs[i].note
  {
    seq(|rs|, i requires 0 <= i < |rs| => rs[i].note)
  }

  lemma ResultNotesAppend(a: seq<SearchNoteResult>, b: seq<SearchNoteResult>)
    ensures ResultNotes(a + b) == ResultNotes(a) + ResultNotes(b)
  {
  }

  /** Some readable line of the note matches. */
  ghost predicate HasMatch(fs: FileSystem, n: Note, term: string) {
    OpenLines(fs, n.GetPath()).Ok? &&
    var lines := OpenLines(fs, n.GetPath()).value;
    exists k | 0 <= k < |lines| :: LineMatches(lines[k], term)
  }

  /** A result as the search promises it: the snippets of its note's readable lines, and at least one. */
  ghost predicate Faithful(fs: FileSystem, term: string, r: SearchNoteResult) {
    OpenLines(fs, r.note.GetPath()).Ok? &&
    r.snippets == Scan(OpenLines(fs, r.note.GetPath()).value, term) && r.snippets != []
  }

  /** A note that could be read has a result exactly when one of its lines matches, and the result is faithful. */
  lemma NoteResultMatches(fs: FileSystem, note: Note, term: string)
    requires NoteResult(fs, note, term).Ok?
    ensures NoteResult(fs, note, term).value.Some? <==> HasMatch(fs, note, term)
    ensures NoteResult(fs, note, term).value.Some? ==>
      NoteResult(fs, note, term).value.value.note == note && Faithful(fs, term, NoteResult(fs, note, term).value.value)
  {
    ScanEmpty(OpenLines(fs, note.GetPath()).value, term);
  }

  /**
   * A successful first loop returns results for exactly the notes of the
   * folder that have a matching line.
   */
  lemma {:induction false} NotesResultsMembers(fs: FileSystem, notes: seq<Note>, term: string)
    requires NotesResults(fs, notes, term).Ok?
    ensures forall n :: n in ResultNotes(NotesResults(fs, notes, term).value) <==> n in notes && HasMatch(fs, n, term)
  {
    if notes != [] {
      var init, last := notes[..|notes| - 1], notes[|notes| - 1];
      NotesResultsStep(fs, notes, term);
      NotesResultsMembers(fs, init, term);
      NoteResultMatches(fs, last, term);
      var one := NoteResult(fs, last, term).value;
      NotesMembersStep(fs, notes, term, NotesResults(fs, notes, term).value, NotesResults(fs, init, term).value,
        if one.Some? then [one.value] else []);
    }
  }

  /** One step of the first loop: the result for the last note, if any, is appended. */
  lemma NotesResultsStep(fs: FileSystem, notes: seq<Note>, term: string)
    requires notes != [] && NotesResults(fs, notes, term).Ok?
    ensures NotesResults(fs, notes[..|notes| - 1], term).Ok?
    ensures NoteResult(fs, notes[|notes| - 1], term).Ok?
    ensures var one := NoteResult(fs, notes[|notes| - 1], term).value;
      NotesResults(fs, notes, term).value ==
        NotesResults(fs, notes[..|notes| - 1], term).value + (if one.Some? then [one.value] else [])
  {
  }

  lemma NotesMembersStep(fs: FileSystem, notes: seq<Note>, term: string,
                         all: seq<SearchNoteResult>, before: seq<SearchNoteResult>, extra: seq<SearchNoteResult>)
    requires notes != [] && all == before + extra
    requires forall n :: n in ResultNotes(before) <==> n in notes[..|notes| - 1] && HasMatch(fs, n, term)
    requires |extra| <= 1 && (extra != [] <==> HasMatch(fs, notes[|notes| - 1], term))
    requires forall r | r in extra :: r.note == notes[|notes| - 1]
    ensures forall n :: n in ResultNotes(all) <==> n in notes && HasMatch(fs, n, term)
  {
    ResultNotesAppend(before, extra);
    var init, last := notes[..|notes| - 1], notes[|notes| - 1];
    assert notes == init + [last];
    if extra != [] {
      assert extra[0] in extra;
      assert ResultNotes(extra) == [last];
    }
    forall n
      ensures n in ResultNotes(all) <==> n in notes && HasMatch(fs, n, term)
    {
      assert n in notes <==> n in init || n == last;
    }
  }

  /** Every result of a successful first loop is faithful to its note. */
  lemma {:induction false} NotesResultsFaithful(fs: FileSystem, notes: seq<Note>, term: string)
    requires NotesResults(fs, notes, term).Ok?
    ensures forall r | r in NotesResults(fs, notes, term).value :: Faithful(fs, term, r)
  {
    if notes != [] {
      var init, last := notes[..|notes| - 1], notes[|notes| - 1];
      NotesResultsStep(fs, notes, term);
      NotesResultsFaithful(fs, init, term);
      NoteResultMatches(fs, last, term);
    }
  }

  /** Every result of a successful search from `folder` is faithful to its note. */
  lemma {:induction false} SearchContentFaithful(fs: FileSystem, folder: Folder, term: string)
    requires TreeShaped(fs) && SearchContent(fs, folder, term).Ok?
    ensures forall r | r in SearchContent(fs, folder, term).value :: Faithful(fs, term, r)
    decreases Below(fs, folder.GetPath()), 1, 0
  {
    var entries := ListSpec(fs, folder).value;
    ListedEntriesShape(fs, folder);
    NotesResultsFaithful(fs, entries.notes, term);
    SearchInFaithful(fs, folder.GetPath(), entries.folders, term);
  }

  lemma {:induction false} SearchInFaithful(fs: FileSystem, p: Path, subs: seq<Folder>, term: string)
    requires TreeShaped(fs) && p in fs
    requires forall k | 0 <= k < |subs| :: subs[k].path == p && ValidName(subs[k].name)
    requires SearchIn(fs, p, subs, term).Ok?
    ensures forall r | r in SearchIn(fs, p, subs, term).value :: Faithful(fs, term, r)
    decreases Below(fs, p), 0, |subs|
  {
    if subs != [] {
      var init, sub := subs[..|subs| - 1], subs[|subs| - 1];
      SubfoldersInit(p, subs, init);
      SearchInSnoc(fs, p, subs, term);
      SearchInFaithful(fs, p, init, term);
      BelowShrinks(fs, p, sub.name);
      SearchContentFaithful(fs, sub, term);
    }
  }

  /** The notes that a search from `p` for `term` should find. */
  ghost predicate ContentFound(fs: FileSystem, p: Path, n: Note, term: string) {
    Reaches(fs, p, n) && HasMatch(fs, n, term)
  }

  /** Some folder of `subs` finds `n`. */
  ghost predicate FoundInSome(fs: FileSystem, subs: seq<Folder>, n: Note, term: string) {
    subs != [] &&
    (FoundInSome(fs, subs[..|subs| - 1], n, term) || ContentFound(fs, subs[|subs| - 1].GetPath(), n, term))
  }

  /** A folder of `subs` that finds `n`, when some folder does. */
  lemma {:induction false} FoundInSomeWitness(fs: FileSystem, subs: seq<Folder>, n: Note, term: string) returns (k: nat)
    requires FoundInSome(fs, subs, n, term)
    ensures k < |subs| && ContentFound(fs, subs[k].GetPath(), n, term)
  {
    var init := subs[..|subs| - 1];
    if ContentFound(fs, subs[|subs| - 1].GetPath(), n, term) {
      k := |subs| - 1;
    } else {
      k := FoundInSomeWitness(fs, init, n, term);
      assert init[k] == subs[k];
    }
  }

  /** A note that the folder at index `k` of `subs` finds is found by some folder of `subs`. */
  lemma {:induction false} FoundThroughIndex(fs: FileSystem, subs: seq<Folder>, k: nat, n: Note, term: string)
    requires k < |subs| && ContentFound(fs, subs[k].GetPath(), n, term)
    ensures FoundInSome(fs, subs, n, term)
  {
    if k < |subs| - 1 {
      var init := subs[..|subs| - 1];
      assert init[k] == subs[k];
      FoundThroughIndex(fs, init, k, n, term);
    }
  }

  /** The results of the sub-folders are concatenated in order. */
  lemma SearchInSnoc(fs: FileSystem, p: Path, subs: seq<Folder>, term: string)
    requires TreeShaped(fs) && p in fs
    requires forall k | 0 <= k < |subs| :: subs[k].path == p && ValidName(subs[k].name)
    requires subs != [] && SearchIn(fs, p, subs, term).Ok?
    ensures SearchIn(fs, p, subs[..|subs| - 1], term).Ok?
    ensures SearchContent(fs, subs[|subs| - 1], term).Ok?
    ensures SearchIn(fs, p, subs, term).value ==
      SearchIn(fs, p, subs[..|subs| - 1], term).value + SearchContent(fs, subs[|subs| - 1], term).value
  {
  }

  lemma MembersSnoc(fs: FileSystem, subs: seq<Folder>, term: string,
                    all: seq<SearchNoteResult>, before: seq<SearchNoteResult>, last: seq<SearchNoteResult>)
    requires subs != [] && all == before + last
    requires forall n :: n in ResultNotes(before) <==> FoundInSome(fs, subs[..|subs| - 1], n, term)
    requires forall n :: n in ResultNotes(last) <==> ContentFound(fs, subs[|subs| - 1].GetPath(), n, term)
    ensures forall n :: n in ResultNotes(all) <==> FoundInSome(fs, subs, n, term)
  {
    ResultNotesAppend(before, last);
  }

  /** The traversal of the sub-folders `subs`: a note has a result if some sub-folder finds it. */
  lemma {:induction false} SearchInMembers(fs: FileSystem, p: Path, subs: seq<Folder>, term: string)
    requires TreeShaped(fs) && ListedExist(fs) && ExistListed(fs) && p in fs
    requires forall k | 0 <= k < |subs| :: subs[k].path == p && ValidName(subs[k].name)
    requires SearchIn(fs, p, subs, term).Ok?
    ensures forall n :: n in ResultNotes(SearchIn(fs, p, subs, term).value) <==> FoundInSome(fs, subs, n, term)
    decreases Below(fs, p), 0, |subs|
  {
    if subs != [] {
      var init, sub := subs[..|subs| - 1], subs[|subs| - 1];
      SubfoldersInit(p, subs, init);
      SearchInSnoc(fs, p, subs, term);
      SearchInMembers(fs, p, init, term);
      BelowShrinks(fs, p, sub.name);
      SearchContentMembers(fs, sub, term);
      MembersSnoc(fs, subs, term, SearchIn(fs, p, subs, term).value,
        SearchIn(fs, p, init, term).value, SearchContent(fs, sub, term).value);
    }
  }

  /**
   * On a consistent tree, a successful search from `folder` returns a result
   * for exactly the notes in it or below it through visible sub-folders
   * that have a line whose lower-cased text contains `term`.
   */
  lemma {:induction false} SearchContentMembers(fs: FileSystem, folder: Folder, term: string)
    requires TreeShaped(fs) && ListedExist(fs) && ExistListed(fs)
    requires SearchContent(fs, folder, term).Ok?
    ensures forall n :: n in ResultNotes(SearchContent(fs, folder, term).value) <==> ContentFound(fs, folder.GetPath(), n, term)
    decreases Below(fs, folder.GetPath()), 1, 0
  {
    var p := folder.GetPath();
    var entries := ListSpec(fs, folder).value;
    ListedEntriesShape(fs, folder);
    FoundHere(fs, folder, term);
    SearchInMembers(fs, p, entries.folders, term);
    forall n
      ensures FoundInSome(fs, entries.folders, n, term) <==> p < n.path && ContentFound(fs, p, n, term)
    {
      FoundBelow(fs, folder, term, n);
    }
    ResultNotesAppend(NotesResults(fs, entries.notes, term).value, SearchIn(fs, p, entries.folders, term).value);
  }

  /** The results for the folder's own notes are the ones found at its own level. */
  lemma FoundHere(fs: FileSystem, folder: Folder, term: string)
    requires TreeShaped(fs) && ListedExist(fs) && ExistListed(fs)
    requires ListSpec(fs, folder).Ok?
    requires NotesResults(fs, ListSpec(fs, folder).value.notes, term).Ok?
    ensures forall n :: n in ResultNotes(NotesResults(fs, ListSpec(fs, folder).value.notes, term).value) <==>
      n.path == folder.GetPath() && ContentFound(fs, folder.GetPath(), n, term)
  {
    ReachedHere(fs, folder);
    NotesResultsMembers(fs, ListSpec(fs, folder).value.notes, term);
  }

  /** A note deeper than the folder is found from the folder exactly when one of its sub-folders finds it. */
  lemma FoundBelow(fs: FileSystem, folder: Folder, term: string, n: Note)
    requires TreeShaped(fs) && ListedExist(fs) && ExistListed(fs)
    requires ListSpec(fs, folder).Ok?
    ensures FoundInSome(fs, ListSpec(fs, folder).value.folders, n, term)
        <==> folder.GetPath() < n.path && ContentFound(fs, folder.GetPath(), n, term)
  {
    var p := folder.GetPath();
    var subs := ListSpec(fs, folder).value.folders;
    if FoundInSome(fs, subs, n, term) {
      var k := FoundInSomeWitness(fs, subs, n, term);
      ReachedFromSubfolder(fs, folder, k, n);
    }
    if p < n.path && ContentFound(fs, p, n, term) {
      var k := ReachedThroughSubfolder(fs, folder, n);
      FoundThroughIndex(fs, subs, k, n, term);
    }
  }

  /**
   * The results for the folder's own notes come first, in listing order; every
   * result after them is for a note in a sub-folder.
   */
  lemma HereFirst(fs: FileSystem, folder: Folder, term: string)
    requires TreeShaped(fs) && ListedExist(fs) && ExistListed(fs)
    requires SearchContent(fs, folder, term).Ok?
    ensures ListSpec(fs, folder).Ok? && NotesResults(fs, ListSpec(fs, folder).value.notes, term).Ok?
    ensures var here, all := NotesResults(fs, ListSpec(fs, folder).value.notes, term).value, SearchContent(fs, folder, term).value;
      && here <= all
      && (forall k | 0 <= k < |here| :: all[k].note.path == folder.GetPath())
      && (forall k | |here| <= k < |all| :: folder.GetPath() < all[k].note.path)
  {
    var entries := ListSpec(fs, folder).value;
    ListedEntriesShape(fs, folder);
    var here := NotesResults(fs, entries.notes, term).value;
    var below := SearchIn(fs, folder.GetPath(), entries.folders, term).value;
    assert SearchContent(fs, folder, term).value == here + below;
    OwnResultsHere(fs, folder, term);
    LaterResultsBelow(fs, folder, term, here, below);
  }

  /** The results for the folder's own notes are for notes directly in it. */
  lemma OwnResultsHere(fs: FileSystem, folder: Folder, term: string)
    requires TreeShaped(fs) && ListedExist(fs) && ExistListed(fs)
    requires ListSpec(fs, folder).Ok? && NotesResults(fs, ListSpec(fs, folder).value.notes, term).Ok?
    ensures var here := NotesResults(fs, ListSpec(fs, folder).value.notes, term).value;
      forall k | 0 <= k < |here| :: here[k].note.path == folder.GetPath()
  {
    var here := NotesResults(fs, ListSpec(fs, folder).value.notes, term).value;
    FoundHere(fs, folder, term);
    forall k | 0 <= k < |here|
      ensures here[k].note.path == folder.GetPath()
    {
      assert ResultNotes(here)[k] in ResultNotes(here);
    }
  }

  /** The results of the sub-folders are for notes strictly below the folder. */
  lemma LaterResultsBelow(fs: FileSystem, folder: Folder, term: string, here: seq<SearchNoteResult>, below: seq<SearchNoteResult>)
    requires TreeShaped(fs) && ListedExist(fs) && ExistListed(fs) && ListSpec(fs, folder).Ok?
    requires var entries := ListSpec(fs, folder).value;
      && IsDir(fs, folder.GetPath())
      && (forall k | 0 <= k < |entries.folders| :: entries.folders[k].path == folder.GetPath() && ValidName(entries.folders[k].name))
      && SearchIn(fs, folder.GetPath(), entries.folders, term) == Ok(below)
    ensures forall k | |here| <= k < |here + below| :: folder.GetPath() < (here + below)[k].note.path
  {
    assert forall j | 0 <= j < |below| :: folder.GetPath() < below[j].note.path by {
      SearchInMembers(fs, folder.GetPath(), ListSpec(fs, folder).value.folders, term);
      SubfolderResultsDeeper(fs, folder, term, below);
    }
    forall k | |here| <= k < |here + below|
      ensures folder.GetPath() < (here + below)[k].note.path
    {
      assert (here + below)[k] == below[k - |here|];
    }
  }

  /** Results whose notes some sub-folder finds are for notes strictly below the folder. */
  lemma SubfolderResultsDeeper(fs: FileSystem, folder: Folder, term: string, below: seq<SearchNoteResult>)
    requires TreeShaped(fs) && ListedExist(fs) && ExistListed(fs) && ListSpec(fs, folder).Ok?
    requires forall n :: n in ResultNotes(below) <==> FoundInSome(fs, ListSpec(fs, folder).value.folders, n, term)
    ensures forall j | 0 <= j < |below| :: folder.GetPath() < below[j].note.path
  {
    forall j | 0 <= j < |below|
      ensures folder.GetPath() < below[j].note.path
    {
      assert ResultNotes(below)[j] in ResultNotes(below);
      FoundBelow(fs, folder, term, below[j].note);
    }
  }

  /** The first loop of `search_notes_content`: scans each note of the folder and keeps those with snippets. */
  method SearchNotes(fs: FileSystem, notes: seq<Note>, term: string) returns (r: Result<seq<SearchNoteResult>, NoteError>)
    ensures r == NotesResults(fs, notes, term)
  {
    var matchingNotes: seq<SearchNoteResult> := [];
    for i := 0 to |notes|
      invariant NotesResults(fs, notes[..i], term) == Ok(matchingNotes)
    {
      var note := notes[i];
      assert notes[..i + 1][..i] == notes[..i];
      var lines := OpenLines(fs, note.GetPath());
      if lines.Err? {
        NotesResultsErrorStays(fs, notes, term, i + 1);
        return Err(ReadError(lines.error));
      }
      var snippets := ScanLines(lines.value, term);
      if snippets != [] {
        matchingNotes := matchingNotes + [SearchNoteResult(note, snippets)];
      }
    }
    assert notes[..|notes|] == notes;
    return Ok(matchingNotes);
  }

  /** `Folder::search_notes_content`: lists the folder, scans its notes, then recurses into each sub-folder. */
  method SearchNotesContent(fs: FileSystem, folder: Folder, term: string) returns (r: Result<seq<SearchNoteResult>, SearchNotesError>)
    requires TreeShaped(fs)
    ensures r == SearchContent(fs, folder, term)
    decreases Below(fs, folder.GetPath()), 1
  {
    var entries := List(fs, folder);
    if entries.Err? {
      return Err(SearchListFailure(entries.error));
    }
    ListedEntriesShape(fs, folder);
    var here := SearchNotes(fs, entries.value.notes, term);
    if here.Err? {
      return Err(SearchReadFailure(here.error));
    }
    var below := SearchSubfolders(fs, folder.GetPath(), entries.value.folders, term);
    if below.Err? {
      return below;
    }
    return Ok(here.value + below.value);
  }

  /** The second loop of `search_notes_content`: appends the results of each sub-folder in turn. */
  method SearchSubfolders(fs: FileSystem, p: Path, subs: seq<Folder>, term: string)
    returns (r: Result<seq<SearchNoteResult>, SearchNotesError>)
    requires TreeShaped(fs) && p in fs
    requires forall k | 0 <= k < |subs| :: subs[k].path == p && ValidName(subs[k].name)
    ensures r == SearchIn(fs, p, subs, term)
    decreases Below(fs, p), 0
  {
    var matchingNotes: seq<SearchNoteResult> := [];
    for i := 0 to |subs|
      invariant SearchIn(fs, p, subs[..i], term) == Ok(matchingNotes)
    {
      var sub := subs[i];
      assert subs[..i + 1][..i] == subs[..i];
      BelowShrinks(fs, p, sub.name);
      var found := SearchNotesContent(fs, sub, term);
      if found.Err? {
        SearchInErrorStays(fs, p, subs, term, i + 1);
        return found;
      }
      matchingNotes := matchingNotes + found.value;
    }
    assert subs[..|subs|] == subs;
    return Ok(matchingNotes);
  }

  lemma {:induction false} NotesResultsErrorStays(fs: FileSystem, notes: seq<Note>, term: string, n: nat)
    requires n <= |notes|
    requires NotesResults(fs, notes[..n], term).Err?
    ensures NotesResults(fs, notes, term) == NotesResults(fs, notes[..n], term)
    decreases |notes|
  {
    if n < |notes| {
      assert notes[..|notes| - 1][..n] == notes[..n];
      NotesResultsErrorStays(fs, notes[..|notes| - 1], term, n);
    } else {
      assert notes[..n] == notes;
    }
  }

  lemma {:induction false} SearchInErrorStays(fs: FileSystem, p: Path, subs: seq<Folder>, term: string, n: nat)
    requires TreeShaped(fs) && p in fs
    requires forall k | 0 <= k < |subs| :: subs[k].path == p && ValidName(subs[k].name)
    requires n <= |subs|
    requires SearchIn(fs, p, subs[..n], term).Err?
    ensures SearchIn(fs, p, subs, term) == SearchIn(fs, p, subs[..n], term)
    decreases |subs|
  {
    if n < |subs| {
      assert subs[..|subs| - 1][..n] == subs[..n];
      SearchInErrorStays(fs, p, subs[..|subs| - 1], term, n);
    } else {
      assert subs[..n] == subs;
    }
  }
}
