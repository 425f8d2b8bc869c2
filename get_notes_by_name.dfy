/**
 * `Folder::get_notes_by_name` (src/actions/folder/get_notes_by_name.rs): a
 * preorder walk of the folder tree that keeps every note whose display name,
 * lower-cased, contains the given text. The notes of a folder come before the
 * results of its sub-folders, which follow in listing order.
 */
module NameSearch {
  import opened Wrappers
  import opened Text
  import opened Paths
  import opened Fs
  import opened NoteModel
  import opened FolderModel
  import opened Listing

  datatype GetNotesByNameError =
    | ListFolder(list: ListFolderError)
    | NoteReadFailure(note: NoteError)

  /** Whether `get_notes_by_name` keeps a note with this display name. */
  predicate NameMatches(displayName: string, name: string) {
    Contains(Lower(displayName), name)
  }

  /** The first loop: the notes of one folder whose display names match, in order. */
  function MatchingNotes(fs: FileSystem, notes: seq<Note>, name: string): Result<seq<Note>, NoteError> {
    if notes == [] then Ok([])
    else match MatchingNotes(fs, notes[..|notes| - 1], name)
      case Err(e) => Err(e)
      case Ok(acc) =>
        var note := notes[|notes| - 1];
        match note.DisplayName(fs)
        case Err(e) => Err(e)
        case Ok(d) => Ok(if NameMatches(d, name) then acc + [note] else acc)
  }

  /** What `folder.get_notes_by_name(name)` returns, or fails with. */
  function NotesByName(fs: FileSystem, folder: Folder, name: string): Result<seq<Note>, GetNotesByNameError>
    requires TreeShaped(fs)
    decreases Below(fs, folder.GetPath()), 1, 0
  {
    match ListSpec(fs, folder)
    case Err(e) => Err(ListFolder(e))
    case Ok(entries) =>
      ListedEntriesShape(fs, folder);
      match MatchingNotes(fs, entries.notes, name)
      case Err(e) => Err(NoteReadFailure(e))
      case Ok(here) =>
        match NotesByNameIn(fs, folder.GetPath(), entries.folders, name)
        case Err(e) => Err(e)
        case Ok(below) => Ok(here + below)
  }

  /** The second loop: the results of the sub-folders `subs` of directory `p`, one after the other. */
  function NotesByNameIn(fs: FileSystem, p: Path, subs: seq<Folder>, name: string): Result<seq<Note>, GetNotesByNameError>
    requires TreeShaped(fs) && p in fs
    requires forall k | 0 <= k < |subs| :: subs[k].path == p && ValidName(subs[k].name)
    decreases Below(fs, p), 0, |subs|
  {
    if subs == [] then Ok([])
    else match NotesByNameIn(fs, p, subs[..|subs| - 1], name)
      case Err(e) => Err(e)
      case Ok(acc) =>
        var sub := subs[|subs| - 1];
        BelowShrinks(fs, p, sub.name);
        match NotesByName(fs, sub, name)
        case Err(e) => Err(e)
        case Ok(found) => Ok(acc + found)
  }

  lemma {:induction false} MatchingNotesErrorStays(fs: FileSystem, notes: seq<Note>, name: string, n: nat)
    requires n <= |notes|
    requires MatchingNotes(fs, notes[..n], name).Err?
    ensures MatchingNotes(fs, notes, name) == MatchingNotes(fs, notes[..n], name)
    decreases |notes|
  {
    if n < |notes| {
      assert notes[..|notes| - 1][..n] == notes[..n];
      MatchingNotesErrorStays(fs, notes[..|notes| - 1], name, n);
    } else {
      assert notes[..n] == notes;
    }
  }

  lemma {:induction false} NotesByNameInErrorStays(fs: FileSystem, p: Path, subs: seq<Folder>, name: string, n: nat)
    requires TreeShaped(fs) && p in fs
    requires forall k | 0 <= k < |subs| :: subs[k].path == p && ValidName(subs[k].name)
    requires n <= |subs|
    requires NotesByNameIn(fs, p, subs[..n], name).Err?
    ensures NotesByNameIn(fs, p, subs, name) == NotesByNameIn(fs, p, subs[..n], name)
    decreases |subs|
  {
    if n < |subs| {
      assert subs[..|subs| - 1][..n] == subs[..n];
      NotesByNameInErrorStays(fs, p, subs[..|subs| - 1], name, n);
    } else {
      assert subs[..n] == subs;
    }
  }

  /** One step of the first loop: the last note is read, and kept when its display name matches. */
  lemma MatchingNotesStep(fs: FileSystem, notes: seq<Note>, name: string)
    requires notes != [] && MatchingNotes(fs, notes, name).Ok?
    ensures MatchingNotes(fs, notes[..|notes| - 1], name).Ok?
    ensures notes[|notes| - 1].DisplayName(fs).Ok?
    ensures MatchingNotes(fs, notes, name).value == MatchingNotes(fs, notes[..|notes| - 1], name).value +
      if NameMatches(notes[|notes| - 1].DisplayName(fs).value, name) then [notes[|notes| - 1]] else []
  {
  }

  /** The same step, when only the reading of the names matters. */
  lemma MatchingNotesStepRead(fs: FileSystem, notes: seq<Note>, name: string)
    requires notes != [] && MatchingNotes(fs, notes, name).Ok?
    ensures MatchingNotes(fs, notes[..|notes| - 1], name).Ok?
    ensures notes[|notes| - 1].DisplayName(fs).Ok?
  {
  }

  /** The members of `notes` are those of all but its last element, and that element. */
  lemma InitAndLast<T>(xs: seq<T>, x: T)
    requires xs != []
    ensures x in xs <==> x in xs[..|xs| - 1] || x == xs[|xs| - 1]
  {
    var init := xs[..|xs| - 1];
    if x in xs {
      var k :| 0 <= k < |xs| && xs[k] == x;
      if k < |init| {
        assert init[k] == x;
      }
    }
    if x in init {
      var k :| 0 <= k < |init| && init[k] == x;
      assert xs[k] == x;
    }
  }

  /** The filter succeeds only if every display name could be read. */
  lemma MatchingNotesRead(fs: FileSystem, notes: seq<Note>, name: string)
    requires MatchingNotes(fs, notes, name).Ok?
    ensures forall k | 0 <= k < |notes| :: notes[k].DisplayName(fs).Ok?
  {
    forall k | 0 <= k < |notes|
      ensures notes[k].DisplayName(fs).Ok?
    {
      MatchingNotesReadAt(fs, notes, name, k);
    }
  }

  /** The filter succeeds only if the display name at index `k` could be read. */
  lemma {:induction false} MatchingNotesReadAt(fs: FileSystem, notes: seq<Note>, name: string, k: nat)
    requires k < |notes| && MatchingNotes(fs, notes, name).Ok?
    ensures notes[k].DisplayName(fs).Ok?
  {
    MatchingNotesStepRead(fs, notes, name);
    if k < |notes| - 1 {
      var init := notes[..|notes| - 1];
      MatchingNotesReadAt(fs, init, name, k);
      assert init[k] == notes[k];
    }
  }

  /** A successful filter keeps exactly the notes whose display names match. */
  lemma {:induction false} MatchingNotesMembers(fs: FileSystem, notes: seq<Note>, name: string)
    requires MatchingNotes(fs, notes, name).Ok?
    ensures forall n :: n in MatchingNotes(fs, notes, name).value <==>
      n in notes && n.DisplayName(fs).Ok? && NameMatches(n.DisplayName(fs).value, name)
  {
    if notes != [] {
      var init, last := notes[..|notes| - 1], notes[|notes| - 1];
      MatchingNotesStep(fs, notes, name);
      MatchingNotesMembers(fs, init, name);
      var acc := MatchingNotes(fs, init, name).value;
      var extra := if NameMatches(last.DisplayName(fs).value, name) then [last] else [];
      forall n
        ensures n in acc + extra <==> n in notes && n.DisplayName(fs).Ok? && NameMatches(n.DisplayName(fs).value, name)
      {
        InitAndLast(notes, n);
      }
    }
  }

  /** The notes that a search from `p` for `name` should find. */
  ghost predicate Found(fs: FileSystem, p: Path, n: Note, name: string) {
    && Reaches(fs, p, n)
    && n.DisplayName(fs).Ok?
    && NameMatches(n.DisplayName(fs).value, name)
  }

  /** Some folder of `subs` finds `n`. */
  ghost predicate FoundInSome(fs: FileSystem, subs: seq<Folder>, n: Note, name: string) {
    subs != [] &&
    (FoundInSome(fs, subs[..|subs| - 1], n, name) || Found(fs, subs[|subs| - 1].GetPath(), n, name))
  }

  /** A folder of `subs` that finds `n`, when some folder does. */
  lemma {:induction false} FoundInSomeWitness(fs: FileSystem, subs: seq<Folder>, n: Note, name: string) returns (k: nat)
    requires FoundInSome(fs, subs, n, name)
    ensures k < |subs| && Found(fs, subs[k].GetPath(), n, name)
  {
    var init := subs[..|subs| - 1];
    if Found(fs, subs[|subs| - 1].GetPath(), n, name) {
      k := |subs| - 1;
    } else {
      k := FoundInSomeWitness(fs, init, n, name);
      assert init[k] == subs[k];
    }
  }

  /** A note that one folder of `subs` finds is found by some folder of `subs`. */
  lemma {:induction false} FoundThroughMember(fs: FileSystem, subs: seq<Folder>, f: Folder, n: Note, name: string)
    requires f in subs && Found(fs, f.GetPath(), n, name)
    ensures FoundInSome(fs, subs, n, name)
  {
    if subs[|subs| - 1] != f {
      var init := subs[..|subs| - 1];
      assert f in init by {
        var k :| 0 <= k < |subs| && subs[k] == f;
        assert init[k] == f;
      }
      FoundThroughMember(fs, init, f, n, name);
    }
  }

  /** The results of the sub-folders are concatenated in order. */
  lemma NotesByNameInSnoc(fs: FileSystem, p: Path, subs: seq<Folder>, name: string)
    requires TreeShaped(fs) && p in fs
    requires forall k | 0 <= k < |subs| :: subs[k].path == p && ValidName(subs[k].name)
    requires subs != [] && NotesByNameIn(fs, p, subs, name).Ok?
    ensures NotesByNameIn(fs, p, subs[..|subs| - 1], name).Ok?
    ensures NotesByName(fs, subs[|subs| - 1], name).Ok?
    ensures NotesByNameIn(fs, p, subs, name).value ==
      NotesByNameIn(fs, p, subs[..|subs| - 1], name).value + NotesByName(fs, subs[|subs| - 1], name).value
  {
  }

  /** The traversal of the sub-folders `subs`: a note is found if some sub-folder finds it. */
  lemma {:induction false} NotesByNameInMembers(fs: FileSystem, p: Path, subs: seq<Folder>, name: string)
    requires TreeShaped(fs) && ListedExist(fs) && ExistListed(fs) && p in fs
    requires forall k | 0 <= k < |subs| :: subs[k].path == p && ValidName(subs[k].name)
    requires NotesByNameIn(fs, p, subs, name).Ok?
    ensures forall n :: n in NotesByNameIn(fs, p, subs, name).value <==> FoundInSome(fs, subs, n, name)
    decreases Below(fs, p), 0, |subs|
  {
    if subs != [] {
      var init, sub := subs[..|subs| - 1], subs[|subs| - 1];
      SubfoldersInit(p, subs, init);
      NotesByNameInSnoc(fs, p, subs, name);
      NotesByNameInMembers(fs, p, init, name);
      BelowShrinks(fs, p, sub.name);
      NotesByNameMembers(fs, sub, name);
      MembersSnoc(fs, subs, name, NotesByNameIn(fs, p, subs, name).value,
        NotesByNameIn(fs, p, init, name).value, NotesByName(fs, sub, name).value);
    }
  }

  lemma MembersSnoc(fs: FileSystem, subs: seq<Folder>, name: string, all: seq<Note>, before: seq<Note>, last: seq<Note>)
    requires subs != [] && all == before + last
    requires forall n :: n in before <==> FoundInSome(fs, subs[..|subs| - 1], n, name)
    requires forall n :: n in last <==> Found(fs, subs[|subs| - 1].GetPath(), n, name)
    ensures forall n :: n in all <==> FoundInSome(fs, subs, n, name)
  {
    forall n
      ensures n in all <==> FoundInSome(fs, subs, n, name)
    {
      assert n in all <==> n in before || n in last;
    }
  }

  /**
   * On a consistent tree, a successful search from `folder` returns exactly the
   * notes in it or below it through visible sub-folders whose display names,
   * lower-cased, contain `name`.
   */
  lemma {:induction false} NotesByNameMembers(fs: FileSystem, folder: Folder, name: string)
    requires TreeShaped(fs) && ListedExist(fs) && ExistListed(fs)
    requires NotesByName(fs, folder, name).Ok?
    ensures forall n :: n in NotesByName(fs, folder, name).value <==> Found(fs, folder.GetPath(), n, name)
    decreases Below(fs, folder.GetPath()), 1, 0
  {
    var p := folder.GetPath();
    var entries := ListSpec(fs, folder).value;
    ListedEntriesShape(fs, folder);
    FoundHere(fs, folder, name);
    NotesByNameInMembers(fs, p, entries.folders, name);
    forall n
      ensures FoundInSome(fs, entries.folders, n, name) <==> p < n.path && Found(fs, p, n, name)
    {
      FoundBelow(fs, folder, name, n);
    }
  }

  /** The notes of the folder itself that the search keeps are the ones found at its own level. */
  lemma FoundHere(fs: FileSystem, folder: Folder, name: string)
    requires TreeShaped(fs) && ListedExist(fs) && ExistListed(fs)
    requires ListSpec(fs, folder).Ok?
    requires MatchingNotes(fs, ListSpec(fs, folder).value.notes, name).Ok?
    ensures forall n :: n in MatchingNotes(fs, ListSpec(fs, folder).value.notes, name).value <==>
      n.path == folder.GetPath() && Found(fs, folder.GetPath(), n, name)
  {
    ReachedHere(fs, folder);
    MatchingNotesMembers(fs, ListSpec(fs, folder).value.notes, name);
  }

  /** A note deeper than the folder is found from the folder exactly when one of its sub-folders finds it. */
  lemma FoundBelow(fs: FileSystem, folder: Folder, name: string, n: Note)
    requires TreeShaped(fs) && ListedExist(fs) && ExistListed(fs)
    requires ListSpec(fs, folder).Ok?
    ensures FoundInSome(fs, ListSpec(fs, folder).value.folders, n, name)
        <==> folder.GetPath() < n.path && Found(fs, folder.GetPath(), n, name)
  {
    var p := folder.GetPath();
    var subs := ListSpec(fs, folder).value.folders;
    if FoundInSome(fs, subs, n, name) {
      var k := FoundInSomeWitness(fs, subs, n, name);
      ReachedFromSubfolder(fs, folder, k, n);
    }
    if p < n.path && Found(fs, p, n, name) {
      var k := ReachedThroughSubfolder(fs, folder, n);
      FoundThroughMember(fs, subs, subs[k], n, name);
    }
  }

  /**
   * The matches in the folder itself come first, in listing order; every match
   * after them lies in a sub-folder.
   */
  lemma HereFirst(fs: FileSystem, folder: Folder, name: string)
    requires TreeShaped(fs) && ListedExist(fs) && ExistListed(fs)
    requires NotesByName(fs, folder, name).Ok?
    ensures ListSpec(fs, folder).Ok? && MatchingNotes(fs, ListSpec(fs, folder).value.notes, name).Ok?
    ensures var here, all := MatchingNotes(fs, ListSpec(fs, folder).value.notes, name).value, NotesByName(fs, folder, name).value;
      && here <= all
      && (forall k | 0 <= k < |here| :: all[k].path == folder.GetPath())
      && (forall k | |here| <= k < |all| :: folder.GetPath() < all[k].path)
  {
    var p := folder.GetPath();
    var entries := ListSpec(fs, folder).value;
    NotesByNameParts(fs, folder, name);
    var here := MatchingNotes(fs, entries.notes, name).value;
    var below := NotesByNameIn(fs, p, entries.folders, name).value;
    assert forall k | 0 <= k < |here| :: here[k].path == p by {
      FoundHere(fs, folder, name);
      forall k | 0 <= k < |here|
        ensures here[k].path == p
      {
        assert here[k] in here;
      }
    }
    assert forall k | 0 <= k < |below| :: p < below[k].path by {
      NotesByNameInMembers(fs, p, entries.folders, name);
      FoundBelowIsDeeper(fs, folder, name, below);
    }
    JoinByPath(here, below, p);
  }

  /** Notes that some sub-folder finds lie strictly below the folder. */
  lemma FoundBelowIsDeeper(fs: FileSystem, folder: Folder, name: string, below: seq<Note>)
    requires TreeShaped(fs) && ListedExist(fs) && ExistListed(fs)
    requires ListSpec(fs, folder).Ok?
    requires forall n :: n in below <==> FoundInSome(fs, ListSpec(fs, folder).value.folders, n, name)
    ensures forall k | 0 <= k < |below| :: folder.GetPath() < below[k].path
  {
    forall k | 0 <= k < |below|
      ensures folder.GetPath() < below[k].path
    {
      assert below[k] in below;
      FoundBelow(fs, folder, name, below[k]);
    }
  }

  /** Notes in `p` followed by notes below `p`: positions tell them apart. */
  lemma JoinByPath(here: seq<Note>, below: seq<Note>, p: Path)
    requires forall k | 0 <= k < |here| :: here[k].path == p
    requires forall k | 0 <= k < |below| :: p < below[k].path
    ensures here <= here + below
    ensures forall k | 0 <= k < |here| :: (here + below)[k].path == p
    ensures forall k | |here| <= k < |here + below| :: p < (here + below)[k].path
  {
    forall k | |here| <= k < |here + below|
      ensures p < (here + below)[k].path
    {
      assert (here + below)[k] == below[k - |here|];
    }
  }

  /** Two sequences without repeats, sharing nothing, make one without repeats. */
  lemma AppendUnique<T>(a: seq<T>, b: seq<T>)
    requires NoDuplicates(a) && NoDuplicates(b)
    requires forall x | x in a :: x !in b
    ensures NoDuplicates(a + b)
  {
    forall i, j | 0 <= i < j < |a + b|
      ensures (a + b)[i] != (a + b)[j]
    {
      if i < |a| && |a| <= j {
        assert (a + b)[i] == a[i] && (a + b)[j] == b[j - |a|];
        assert a[i] in a;
      }
    }
  }

  /** Notes directly in `p` are not among notes strictly below it. */
  lemma SeparatedByPath(here: seq<Note>, below: seq<Note>, p: Path)
    requires forall k | 0 <= k < |here| :: here[k].path == p
    requires forall k | 0 <= k < |below| :: p < below[k].path
    ensures forall x | x in here :: x !in below
  {
  }

  /** The filter keeps a note at most once when the listing names it once. */
  lemma {:induction false} MatchingNotesUnique(fs: FileSystem, notes: seq<Note>, name: string)
    requires NoDuplicates(notes) && MatchingNotes(fs, notes, name).Ok?
    ensures NoDuplicates(MatchingNotes(fs, notes, name).value)
  {
    if notes != [] {
      var init, last := notes[..|notes| - 1], notes[|notes| - 1];
      MatchingNotesStep(fs, notes, name);
      forall i, j | 0 <= i < j < |init|
        ensures init[i] != init[j]
      {
        assert init[i] == notes[i] && init[j] == notes[j];
      }
      MatchingNotesUnique(fs, init, name);
      MatchingNotesMembers(fs, init, name);
      forall i | 0 <= i < |init|
        ensures init[i] != last
      {
        assert init[i] == notes[i];
      }
      AppendUnique(MatchingNotes(fs, init, name).value,
        if NameMatches(last.DisplayName(fs).value, name) then [last] else []);
    }
  }

  /** Sibling folders that both find a note are the same folder. */
  lemma FoundUnderOne(fs: FileSystem, f: Folder, g: Folder, n: Note, name: string)
    requires f.path == g.path && ValidName(f.name) && ValidName(g.name)
    requires Found(fs, f.GetPath(), n, name) && Found(fs, g.GetPath(), n, name)
    ensures f.name == g.name
  {
    assert f.GetPath() <= n.path && g.GetPath() <= n.path;
    assert n.path[|f.path|] == f.GetPath()[|f.path|] == f.name;
    assert n.path[|g.path|] == g.GetPath()[|g.path|] == g.name;
  }

  /** The search returns each note it finds once. */
  lemma {:induction false} NotesByNameUnique(fs: FileSystem, folder: Folder, name: string)
    requires TreeShaped(fs) && ListedExist(fs) && ExistListed(fs)
    requires NotesByName(fs, folder, name).Ok?
    ensures NoDuplicates(NotesByName(fs, folder, name).value)
    decreases Below(fs, folder.GetPath()), 1, 0
  {
    var entries := ListSpec(fs, folder).value;
    NotesByNameParts(fs, folder, name);
    var here := MatchingNotes(fs, entries.notes, name).value;
    var below := NotesByNameIn(fs, folder.GetPath(), entries.folders, name).value;
    assert NoDuplicates(here) by {
      MatchingNotesUnique(fs, entries.notes, name);
    }
    assert NoDuplicates(below) by {
      NotesByNameInUnique(fs, folder.GetPath(), entries.folders, name);
    }
    assert forall x | x in here :: x !in below by {
      HereFirst(fs, folder, name);
      SplitByPath(here, below, folder.GetPath());
    }
    AppendUnique(here, below);
  }

  /** A successful search: its listing, the filter of its notes and the traversal of its sub-folders. */
  lemma NotesByNameParts(fs: FileSystem, folder: Folder, name: string)
    requires TreeShaped(fs) && NotesByName(fs, folder, name).Ok?
    ensures ListSpec(fs, folder).Ok? && folder.GetPath() in fs
    ensures var subs := ListSpec(fs, folder).value.folders;
      && (forall k | 0 <= k < |subs| :: subs[k].path == folder.GetPath() && ValidName(subs[k].name))
      && (forall i, j | 0 <= i < j < |subs| :: subs[i].name != subs[j].name)
    ensures NoDuplicates(ListSpec(fs, folder).value.notes)
    ensures var e := ListSpec(fs, folder).value;
      && MatchingNotes(fs, e.notes, name).Ok?
      && NotesByNameIn(fs, folder.GetPath(), e.folders, name).Ok?
      && NotesByName(fs, folder, name).value
        == MatchingNotes(fs, e.notes, name).value + NotesByNameIn(fs, folder.GetPath(), e.folders, name).value
  {
    ListedEntriesShape(fs, folder);
    ListedUnique(fs, folder);
  }

  /** In a sequence whose first notes sit in `p` and whose later ones lie below it, the two parts share nothing. */
  lemma SplitByPath(here: seq<Note>, below: seq<Note>, p: Path)
    requires forall k | 0 <= k < |here| :: (here + below)[k].path == p
    requires forall k | |here| <= k < |here + below| :: p < (here + below)[k].path
    ensures forall x | x in here :: x !in below
  {
    forall k | 0 <= k < |here|
      ensures here[k].path == p
    {
      assert (here + below)[k] == here[k];
    }
    forall k | 0 <= k < |below|
      ensures p < below[k].path
    {
      assert (here + below)[|here| + k] == below[k];
    }
    SeparatedByPath(here, below, p);
  }

  /** The traversal of sibling sub-folders with distinct names returns each note once. */
  lemma {:induction false} NotesByNameInUnique(fs: FileSystem, p: Path, subs: seq<Folder>, name: string)
    requires TreeShaped(fs) && ListedExist(fs) && ExistListed(fs) && p in fs
    requires forall k | 0 <= k < |subs| :: subs[k].path == p && ValidName(subs[k].name)
    requires forall i, j | 0 <= i < j < |subs| :: subs[i].name != subs[j].name
    requires NotesByNameIn(fs, p, subs, name).Ok?
    ensures NoDuplicates(NotesByNameIn(fs, p, subs, name).value)
    decreases Below(fs, p), 0, |subs|
  {
    if subs != [] {
      var init, sub := subs[..|subs| - 1], subs[|subs| - 1];
      SubfoldersInit(p, subs, init);
      NotesByNameInSnoc(fs, p, subs, name);
      assert forall k | 0 <= k < |init| :: init[k].path == p && ValidName(init[k].name) && init[k].name != sub.name by {
        forall k | 0 <= k < |init|
          ensures init[k].path == p && ValidName(init[k].name) && init[k].name != sub.name
        {
          assert init[k] == subs[k];
        }
      }
      var acc, found := NotesByNameIn(fs, p, init, name).value, NotesByName(fs, sub, name).value;
      assert NoDuplicates(acc) by {
        forall i, j | 0 <= i < j < |init|
          ensures init[i].name != init[j].name
        {
          assert init[i] == subs[i] && init[j] == subs[j];
        }
        NotesByNameInUnique(fs, p, init, name);
      }
      assert NoDuplicates(found) by {
        BelowShrinks(fs, p, sub.name);
        NotesByNameUnique(fs, sub, name);
      }
      assert forall x | x in acc :: x !in found by {
        SiblingsApart(fs, p, init, sub, name);
      }
      AppendUnique(acc, found);
    }
  }

  /** What the earlier sub-folders find, a later one with another name does not. */
  lemma SiblingsApart(fs: FileSystem, p: Path, init: seq<Folder>, sub: Folder, name: string)
    requires TreeShaped(fs) && ListedExist(fs) && ExistListed(fs) && p in fs
    requires forall k | 0 <= k < |init| :: init[k].path == p && ValidName(init[k].name) && init[k].name != sub.name
    requires sub.path == p && ValidName(sub.name)
    requires NotesByNameIn(fs, p, init, name).Ok? && NotesByName(fs, sub, name).Ok?
    ensures forall x | x in NotesByNameIn(fs, p, init, name).value :: x !in NotesByName(fs, sub, name).value
  {
    NotesByNameInMembers(fs, p, init, name);
    NotesByNameMembers(fs, sub, name);
    SiblingsFindDifferentNotes(fs, init, sub, name,
      NotesByNameIn(fs, p, init, name).value, NotesByName(fs, sub, name).value);
  }

  /** What earlier sibling folders find, a later sibling with another name does not. */
  lemma SiblingsFindDifferentNotes(fs: FileSystem, init: seq<Folder>, sub: Folder, name: string, acc: seq<Note>, found: seq<Note>)
    requires ValidName(sub.name)
    requires forall k | 0 <= k < |init| :: init[k].path == sub.path && ValidName(init[k].name) && init[k].name != sub.name
    requires forall x :: x in acc <==> FoundInSome(fs, init, x, name)
    requires forall x :: x in found <==> Found(fs, sub.GetPath(), x, name)
    ensures forall x | x in acc :: x !in found
  {
    forall x | x in acc
      ensures x !in found
    {
      var k := FoundInSomeWitness(fs, init, x, name);
      if x in found {
        FoundUnderOne(fs, init[k], sub, x, name);
      }
    }
  }

  /** The first loop of `get_notes_by_name`: keeps the notes whose display names match, in order. */
  method FilterByName(fs: FileSystem, notes: seq<Note>, name: string) returns (r: Result<seq<Note>, NoteError>)
    ensures r == MatchingNotes(fs, notes, name)
  {
    var matching: seq<Note> := [];
    for i := 0 to |notes|
      invariant MatchingNotes(fs, notes[..i], name) == Ok(matching)
    {
      var note := notes[i];
      assert notes[..i + 1][..i] == notes[..i];
      var displayName := GetName(fs, note);
      if displayName.Err? {
        MatchingNotesErrorStays(fs, notes, name, i + 1);
        return Err(displayName.error);
      }
      if NameMatches(displayName.value, name) {
        matching := matching + [note];
      }
    }
    assert notes[..|notes|] == notes;
    return Ok(matching);
  }

  /** `Folder::get_notes_by_name`: lists the folder, filters its notes, then recurses into each sub-folder. */
  method GetNotesByName(fs: FileSystem, folder: Folder, name: string) returns (r: Result<seq<Note>, GetNotesByNameError>)
    requires TreeShaped(fs)
    ensures r == NotesByName(fs, folder, name)
    decreases Below(fs, folder.GetPath()), 1
  {
    var listed := List(fs, folder);
    if listed.Err? {
      return Err(ListFolder(listed.error));
    }
    var entries := listed.value;
    ListedEntriesShape(fs, folder);
    var here := FilterByName(fs, entries.notes, name);
    if here.Err? {
      return Err(NoteReadFailure(here.error));
    }
    var below := SearchSubfolders(fs, folder.GetPath(), entries.folders, name);
    if below.Err? {
      return below;
    }
    return Ok(here.value + below.value);
  }

  /** The second loop of `get_notes_by_name`: appends the results of each sub-folder in turn. */
  method SearchSubfolders(fs: FileSystem, p: Path, subs: seq<Folder>, name: string)
    returns (r: Result<seq<Note>, GetNotesByNameError>)
    requires TreeShaped(fs) && p in fs
    requires forall k | 0 <= k < |subs| :: subs[k].path == p && ValidName(subs[k].name)
    ensures r == NotesByNameIn(fs, p, subs, name)
    decreases Below(fs, p), 0
  {
    var matching: seq<Note> := [];
    for i := 0 to |subs|
      invariant NotesByNameIn(fs, p, subs[..i], name) == Ok(matching)
    {
      var sub := subs[i];
      assert subs[..i + 1][..i] == subs[..i];
      BelowShrinks(fs, p, sub.name);
      var found := GetNotesByName(fs, sub, name);
      if found.Err? {
        NotesByNameInErrorStays(fs, p, subs, name, i + 1);
        return found;
      }
      matching := matching + found.value;
    }
    assert subs[..|subs|] == subs;
    return Ok(matching);
  }
}
