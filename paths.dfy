/**
 * Paths as Rust's `std::path` sees them on Unix: a path is compared, pushed and
 * popped component by component. `Path` is an absolute path given by its
 * components, the root `/` being `[]`; relative paths are not represented. Components are not resolved: `..` stays a
 * component of its own, as it does in `Path::components`.
 */
module Paths {
  import opened Wrappers
  import opened Text

  type Path = seq<string>

  /** A file name as `read_dir` reports it: one non-empty component other than `.` and `..`. */
  predicate ValidName(c: string) {
    c != "" && c != "." && c != ".." && '/' !in c
  }

  /** A component as `Path::components` yields it inside a path; unlike a file name it may be `..`. */
  predicate IsComponent(c: string) {
    c != "" && c != "." && '/' !in c
  }

  /** A path whose components are all proper components. */
  predicate ValidPath(p: Path) {
    forall k | 0 <= k < |p| :: IsComponent(p[k])
  }

  /** The pieces of `s` between its `/` separators: `"a//b/"` gives `["a", "", "b", ""]`. */
  function Pieces(s: string): (r: seq<string>)
    ensures |r| >= 1
  {
    if s == [] then [""]
    else
      var rest := Pieces(s[1..]);
      if s[0] == '/' then [""] + rest
      else [[s[0]] + rest[0]] + rest[1..]
  }

  /** Drops the empty and the `.` pieces, as `Path::components` does inside a path. */
  function Normal(ps: seq<string>): seq<string> {
    if ps == [] then []
    else (if ps[0] == "" || ps[0] == "." then [] else [ps[0]]) + Normal(ps[1..])
  }

  /** The components that `s` adds when it is pushed onto a non-empty path. */
  function Components(s: string): Path {
    Normal(Pieces(s))
  }

  /** No piece holds a separator. */
  lemma {:induction false} PiecesHaveNoSeparator(s: string)
    ensures forall k | 0 <= k < |Pieces(s)| :: '/' !in Pieces(s)[k]
  {
    if s != [] {
      PiecesHaveNoSeparator(s[1..]);
      var rest := Pieces(s[1..]);
      if s[0] != '/' {
        assert '/' !in [s[0]] + rest[0];
      }
    }
  }

  /** Normalising keeps some of the pieces, never an empty one or a `.`. */
  lemma {:induction false} NormalKeepsProperPieces(ps: seq<string>)
    ensures forall k | 0 <= k < |Normal(ps)| :: Normal(ps)[k] != "" && Normal(ps)[k] != "." && Normal(ps)[k] in ps
  {
    if ps != [] {
      NormalKeepsProperPieces(ps[1..]);
    }
  }

  /** The components of a string are proper components. */
  lemma ComponentsAreProper(s: string)
    ensures forall k | 0 <= k < |Components(s)| :: IsComponent(Components(s)[k])
  {
    PiecesHaveNoSeparator(s);
    NormalKeepsProperPieces(Pieces(s));
  }

  /** `PathBuf::push(s)`: an absolute `s` replaces the path, a relative one is appended to it. */
  function Push(base: Path, s: string): Path {
    if StartsWith(s, "/") then Components(s) else base + Components(s)
  }

  /** `Path::file_name`: the last component, unless the path is the root or ends in `..`. */
  function FileName(p: Path): Option<string> {
    if p != [] && p[|p| - 1] != ".." then Some(p[|p| - 1]) else None
  }

  /** `PathBuf::pop`: drops the last component; the root stays the root. */
  function Pop(p: Path): Path {
    if p == [] then [] else p[..|p| - 1]
  }

  /** A path other than the root is its parent followed by its last component. */
  lemma PopLast(q: Path)
    requires q != []
    ensures q == Pop(q) + [q[|q| - 1]]
  {
  }

  lemma {:induction false} PiecesOfPiece(a: string)
    requires '/' !in a
    ensures Pieces(a) == [a]
  {
    if a != [] {
      assert a[0] in a;
      PiecesOfPiece(a[1..]);
      assert [a[0]] + a[1..] == a;
    }
  }

  lemma {:induction false} PiecesOfSeparated(a: string, b: string)
    requires '/' !in a
    ensures Pieces(a + "/" + b) == [a] + Pieces(b)
  {
    if a == [] {
      assert ("/" + b)[1..] == b;
    } else {
      assert (a + "/" + b)[1..] == a[1..] + "/" + b;
      PiecesOfSeparated(a[1..], b);
      assert [a[0]] + a[1..] == a;
    }
  }

  /** Pushing keeps a path valid, and its file name, if any, is a file name. */
  lemma PushValid(base: Path, s: string)
    ensures ValidPath(base) ==> ValidPath(Push(base, s))
    ensures ValidPath(base) && FileName(Push(base, s)).Some? ==> ValidName(FileName(Push(base, s)).value)
  {
    ComponentsAreProper(s);
  }

  /** Pushing a single file name appends exactly that component. */
  lemma PushName(base: Path, c: string)
    requires ValidName(c)
    ensures Push(base, c) == base + [c]
  {
    assert c[0] in c;
    PiecesOfPiece(c);
    assert Normal([c]) == [c] + Normal([]);
  }

  /** Pushing `.` leaves the path as it is: `Folder::new(p, ".")` denotes `p` itself. */
  lemma PushDot(base: Path)
    ensures Push(base, ".") == base
  {
    PiecesOfPiece(".");
    assert Normal(["."]) == [] + Normal([]);
  }

  /** What `get_path` gives for a handle named by one file name, or by `.`. */
  lemma PushOne(base: Path, s: string)
    ensures ValidName(s) ==> Push(base, s) == base + [s]
    ensures s == "." ==> Push(base, s) == base
  {
    if ValidName(s) {
      PushName(base, s);
    }
    if s == "." {
      PushDot(base);
    }
  }

  lemma {:induction false} PiecesOfJoin(cs: seq<string>)
    requires cs != []
    requires forall k | 0 <= k < |cs| :: '/' !in cs[k]
    ensures Pieces(Join(cs, "/")) == cs
  {
    if |cs| == 1 {
      PiecesOfPiece(cs[0]);
    } else {
      PiecesOfJoin(cs[1..]);
      PiecesOfSeparated(cs[0], Join(cs[1..], "/"));
    }
  }

  lemma {:induction false} NormalOfNames(cs: seq<string>)
    requires forall k | 0 <= k < |cs| :: ValidName(cs[k])
    ensures Normal(cs) == cs
  {
    if cs != [] {
      NormalOfNames(cs[1..]);
    }
  }

  /** Joining file names with `/` and reading the result back as a path gives the same names. */
  lemma ComponentsOfJoin(cs: seq<string>)
    requires forall k | 0 <= k < |cs| :: ValidName(cs[k])
    ensures Components(Join(cs, "/")) == cs
  {
    if cs != [] {
      PiecesOfJoin(cs);
      NormalOfNames(cs);
    }
  }
}
