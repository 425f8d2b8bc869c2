/**
 * The string operations of Rust's standard library that the notebook engine uses:
 * `starts_with`, `trim`, `to_lowercase` (ASCII letters only), `contains`, `find`,
 * `replace` and `join`. Strings are sequences of Unicode scalar values; byte
 * offsets of the Rust code are character offsets here.
 */
module Text {
  import opened Wrappers

  predicate StartsWith(s: string, prefix: string) {
    |prefix| <= |s| && s[..|prefix|] == prefix
  }

  /** Rust's `char::is_whitespace`: the Unicode White_Space property. */
  predicate IsWhitespace(c: char) {
    || ('\t' <= c <= '\r') || c == ' ' || c == '\U{85}' || c == '\U{A0}' || c == '\U{1680}'
    || ('\U{2000}' <= c <= '\U{200A}') || c == '\U{2028}' || c == '\U{2029}'
    || c == '\U{202F}' || c == '\U{205F}' || c == '\U{3000}'
  }

  function TrimStart(s: string): (r: string)
    ensures |r| <= |s| && r == s[|s| - |r|..]
    ensures r == [] || !IsWhitespace(r[0])
    ensures forall i | 0 <= i < |s| - |r| :: IsWhitespace(s[i])
  {
    if s != [] && IsWhitespace(s[0]) then TrimStart(s[1..]) else s
  }

  function TrimEnd(s: string): (r: string)
    ensures |r| <= |s| && r == s[..|r|]
    ensures r == [] || !IsWhitespace(r[|r| - 1])
    ensures forall i | |r| <= i < |s| :: IsWhitespace(s[i])
  {
    if s != [] && IsWhitespace(s[|s| - 1]) then TrimEnd(s[..|s| - 1]) else s
  }

  /** Rust's `str::trim`: drops leading and trailing whitespace. */
  function Trim(s: string): (r: string)
  {
    TrimEnd(TrimStart(s))
  }

  /** A trimmed string neither starts nor ends with whitespace, and trimming it again changes nothing. */
  lemma TrimmedHasNoEdgeWhitespace(s: string)
    ensures var r := Trim(s);
      (r == [] || (!IsWhitespace(r[0]) && !IsWhitespace(r[|r| - 1]))) && Trim(r) == r
  {
    var a := TrimStart(s);
    var r := TrimEnd(a);
    if r != [] {
      assert r[0] == a[0];
    }
  }

  /** The ASCII case mapping of `char::to_lowercase`; every other character maps to itself. */
  function LowerChar(c: char): char {
    if 'A' <= c <= 'Z' then (c as int + 32) as char else c
  }

  predicate IsUpper(c: char) {
    'A' <= c <= 'Z'
  }

  /** `str::to_lowercase`, restricted to ASCII letters; it keeps the length. */
  function Lower(s: string): (r: string)
    ensures |r| == |s|
  {
    if s == [] then [] else [LowerChar(s[0])] + Lower(s[1..])
  }

  /** Lower-casing maps each character on its own. */
  lemma {:induction false} LowerAt(s: string, k: nat)
    requires k < |s|
    ensures Lower(s)[k] == LowerChar(s[k])
  {
    if k > 0 {
      LowerAt(s[1..], k - 1);
    }
  }

  /** Lower-casing commutes with slicing: `w` is the slice `s[i..j]`, given by name. */
  lemma LowerOfSlice(s: string, i: nat, j: nat, w: string)
    requires i <= j <= |s| && w == s[i..j]
    ensures Lower(w) == Lower(s)[i..j]
  {
    var a, b := Lower(w), Lower(s)[i..j];
    forall k | 0 <= k < |a|
      ensures a[k] == b[k]
    {
      LowerAt(w, k);
      LowerAt(s, i + k);
    }
  }

  /** Lower-casing twice is lower-casing once. */
  lemma LowerIdempotent(s: string)
    ensures Lower(Lower(s)) == Lower(s)
  {
    var a, b := Lower(Lower(s)), Lower(s);
    forall k | 0 <= k < |a|
      ensures a[k] == b[k]
    {
      LowerAt(s, k);
      LowerAt(Lower(s), k);
    }
  }

  /** `t` occurs in `s` at character offset `i`. */
  predicate OccursAt(s: string, t: string, i: nat) {
    i + |t| <= |s| && s[i..i + |t|] == t
  }

  /** `str::contains`. */
  predicate Contains(s: string, t: string) {
    exists i: nat | i <= |s| :: OccursAt(s, t, i)
  }

  /** `str::find`: the first offset at which `t` occurs in `s`, if any. */
  function Find(s: string, t: string): (r: Option<nat>)
    ensures r.Some? <==> Contains(s, t)
    ensures r.Some? ==> OccursAt(s, t, r.value)
    ensures r.Some? ==> forall j: nat | j < r.value :: !OccursAt(s, t, j)
  {
    FindFrom(s, t, 0)
  }

  /** The first offset at or after `i` at which `t` occurs in `s`, if any. */
  function FindFrom(s: string, t: string, i: nat): (r: Option<nat>)
    ensures r.Some? ==> i <= r.value && OccursAt(s, t, r.value)
    ensures r.Some? ==> forall j: nat | i <= j < r.value :: !OccursAt(s, t, j)
    ensures r.None? ==> forall j: nat | i <= j :: !OccursAt(s, t, j)
    decreases |s| - i
  {
    if i + |t| > |s| then None
    else if s[i..i + |t|] == t then Some(i)
    else FindFrom(s, t, i + 1)
  }

  /**
   * `str::replace(from, to)`: every non-overlapping occurrence of `from`, found
   * left to right, is replaced by `to`. An empty `from` matches at every
   * character boundary, so `to` is inserted before each character and at the end.
   */
  function Replace(s: string, from: string, to: string): string {
    if from == [] then Interleave(s, to) else ReplaceFrom(s, from, to, 0)
  }

  /** `to` before each character of `s` and once more at the end. */
  function Interleave(s: string, to: string): string {
    if s == [] then to else to + ([s[0]] + Interleave(s[1..], to))
  }

  /**
   * The loop of `str::replace` from `last_end = start`: copies the text up to
   * the next match, writes `to`, and continues after the match.
   */
  function ReplaceFrom(s: string, from: string, to: string, start: nat): string
    requires from != [] && start <= |s|
    decreases |s| - start
  {
    match FindFrom(s, from, start)
    case None => s[start..]
    case Some(i) => s[start..i] + (to + ReplaceFrom(s, from, to, i + |from|))
  }

  /**
   * When `from` occurs at `i` and nowhere before, `replace` keeps `s[..i]` as it
   * is, puts `to` in place of that first occurrence and carries on after it.
   */
  lemma ReplaceFirstOccurrence(s: string, from: string, to: string, i: nat)
    requires from != []
    requires OccursAt(s, from, i)
    requires forall j: nat | j < i :: !OccursAt(s, from, j)
    ensures Replace(s, from, to) == s[..i] + (to + ReplaceFrom(s, from, to, i + |from|))
  {
    var r := FindFrom(s, from, 0);
    assert r.Some?;
    assert !(r.value < i) && !(i < r.value);
  }

  /** Where `from` does not occur, `replace` changes nothing. */
  lemma ReplaceWithoutOccurrence(s: string, from: string, to: string)
    requires from != [] && !Contains(s, from)
    ensures Replace(s, from, to) == s
  {
    assert s[0..] == s;
  }

  /** `[String]::join(sep)`. */
  function Join(parts: seq<string>, sep: string): string {
    if parts == [] then ""
    else if |parts| == 1 then parts[0]
    else parts[0] + sep + Join(parts[1..], sep)
  }
}
