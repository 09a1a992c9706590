/**
 * Literal substring replacement with the semantics of Python's `str.replace`
 * (scan left to right, replace every non-overlapping occurrence, never rescan
 * the inserted text), and the ASCII case mapping used for `str.lower` and
 * `str.upper`.
 */
module Text {

  // ---------------------------------------------------------------------------
  // Occurrences of a pattern
  // ---------------------------------------------------------------------------

  /** `p` occurs in `s` starting at index `i`. */
  ghost predicate OccursAt(s: string, p: string, i: int) {
    0 <= i && i + |p| <= |s| && s[i..i + |p|] == p
  }

  /** `p` occurs somewhere in `s`. */
  ghost predicate Contains(s: string, p: string) {
    exists i :: OccursAt(s, p, i)
  }

  /** `i` is the leftmost occurrence of `p` in `s`. */
  ghost predicate Leftmost(s: string, p: string, i: int) {
    OccursAt(s, p, i) && forall j :: 0 <= j < i ==> !OccursAt(s, p, j)
  }

  /** `s` begins with `p`. */
  predicate StartsWith(s: string, p: string) {
    |p| <= |s| && s[..|p|] == p
  }

  // ---------------------------------------------------------------------------
  // str.replace
  // ---------------------------------------------------------------------------

  /**
   * `s.replace(pat, rep)`. With an empty pattern Python inserts `rep` before
   * every character and at the end; otherwise a match at the front is replaced
   * and the scan resumes after it, and a mismatch keeps one character.
   */
  function ReplaceAll(s: string, pat: string, rep: string): string
    decreases |s|
  {
    if pat == [] then
      if s == [] then rep else rep + [s[0]] + ReplaceAll(s[1..], pat, rep)
    else if StartsWith(s, pat) then rep + ReplaceAll(s[|pat|..], pat, rep)
    else if s == [] then s
    else [s[0]] + ReplaceAll(s[1..], pat, rep)
  }

  /** Occurrences in a suffix are occurrences in the whole string, shifted. */
  lemma OccursInSuffix(s: string, p: string, d: int, j: int)
    requires 0 <= d <= |s| && 0 <= j
    ensures OccursAt(s[d..], p, j) <==> OccursAt(s, p, j + d)
  {
    if j + |p| <= |s| - d {
      assert s[d..][j..j + |p|] == s[j + d..j + d + |p|];
    }
  }

  /** Text in which the pattern does not occur is returned unchanged. */
  lemma {:induction false} ReplaceAbsent(s: string, p: string, r: string)
    requires p != [] && !Contains(s, p)
    ensures ReplaceAll(s, p, r) == s
    decreases |s|
  {
    if s != [] {
      if StartsWith(s, p) {
        assert OccursAt(s, p, 0);
        assert false;
      }
      forall j | OccursAt(s[1..], p, j) ensures false {
        OccursInSuffix(s, p, 1, j);
      }
      ReplaceAbsent(s[1..], p, r);
      assert s == [s[0]] + s[1..];
    }
  }

  /** Replacing the pattern by itself changes nothing. */
  lemma {:induction false} ReplaceWithItself(s: string, p: string)
    requires p != []
    ensures ReplaceAll(s, p, p) == s
    decreases |s|
  {
    if StartsWith(s, p) {
      ReplaceWithItself(s[|p|..], p);
      assert s == s[..|p|] + s[|p|..];
    } else if s != [] {
      ReplaceWithItself(s[1..], p);
      assert s == [s[0]] + s[1..];
    }
  }

  /** Concatenation is associative (a proof step for the solver). */
  lemma Associate(x: string, y: string, z: string)
    ensures x + y + z == x + (y + z)
  {
  }

  /** Without a match at the front, the first character is kept and the scan moves on. */
  lemma ReplaceStep(s: string, p: string, r: string)
    requires p != [] && s != [] && !OccursAt(s, p, 0)
    ensures ReplaceAll(s, p, r) == [s[0]] + ReplaceAll(s[1..], p, r)
  {
    if StartsWith(s, p) {
      assert OccursAt(s, p, 0);
    }
  }

  /**
   * A prefix in which no occurrence of the pattern begins is copied verbatim,
   * and the scan then resumes exactly at the end of that prefix.
   */
  lemma {:induction false} ReplaceSkip(a: string, b: string, p: string, r: string)
    requires p != []
    requires forall i :: 0 <= i < |a| ==> !OccursAt(a + b, p, i)
    ensures ReplaceAll(a + b, p, r) == a + ReplaceAll(b, p, r)
    decreases |a|
  {
    if a == [] {
      assert a + b == b;
    } else {
      var s, a' := a + b, a[1..];
      assert !OccursAt(s, p, 0);
      ReplaceStep(s, p, r);
      NoEarlyMatchInTail(a, b, p);
      ReplaceSkip(a', b, p, r);
      assert a == [a[0]] + a';
      Associate([a[0]], a', ReplaceAll(b, p, r));
    }
  }

  /** Dropping the first character of a match-free prefix leaves a match-free prefix. */
  lemma NoEarlyMatchInTail(a: string, b: string, p: string)
    requires a != []
    requires forall i :: 0 <= i < |a| ==> !OccursAt(a + b, p, i)
    ensures (a + b)[1..] == a[1..] + b && (a + b)[0] == a[0]
    ensures forall i :: 0 <= i < |a[1..]| ==> !OccursAt(a[1..] + b, p, i)
  {
    var s := a + b;
    assert s[1..] == a[1..] + b;
    forall i | 0 <= i < |a[1..]| ensures !OccursAt(a[1..] + b, p, i) {
      OccursInSuffix(s, p, 1, i);
    }
  }

  /**
   * Left-to-right, non-overlapping replacement: the text before the leftmost
   * occurrence is kept, the occurrence becomes `r` (which is not scanned
   * again), and the rest is processed from just after the occurrence.
   */
  lemma ReplaceLeftmost(s: string, p: string, r: string, i: int)
    requires p != [] && Leftmost(s, p, i)
    ensures ReplaceAll(s, p, r) == s[..i] + r + ReplaceAll(s[i + |p|..], p, r)
  {
    var a, rest := s[..i], s[i + |p|..];
    SplitAtMatch(s, p, i);
    forall j | 0 <= j < |a| ensures !OccursAt(a + (p + rest), p, j) {
      assert !OccursAt(s, p, j);
    }
    ReplaceSkip(a, p + rest, p, r);
    ReplaceFront(p, rest, r);
    Associate(a, r, ReplaceAll(rest, p, r));
  }

  /** A string splits around an occurrence into the text before, the pattern and the text after. */
  lemma SplitAtMatch(s: string, p: string, i: int)
    requires OccursAt(s, p, i)
    ensures s == s[..i] + (p + s[i + |p|..])
  {
    assert s[i..] == s[i..i + |p|] + s[i + |p|..];
    assert s == s[..i] + s[i..];
  }

  /** A single occurrence is replaced verbatim and the surrounding text is kept. */
  lemma ReplaceOnly(a: string, b: string, p: string, r: string)
    requires p != []
    requires forall i :: OccursAt(a + p + b, p, i) ==> i == |a|
    ensures ReplaceAll(a + p + b, p, r) == a + r + b
  {
    var s := a + p + b;
    assert s[|a|..|a| + |p|] == p;
    assert Leftmost(s, p, |a|);
    ReplaceLeftmost(s, p, r, |a|);
    assert s[..|a|] == a;
    assert s[|a| + |p|..] == b;
    forall j | OccursAt(b, p, j) ensures false {
      OccursInSuffix(s, p, |a| + |p|, j);
    }
    ReplaceAbsent(b, p, r);
  }

  /**
   * Ruling out occurrences by one character: if no index that the `k`-th
   * character of a match beginning in `[lo, hi)` would occupy holds `p[k]`,
   * then no match begins in `[lo, hi)`.
   */
  lemma NoMatchAtOffset(s: string, p: string, k: nat, lo: int, hi: int)
    requires k < |p|
    requires forall j :: lo + k <= j < hi + k && k <= j && j - k + |p| <= |s| ==> s[j] != p[k]
    ensures forall i :: lo <= i < hi ==> !OccursAt(s, p, i)
  {
    forall i | lo <= i < hi ensures !OccursAt(s, p, i) {
      if 0 <= i && i + |p| <= |s| {
        assert s[i..i + |p|][k] == s[i + k] != p[k];
      }
    }
  }

  /** `c` does not occur in `s`. */
  predicate Avoids(s: string, c: char) {
    forall i :: 0 <= i < |s| ==> s[i] != c
  }

  /** A concatenation avoids a character when both parts do. */
  lemma AvoidsAppend(x: string, y: string, c: char)
    requires Avoids(x, c) && Avoids(y, c)
    ensures Avoids(x + y, c)
  {
  }

  /** Text lacking one of the pattern's characters does not contain the pattern. */
  lemma AvoidsNotContains(s: string, p: string, k: nat)
    requires k < |p| && Avoids(s, p[k])
    ensures !Contains(s, p)
  {
  }

  /** A piece free of the pattern's first character is copied verbatim. */
  lemma SkipPiece(x: string, y: string, p: string, r: string)
    requires p != [] && Avoids(x, p[0])
    ensures ReplaceAll(x + y, p, r) == x + ReplaceAll(y, p, r)
  {
    forall i | 0 <= i < |x| ensures !OccursAt(x + y, p, i) {
      if i + |p| <= |x + y| {
        assert (x + y)[i..i + |p|][0] == x[i];
      }
    }
    ReplaceSkip(x, y, p, r);
  }

  /**
   * A piece in which every copy of the pattern's first character is followed,
   * inside the piece, by something other than the pattern's second character
   * is copied verbatim.
   */
  lemma SkipMismatchPiece(x: string, y: string, p: string, r: string)
    requires 2 <= |p|
    requires forall i :: 0 <= i < |x| && x[i] == p[0] ==> i + 1 < |x| && x[i + 1] != p[1]
    ensures ReplaceAll(x + y, p, r) == x + ReplaceAll(y, p, r)
  {
    forall i | 0 <= i < |x| ensures !OccursAt(x + y, p, i) {
      if i + |p| <= |x + y| && x[i] == p[0] {
        assert (x + y)[i..i + |p|][1] == x[i + 1];
      }
    }
    ReplaceSkip(x, y, p, r);
  }

  /** An occurrence at the front is replaced and the scan resumes after it. */
  lemma ReplaceFront(p: string, y: string, r: string)
    requires p != []
    ensures ReplaceAll(p + y, p, r) == r + ReplaceAll(y, p, r)
  {
    assert (p + y)[..|p|] == p;
    assert (p + y)[|p|..] == y;
  }

  /** The pattern alone becomes the replacement. */
  lemma ReplaceWhole(p: string, r: string)
    requires p != []
    ensures ReplaceAll(p, p, r) == r
  {
    ReplaceFront(p, "", r);
    assert p + "" == p;
  }

  /** Text free of the pattern's first character is returned unchanged. */
  lemma ReplaceAvoiding(y: string, p: string, r: string)
    requires p != [] && Avoids(y, p[0])
    ensures ReplaceAll(y, p, r) == y
  {
    SkipPiece(y, [], p, r);
    assert y + [] == y;
  }

  /** Text shorter than the pattern is returned unchanged. */
  lemma ReplaceShort(y: string, p: string, r: string)
    requires p != [] && |y| < |p|
    ensures ReplaceAll(y, p, r) == y
  {
    ReplaceAbsent(y, p, r);
  }

  // ---------------------------------------------------------------------------
  // ASCII case mapping
  // ---------------------------------------------------------------------------

  function LowerChar(c: char): char {
    if 'A' <= c <= 'Z' then (c as int + 32) as char else c
  }

  function UpperChar(c: char): char {
    if 'a' <= c <= 'z' then (c as int - 32) as char else c
  }

  /** `s.lower()` on ASCII letters: each character lower-cased in place. */
  function Lower(s: string): string {
    seq(|s|, i requires 0 <= i < |s| => LowerChar(s[i]))
  }

  /** `s.upper()` on ASCII letters: each character upper-cased in place. */
  function Upper(s: string): string {
    seq(|s|, i requires 0 <= i < |s| => UpperChar(s[i]))
  }

  /** Lower-casing leaves no capital letter. */
  lemma LowerHasNoCapitals(s: string, c: char)
    requires 'A' <= c <= 'Z'
    ensures Avoids(Lower(s), c)
  {
  }

  /** Upper-casing leaves no small letter. */
  lemma UpperHasNoSmallLetters(s: string, c: char)
    requires 'a' <= c <= 'z'
    ensures Avoids(Upper(s), c)
  {
  }
}
