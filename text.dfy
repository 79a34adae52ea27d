/**
 * The JavaScript string built-ins the two handlers rely on:
 * `toLowerCase`, `includes`, `replace(string, "")` and `trim`.
 * Strings are sequences of characters.
 */
module Text {
  import opened Wrappers

  // ---------------------------------------------------------------- case

  predicate IsUpper(c: char) {
    'A' <= c <= 'Z'
  }

  /** `toLowerCase` on one character (ASCII letters only). */
  function LowerChar(c: char): (d: char)
    ensures !IsUpper(d)
    ensures IsUpper(c) ==> d as int == c as int + 32
    ensures !IsUpper(c) ==> d == c
  {
    if IsUpper(c) then (c as int + 32) as char else c
  }

  /** `String.prototype.toLowerCase`: every character is mapped on its own. */
  function Lower(s: string): (r: string)
    ensures |r| == |s|
    ensures forall i :: 0 <= i < |r| ==> !IsUpper(r[i])
  {
    seq(|s|, i requires 0 <= i < |s| => LowerChar(s[i]))
  }

  /** The same character, or an ASCII capital and its small letter (32 code points higher). */
  predicate SameCharUpToCase(c: char, d: char) {
    || c == d
    || (IsUpper(c) && d as int == c as int + 32)
    || (IsUpper(d) && c as int == d as int + 32)
  }

  /** Two strings that differ at most in the case of their ASCII letters. */
  predicate SameUpToCase(a: string, b: string) {
    |a| == |b| && forall i :: 0 <= i < |a| ==> SameCharUpToCase(a[i], b[i])
  }

  /** On one character, lowercasing forgets exactly the letter case. */
  lemma LowerCharIgnoresCase(c: char, d: char)
    ensures SameCharUpToCase(c, d) <==> LowerChar(c) == LowerChar(d)
  {
  }

  /** Lowercasing forgets exactly the letter case. */
  lemma LowerIgnoresCase(a: string, b: string)
    ensures SameUpToCase(a, b) <==> Lower(a) == Lower(b)
  {
    forall c, d {
      LowerCharIgnoresCase(c, d);
    }
    if Lower(a) == Lower(b) {
      assert forall i :: 0 <= i < |a| ==> LowerChar(a[i]) == Lower(a)[i] == Lower(b)[i];
    }
  }

  /** A lowercased string contains no upper-case letter, and lowercasing it again changes nothing. */
  lemma LowerIsIdempotent(s: string)
    ensures forall i :: 0 <= i < |s| ==> !IsUpper(Lower(s)[i])
    ensures Lower(Lower(s)) == Lower(s)
  {
  }

  // ---------------------------------------------------------------- search

  /** `t` occurs in `s` starting at index `i`. */
  predicate OccursAt(s: string, t: string, i: nat) {
    i + |t| <= |s| && s[i..i + |t|] == t
  }

  /** The leftmost index at or after `from` where `t` occurs in `s`. */
  function IndexOfFrom(s: string, t: string, from: nat): (r: Option<nat>)
    ensures r.Some? ==> from <= r.value && OccursAt(s, t, r.value)
    ensures r.Some? ==> forall j :: from <= j < r.value ==> !OccursAt(s, t, j)
    ensures r.None? ==> forall j :: from <= j ==> !OccursAt(s, t, j)
    decreases |s| - from
  {
    if from + |t| > |s| then None
    else if OccursAt(s, t, from) then Some(from)
    else IndexOfFrom(s, t, from + 1)
  }

  /** `String.prototype.indexOf`, with `None` for -1. */
  function IndexOf(s: string, t: string): (r: Option<nat>)
    ensures r.Some? ==> OccursAt(s, t, r.value) && forall j :: 0 <= j < r.value ==> !OccursAt(s, t, j)
    ensures r.None? <==> forall j: nat :: !OccursAt(s, t, j)
  {
    IndexOfFrom(s, t, 0)
  }

  /** An occurrence with none before it is what `indexOf` finds. */
  lemma IndexOfFindsFirstOccurrence(s: string, t: string, i: nat)
    requires OccursAt(s, t, i) && forall q :: 0 <= q < i ==> !OccursAt(s, t, q)
    ensures IndexOf(s, t) == Some(i)
  {
  }

  /** `String.prototype.includes`. The empty string is contained in every string. */
  function Contains(s: string, t: string): (b: bool)
    ensures b <==> exists i: nat :: OccursAt(s, t, i)
    ensures t == [] ==> b
  {
    assert t == [] ==> OccursAt(s, t, 0);
    IndexOf(s, t).Some?
  }

  /** A string that holds a character absent from `s` does not occur in `s`. */
  lemma NotContainedWhenCharMissing(s: string, t: string, k: nat)
    requires k < |t| && t[k] !in s
    ensures !Contains(s, t)
  {
  }

  /**
   * `s.replace(t, "")` with a string pattern: the first occurrence of `t`
   * is removed, and `s` is returned unchanged when `t` does not occur.
   */
  function RemoveFirst(s: string, t: string): (r: string)
    ensures !Contains(s, t) ==> r == s
    ensures Contains(s, t) ==> |r| == |s| - |t|
    ensures forall i :: IndexOf(s, t) == Some(i) ==> r == s[..i] + s[i + |t|..]
  {
    match IndexOf(s, t)
    case None => s
    case Some(i) => s[..i] + s[i + |t|..]
  }

  /** Where `indexOf` finds `t`, `replace(t, "")` cuts it out. */
  lemma RemoveFirstAt(s: string, t: string, i: nat)
    requires IndexOf(s, t) == Some(i)
    ensures RemoveFirst(s, t) == s[..i] + s[i + |t|..]
  {
  }

  /** Removing the empty string changes nothing (JavaScript inserts "" at index 0). */
  lemma RemoveEmptyIsIdentity(s: string)
    ensures RemoveFirst(s, "") == s
  {
    assert OccursAt(s, "", 0);
    assert s[..0] + s[0..] == s;
  }

  /** A string written as consecutive pieces (used to state example queries). */
  function Concat(pieces: seq<string>): string {
    if pieces == [] then "" else Concat(pieces[..|pieces| - 1]) + pieces[|pieces| - 1]
  }

  /** `Lower` works character by character. */
  lemma LowerCharwise(s: string, lowered: string)
    requires |s| == |lowered| && forall i :: 0 <= i < |s| ==> LowerChar(s[i]) == lowered[i]
    ensures Lower(s) == lowered
  {
  }

  /** Concatenating the first `k` pieces appends piece `k - 1` to the first `k - 1`. */
  lemma ConcatPrefixStep(pieces: seq<string>, k: nat, before: string, after: string)
    requires 0 < k <= |pieces| && Concat(pieces[..k - 1]) == before
    requires before + pieces[k - 1] == after
    ensures Concat(pieces[..k]) == after
  {
    assert pieces[..k][..k - 1] == pieces[..k - 1];
  }

  /** Every piece of a string, lowercased, occurs in the lowercased whole. */
  lemma {:induction false} PieceOccursLowered(pieces: seq<string>, j: nat, lowered: string)
    requires j < |pieces| && Lower(pieces[j]) == lowered
    ensures Contains(Lower(Concat(pieces)), lowered)
  {
    var init := pieces[..|pieces| - 1];
    var last := pieces[|pieces| - 1];
    var s := Concat(pieces);
    assert Lower(s) == Lower(Concat(init)) + Lower(last);
    if j == |pieces| - 1 {
      assert OccursAt(Lower(s), lowered, |Concat(init)|);
    } else {
      PieceOccursLowered(init, j, lowered);
      var i: nat :| OccursAt(Lower(Concat(init)), lowered, i);
      assert OccursAt(Lower(s), lowered, i);
    }
  }

  // ---------------------------------------------------------------- trim

  /**
   * ECMAScript WhiteSpace and LineTerminator code points: what `trim`
   * strips and what the regular-expression class `\s` matches.
   */
  predicate IsJsWhitespace(c: char) {
    c == '\t' || c == '\n' || c == '\U{000B}' || c == '\U{000C}' || c == '\r' || c == ' '
    || c == '\U{00A0}' || c == '\U{1680}' || ('\U{2000}' <= c <= '\U{200A}')
    || c == '\U{2028}' || c == '\U{2029}' || c == '\U{202F}' || c == '\U{205F}'
    || c == '\U{3000}' || c == '\U{FEFF}'
  }

  predicate AllWhitespace(s: string) {
    forall i :: 0 <= i < |s| ==> IsJsWhitespace(s[i])
  }

  /** The length of the whitespace run that `trim` drops at the front. */
  function LeadingSpaceLen(s: string): (n: nat)
    ensures n <= |s| && AllWhitespace(s[..n])
    ensures n == |s| || !IsJsWhitespace(s[n])
  {
    if s != [] && IsJsWhitespace(s[0]) then
      var n := 1 + LeadingSpaceLen(s[1..]);
      assert s[..n] == [s[0]] + s[1..][..n - 1];
      n
    else
      0
  }

  /** The length of the whitespace run that `trim` drops at the back. */
  function TrailingSpaceLen(s: string): (n: nat)
    ensures n <= |s| && AllWhitespace(s[|s| - n..])
    ensures n == |s| || !IsJsWhitespace(s[|s| - n - 1])
  {
    if s != [] && IsJsWhitespace(s[|s| - 1]) then
      var init := s[..|s| - 1];
      var n := 1 + TrailingSpaceLen(init);
      assert s[|s| - n..] == init[|init| - (n - 1)..] + [s[|s| - 1]];
      n
    else
      0
  }

  /**
   * `String.prototype.trim`: the middle of `s`, which starts after the
   * leading whitespace, is followed only by whitespace, and neither starts
   * nor ends with whitespace.
   */
  function Trim(s: string): (r: string)
    ensures var a := LeadingSpaceLen(s);
      && OccursAt(s, r, a)
      && AllWhitespace(s[..a])
      && AllWhitespace(s[a + |r|..])
    ensures r == [] || (!IsJsWhitespace(r[0]) && !IsJsWhitespace(r[|r| - 1]))
  {
    var a := LeadingSpaceLen(s);
    var b := |s| - TrailingSpaceLen(s[a..]);
    SliceOfSuffix(s, a, b);
    s[a..b]
  }

  /** The first `n` characters of `s[a..b]` are `s[a..a + n]`. */
  lemma PrefixOfSlice(s: string, a: nat, b: nat, n: nat)
    requires a + n <= b <= |s|
    ensures s[a..b][..n] == s[a..a + n]
  {
  }

  /** Cutting a suffix of `s` at `b - a` cuts `s` at `b`. */
  lemma SliceOfSuffix(s: string, a: nat, b: nat)
    requires a <= b <= |s|
    ensures s[a..][..b - a] == s[a..b]
    ensures s[a..][b - a..] == s[b..]
  {
  }

  /** Trimming twice is trimming once. */
  lemma TrimIsIdempotent(s: string)
    ensures Trim(Trim(s)) == Trim(s)
  {
    var r := Trim(s);
    assert LeadingSpaceLen(r) == 0;
    assert TrailingSpaceLen(r) == 0;
    assert r[0..] == r && r[..|r|] == r;
  }
}
