/**
 * Leftmost-match semantics of the two link regular expressions
 *   /https?:\/\/[^\s)]+/          (govlink.js)
 *   /(https?:\/\/[\w./\-?&=#%]+)/g (govlinks.js, first element of the match list)
 * Both are a scheme followed by a greedy, non-empty run of one character
 * class; nothing follows the run, so the greedy run never backtracks.
 */
module UrlExtract {
  import opened Wrappers
  import opened Text

  /** The character class repeated after the scheme. */
  datatype CharClass =
    | NotSpaceOrParen   // [^\s)]
    | UrlWord           // [\w./\-?&=#%]

  /** `\w`: ASCII letters, digits and underscore. */
  predicate IsWordChar(c: char) {
    ('a' <= c <= 'z') || ('A' <= c <= 'Z') || ('0' <= c <= '9') || c == '_'
  }

  predicate Allowed(cls: CharClass, c: char) {
    match cls
    case NotSpaceOrParen => !IsJsWhitespace(c) && c != ')'
    case UrlWord => IsWordChar(c) || c in "./-?&=#%"
  }

  /**
   * Length of the `https?://` prefix at `p`, or 0. The greedy `s?` tries
   * "https://" first; "http://" can only match where "https://" does not.
   */
  function SchemeLen(s: string, p: nat): (k: nat)
    ensures k == 0 || k == 7 || k == 8
  {
    if OccursAt(s, "https://", p) then 8
    else if OccursAt(s, "http://", p) then 7
    else 0
  }

  /** The regular expression has a match starting at `p`. */
  predicate MatchesAt(s: string, cls: CharClass, p: nat) {
    var k := SchemeLen(s, p);
    k > 0 && p + k < |s| && Allowed(cls, s[p + k])
  }

  /** A half-open index range `[start, end)` of a string. */
  datatype Span = Span(start: nat, end: nat)

  /** `m` is a match: a scheme, then a maximal non-empty run of allowed characters. */
  ghost predicate IsUrlSpan(s: string, cls: CharClass, m: Span) {
    var k := SchemeLen(s, m.start);
    && k > 0
    && m.start + k < m.end <= |s|
    && (forall j :: m.start + k <= j < m.end ==> Allowed(cls, s[j]))
    && (m.end == |s| || !Allowed(cls, s[m.end]))
  }

  /** Length of the longest run of allowed characters starting at `i` (the greedy `+`). */
  function RunLen(s: string, cls: CharClass, i: nat): (n: nat)
    ensures i + n <= |s| || n == 0
    ensures forall j :: i <= j < i + n ==> Allowed(cls, s[j])
    ensures i + n >= |s| || !Allowed(cls, s[i + n])
    decreases |s| - i
  {
    if i < |s| && Allowed(cls, s[i]) then 1 + RunLen(s, cls, i + 1) else 0
  }

  /** The regular-expression engine's scan: try each start index in turn. */
  function FirstUrlFrom(s: string, cls: CharClass, from: nat): (m: Option<Span>)
    ensures m.None? ==> forall q :: from <= q ==> !MatchesAt(s, cls, q)
    ensures m.Some? ==> from <= m.value.start && IsUrlSpan(s, cls, m.value)
    ensures m.Some? ==> forall q :: from <= q < m.value.start ==> !MatchesAt(s, cls, q)
    decreases |s| - from
  {
    if from >= |s| then None
    else if MatchesAt(s, cls, from) then
      var k := SchemeLen(s, from);
      Some(Span(from, from + k + RunLen(s, cls, from + k)))
    else FirstUrlFrom(s, cls, from + 1)
  }

  /** The leftmost match of the link pattern in `s`, if any. */
  function FirstUrl(s: string, cls: CharClass): (m: Option<Span>)
    ensures m.None? <==> forall q: nat :: !MatchesAt(s, cls, q)
    ensures m.Some? ==> IsUrlSpan(s, cls, m.value)
    ensures m.Some? ==> forall q :: 0 <= q < m.value.start ==> !MatchesAt(s, cls, q)
  {
    var m := FirstUrlFrom(s, cls, 0);
    assert m.Some? ==> MatchesAt(s, cls, m.value.start);
    m
  }

  /**
   * `s.match(re)?.[0] || ""`: "" exactly when the pattern matches nowhere,
   * otherwise the text of the leftmost, maximal match (`FirstUrl`).
   */
  function ExtractLink(s: string, cls: CharClass): (r: string)
    ensures r == "" <==> forall q: nat :: !MatchesAt(s, cls, q)
    ensures r != "" ==> OccursAt(s, r, FirstUrl(s, cls).value.start)
    ensures r != "" ==> r == s[FirstUrl(s, cls).value.start..FirstUrl(s, cls).value.end]
  {
    match FirstUrl(s, cls)
    case None => ""
    case Some(m) => s[m.start..m.end]
  }

  /**
   * What a non-empty extracted link looks like: "http://" or "https://"
   * followed by a non-empty run of allowed characters.
   */
  lemma ExtractedLinkShape(s: string, cls: CharClass)
    ensures ExtractLink(s, cls) != "" ==>
      var link := ExtractLink(s, cls);
      var k := if |link| >= 8 && link[..8] == "https://" then 8 else 7;
      && k < |link|
      && (link[..k] == "https://" || link[..k] == "http://")
      && (forall j :: k <= j < |link| ==> Allowed(cls, link[j]))
  {
    match FirstUrl(s, cls)
    case None =>
    case Some(m) =>
      var link := s[m.start..m.end];
      assert link == ExtractLink(s, cls);
      var k := SchemeLen(s, m.start);
      SchemeOfMatchText(s, m.start, m.end);
      forall j | k <= j < |link|
        ensures Allowed(cls, link[j])
      {
        assert link[j] == s[m.start + j];
      }
  }

  /** The text from a scheme position on starts with that scheme, and with "https://" only if the scheme is. */
  lemma SchemeOfMatchText(s: string, p: nat, e: nat)
    requires SchemeLen(s, p) > 0 && p + SchemeLen(s, p) < e <= |s|
    ensures var link := s[p..e];
      && SchemeLen(s, p) == (if |link| >= 8 && link[..8] == "https://" then 8 else 7)
      && (link[..SchemeLen(s, p)] == "https://" || link[..SchemeLen(s, p)] == "http://")
  {
    var k := SchemeLen(s, p);
    PrefixOfSlice(s, p, e, k);
    if k == 7 && e - p >= 8 {
      PrefixOfSlice(s, p, e, 8);
    }
  }

  /** With `[^\s)]`, the whole extracted link holds no whitespace and no ')'. */
  lemma StrictLinkHasNoSpaceOrParen(s: string)
    ensures forall j :: 0 <= j < |ExtractLink(s, NotSpaceOrParen)| ==>
      var c := ExtractLink(s, NotSpaceOrParen)[j];
      !IsJsWhitespace(c) && c != ')'
  {
    var link := ExtractLink(s, NotSpaceOrParen);
    if link != "" {
      ExtractedLinkShape(s, NotSpaceOrParen);
      var k := if |link| >= 8 && link[..8] == "https://" then 8 else 7;
      forall j | 0 <= j < k ensures !IsJsWhitespace(link[j]) && link[j] != ')' {
        assert link[j] == link[..k][j];
      }
    }
  }

  /**
   * The first occurrence of the extracted text is the match itself: an
   * earlier copy of it would be an earlier match of the pattern.
   */
  lemma {:induction false} LinkFirstOccursAtMatch(s: string, cls: CharClass)
    requires FirstUrl(s, cls).Some?
    ensures IndexOf(s, ExtractLink(s, cls)) == Some(FirstUrl(s, cls).value.start)
  {
    var m := FirstUrl(s, cls).value;
    var link := ExtractLink(s, cls);
    assert link == s[m.start..m.end];
    forall q: nat | q < m.start
      ensures !OccursAt(s, link, q)
    {
      if OccursAt(s, link, q) {
        SameTextSameMatch(s, cls, m.start, m.end, q);
      }
    }
    IndexOfFindsFirstOccurrence(s, link, m.start);
  }

  /** A copy, at `q`, of a match's text is itself a match start at `q`. */
  lemma SameTextSameMatch(s: string, cls: CharClass, p: nat, e: nat, q: nat)
    requires SchemeLen(s, p) > 0 && p + SchemeLen(s, p) < e <= |s|
    requires Allowed(cls, s[p + SchemeLen(s, p)])
    requires OccursAt(s, s[p..e], q)
    ensures MatchesAt(s, cls, q)
  {
    var link := s[p..e];
    var k := SchemeLen(s, p);
    assert s[q + k] == link[k] == s[p + k];
    if k == 8 {
      assert s[q..q + 8] == link[..8] == s[p..p + 8];
    } else {
      assert s[q..q + 7] == link[..7] == s[p..p + 7];
      assert s[q..q + 8] == link[..8] == s[p..p + 8];
    }
  }

  /**
   * `s.replace(link, "")` removes exactly the matched range, so the reply
   * keeps everything before and after the link.
   */
  lemma RemoveLinkCutsMatch(s: string, cls: CharClass)
    requires FirstUrl(s, cls).Some?
    ensures var m := FirstUrl(s, cls).value;
      RemoveFirst(s, ExtractLink(s, cls)) == s[..m.start] + s[m.end..]
  {
    var m := FirstUrl(s, cls).value;
    var link := ExtractLink(s, cls);
    assert link == s[m.start..m.end];
    LinkFirstOccursAtMatch(s, cls);
    assert m.start + |link| == m.end;
    RemoveFirstAt(s, link, m.start);
  }

  /** Every character of the `[\w./\-?&=#%]` class is also in `[^\s)]`. */
  lemma WordCharIsStrictChar(c: char)
    requires Allowed(UrlWord, c)
    ensures Allowed(NotSpaceOrParen, c)
  {
  }

  /**
   * A reply that is nothing but "https://" and a run of allowed characters
   * is extracted whole.
   */
  lemma WholeStringIsLink(s: string, cls: CharClass)
    requires OccursAt(s, "https://", 0) && |s| > 8
    requires forall j :: 8 <= j < |s| ==> Allowed(cls, s[j])
    ensures FirstUrl(s, cls) == Some(Span(0, |s|))
    ensures ExtractLink(s, cls) == s
  {
    assert MatchesAt(s, cls, 0);
    var m := FirstUrl(s, cls).value;
    assert m.start == 0;
    assert s[0..|s|] == s;
  }

  /** An example.com reply is extracted whole by the govlinks.js pattern... */
  lemma WholeReplyIsWordLink(reply: string)
    requires reply == "https://example.com/info"
    ensures ExtractLink(reply, UrlWord) == reply
    ensures FirstUrl(reply, UrlWord) == Some(Span(0, |reply|))
  {
    assert reply[..8] == "https://";
    WholeStringIsLink(reply, UrlWord);
  }

  /** ... and by the govlink.js pattern. */
  lemma WholeReplyIsStrictLink(reply: string)
    requires reply == "https://example.com/info"
    ensures ExtractLink(reply, NotSpaceOrParen) == reply
    ensures FirstUrl(reply, NotSpaceOrParen) == Some(Span(0, |reply|))
  {
    assert reply[..8] == "https://";
    forall j | 8 <= j < |reply|
      ensures Allowed(NotSpaceOrParen, reply[j])
    {
      WordCharIsStrictChar(reply[j]);
    }
    WholeStringIsLink(reply, NotSpaceOrParen);
  }
}
