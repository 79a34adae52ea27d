/**
 * pages/api/govlink.js: the strict-all curated matcher over entries read
 * from the `curated_links` table, then a single model call whose reply is
 * searched for a `.gov` / `.org` link.
 */
module GovLink {
  import opened Wrappers
  import opened Text
  import opened UrlExtract
  import opened Api

  /** A row of `curated_links`; `keywords` may be missing (null). */
  datatype CuratedEntry = CuratedEntry(keywords: Option<seq<string>>, summary: string, link: string)

  /** `entry.keywords || []` */
  function KeywordsOf(e: CuratedEntry): (ks: seq<string>)
    ensures e.keywords.None? ==> ks == []
    ensures e.keywords.Some? ==> ks == e.keywords.value
  {
    e.keywords.GetOr([])
  }

  /**
   * `keywords.filter(k => normalized.includes(k.toLowerCase())).length`:
   * never more than the number of keywords.
   */
  function Score(normalized: string, keywords: seq<string>): (n: nat)
    ensures n <= |keywords|
  {
    if keywords == [] then 0
    else (if Contains(normalized, Lower(keywords[0])) then 1 else 0) + Score(normalized, keywords[1..])
  }

  /** The score reaches the keyword count exactly when every lowercased keyword occurs in the query. */
  lemma {:induction false} FullScoreIffAllKeywords(normalized: string, keywords: seq<string>)
    ensures Score(normalized, keywords) == |keywords| <==> forall k :: k in keywords ==> Contains(normalized, Lower(k))
  {
    if keywords != [] {
      FullScoreIffAllKeywords(normalized, keywords[1..]);
      assert forall k :: k in keywords <==> k == keywords[0] || k in keywords[1..];
    }
  }

  /** `score >= keywords.length`; as the score never exceeds the count, this means every keyword scored. */
  function Qualifies(normalized: string, e: CuratedEntry): (b: bool)
    ensures b <==> Score(normalized, KeywordsOf(e)) == |KeywordsOf(e)|
  {
    Score(normalized, KeywordsOf(e)) >= |KeywordsOf(e)|
  }

  /** Strict-all: an entry qualifies iff each of its keywords, lowercased, occurs in the query. */
  lemma QualifiesIffAllKeywords(normalized: string, e: CuratedEntry)
    ensures Qualifies(normalized, e) <==> forall k :: k in KeywordsOf(e) ==> Contains(normalized, Lower(k))
  {
    FullScoreIffAllKeywords(normalized, KeywordsOf(e));
  }

  /** Entry `i` is the first entry, in collection order, that qualifies. */
  predicate IsFirstQualifying(normalized: string, curated: seq<CuratedEntry>, i: int) {
    && 0 <= i < |curated|
    && Qualifies(normalized, curated[i])
    && forall j :: 0 <= j < i ==> !Qualifies(normalized, curated[j])
  }

  /** What the `for…of` loop with `break` selects. */
  function FirstStrict(normalized: string, curated: seq<CuratedEntry>): (r: Option<CuratedEntry>)
    ensures r.None? <==> forall j :: 0 <= j < |curated| ==> !Qualifies(normalized, curated[j])
    ensures r.Some? ==> exists i :: IsFirstQualifying(normalized, curated, i) && curated[i] == r.value
  {
    if curated == [] then None
    else if Qualifies(normalized, curated[0]) then
      assert IsFirstQualifying(normalized, curated, 0);
      Some(curated[0])
    else
      var r := FirstStrict(normalized, curated[1..]);
      if r.Some? then
        var i :| IsFirstQualifying(normalized, curated[1..], i) && curated[1..][i] == r.value;
        assert IsFirstQualifying(normalized, curated, i + 1);
        r
      else
        r
  }

  /**
   * Lines 39-52: lowercase the query, walk the entries in order, and stop
   * at the first whose score reaches its keyword count.
   */
  method FindStrictMatch(query: string, curated: seq<CuratedEntry>) returns (found: Option<CuratedEntry>)
    ensures found.None? <==> forall j :: 0 <= j < |curated| ==> !Qualifies(Lower(query), curated[j])
    ensures found.Some? ==> exists i :: IsFirstQualifying(Lower(query), curated, i) && curated[i] == found.value
    ensures found == FirstStrict(Lower(query), curated)
  {
    var normalized := Lower(query);
    found := None;
    var i := 0;
    while i < |curated|
      invariant 0 <= i <= |curated|
      invariant forall j :: 0 <= j < i ==> !Qualifies(normalized, curated[j])
      invariant FirstStrict(normalized, curated) == FirstStrict(normalized, curated[i..])
    {
      var entry := curated[i];
      var keywords := entry.keywords.GetOr([]);
      var score := Score(normalized, keywords);
      if score >= |keywords| {
        found := Some(entry);
        assert IsFirstQualifying(normalized, curated, i);
        break;
      }
      assert curated[i..][1..] == curated[i + 1..];
      i := i + 1;
    }
  }

  /** Strict-all never looks past the winner: entries appended after it cannot change the result. */
  lemma {:induction false} LaterEntriesIgnored(normalized: string, curated: seq<CuratedEntry>, more: seq<CuratedEntry>)
    requires FirstStrict(normalized, curated).Some?
    ensures FirstStrict(normalized, curated + more) == FirstStrict(normalized, curated)
  {
    var i :| IsFirstQualifying(normalized, curated, i) && curated[i] == FirstStrict(normalized, curated).value;
    var all := curated + more;
    assert all[..i + 1] == curated[..i + 1];
    assert IsFirstQualifying(normalized, all, i) by {
      forall j | 0 <= j <= i ensures all[j] == curated[j] {
        assert all[j] == all[..i + 1][j];
      }
    }
    FirstQualifyingIsFound(normalized, all, i);
  }

  /** Whatever entry is first to qualify is the one the scan returns. */
  lemma FirstQualifyingIsFound(normalized: string, curated: seq<CuratedEntry>, i: int)
    requires IsFirstQualifying(normalized, curated, i)
    ensures FirstStrict(normalized, curated) == Some(curated[i])
  {
    var r := FirstStrict(normalized, curated);
    var i' :| IsFirstQualifying(normalized, curated, i') && curated[i'] == r.value;
    assert i' == i;
  }

  /**
   * An entry whose keywords are missing or empty scores 0 >= 0 and matches
   * every query, so no entry after it is ever selected.
   */
  lemma {:induction false} KeywordlessEntryMatchesEverything(normalized: string, curated: seq<CuratedEntry>, i: nat)
    requires i < |curated| && KeywordsOf(curated[i]) == []
    ensures FirstStrict(normalized, curated).Some?
    ensures forall j :: IsFirstQualifying(normalized, curated, j) ==> j <= i
  {
    assert Qualifies(normalized, curated[i]);
  }

  /** Changing the letter case of the query does not change which entry is selected. */
  lemma StrictMatchIgnoresQueryCase(q1: string, q2: string, curated: seq<CuratedEntry>)
    requires SameUpToCase(q1, q2)
    ensures FirstStrict(Lower(q1), curated) == FirstStrict(Lower(q2), curated)
  {
    LowerIgnoresCase(q1, q2);
  }

  /** The keywords of the California renewal example. */
  const DmvKeywords: seq<string> := ["dmv", "license", "renew", "california"]

  /** With the four DMV keywords present, a DMV entry qualifies. */
  lemma DmvKeywordsPresent(normalized: string, e: CuratedEntry)
    requires KeywordsOf(e) == DmvKeywords
    requires Contains(normalized, "dmv") && Contains(normalized, "license")
    requires Contains(normalized, "renew") && Contains(normalized, "california")
    ensures Qualifies(normalized, e)
  {
    LowerCharwise("dmv", "dmv");
    LowerCharwise("license", "license");
    LowerCharwise("renew", "renew");
    LowerCharwise("california", "california");
    var kws := KeywordsOf(e);
    forall k | k in kws
      ensures Contains(normalized, Lower(k))
    {
      assert k == "dmv" || k == "license" || k == "renew" || k == "california";
    }
    FullScoreIffAllKeywords(normalized, kws);
  }

  /** "I need to renew my California driver's license at the DMV" selects the DMV entry. */
  lemma DmvEntryMatchesRenewal(e: CuratedEntry, pieces: seq<string>)
    requires KeywordsOf(e) == DmvKeywords
    requires pieces == ["I need to ", "renew", " my ", "California", " driver's ", "license", " at the ", "DMV"]
    ensures Concat(pieces) == "I need to renew my California driver's license at the DMV"
    ensures Qualifies(Lower(Concat(pieces)), e)
  {
    RenewalSentence(pieces);
    RenewalQueryHasKeywords(pieces);
    DmvKeywordsPresent(Lower(Concat(pieces)), e);
  }

  /** The pieces spell out the renewal sentence. */
  lemma RenewalSentence(pieces: seq<string>)
    requires pieces == ["I need to ", "renew", " my ", "California", " driver's ", "license", " at the ", "DMV"]
    ensures Concat(pieces) == "I need to renew my California driver's license at the DMV"
  {
    RenewalPrefixes();
    RenewalFirstHalf(pieces);
    ConcatPrefixStep(pieces, 5, "I need to renew my California", "I need to renew my California driver's ");
    ConcatPrefixStep(pieces, 6, "I need to renew my California driver's ", "I need to renew my California driver's license");
    ConcatPrefixStep(pieces, 7, "I need to renew my California driver's license", "I need to renew my California driver's license at the ");
    ConcatPrefixStep(pieces, 8, "I need to renew my California driver's license at the ", "I need to renew my California driver's license at the DMV");
    assert pieces[..8] == pieces;
  }

  /** The first four pieces spell "I need to renew my California". */
  lemma RenewalFirstHalf(pieces: seq<string>)
    requires pieces == ["I need to ", "renew", " my ", "California", " driver's ", "license", " at the ", "DMV"]
    ensures Concat(pieces[..4]) == "I need to renew my California"
  {
    RenewalPrefixes();
    ConcatPrefixStep(pieces, 1, "", "I need to ");
    ConcatPrefixStep(pieces, 2, "I need to ", "I need to renew");
    ConcatPrefixStep(pieces, 3, "I need to renew", "I need to renew my ");
    ConcatPrefixStep(pieces, 4, "I need to renew my ", "I need to renew my California");
  }

  /** The literal joins behind the renewal sentence. */
  lemma RenewalPrefixes()
    ensures "" + "I need to " == "I need to "
    ensures "I need to " + "renew" == "I need to renew"
    ensures "I need to renew" + " my " == "I need to renew my "
    ensures "I need to renew my " + "California" == "I need to renew my California"
    ensures "I need to renew my California" + " driver's " == "I need to renew my California driver's "
    ensures "I need to renew my California driver's " + "license" == "I need to renew my California driver's license"
    ensures "I need to renew my California driver's license" + " at the " == "I need to renew my California driver's license at the "
    ensures "I need to renew my California driver's license at the " + "DMV" == "I need to renew my California driver's license at the DMV"
  {
  }

  /** Only the keyword pieces matter: the query holds all four DMV keywords once lowercased. */
  lemma RenewalQueryHasKeywords(pieces: seq<string>)
    requires |pieces| == 8 && pieces[1] == "renew" && pieces[3] == "California"
    requires pieces[5] == "license" && pieces[7] == "DMV"
    ensures var n := Lower(Concat(pieces));
      Contains(n, "dmv") && Contains(n, "license") && Contains(n, "renew") && Contains(n, "california")
  {
    RenewalPiecesLowered();
    PieceOccursLowered(pieces, 1, "renew");
    PieceOccursLowered(pieces, 3, "california");
    PieceOccursLowered(pieces, 5, "license");
    PieceOccursLowered(pieces, 7, "dmv");
  }

  lemma RenewalPiecesLowered()
    ensures Lower("renew") == "renew" && Lower("California") == "california"
    ensures Lower("license") == "license" && Lower("DMV") == "dmv"
  {
    LowerCharwise("renew", "renew");
    LowerCharwise("California", "california");
    LowerCharwise("license", "license");
    LowerCharwise("DMV", "dmv");
  }

  /** "I need a fishing license" does not: it lacks "dmv", "renew" and "california". */
  lemma DmvEntryRejectsFishing(e: CuratedEntry)
    requires KeywordsOf(e) == DmvKeywords
    ensures !Qualifies(Lower("I need a fishing license"), e)
  {
    var n := Lower("I need a fishing license");
    assert 'r' !in n;
    NotContainedWhenCharMissing(n, "renew", 0);
    assert Lower("renew") == "renew";
    assert "renew" in DmvKeywords;
    QualifiesIffAllKeywords(n, e);
  }

  // ------------------------------------------------------------ replies

  const NoLinkNote: string := "\U{26A0}\U{FE0F} No direct link found. Please visit usa.gov for more info."

  /** Lines 91-94: the extracted link is kept only if it mentions `.gov` or `.org`. */
  function SafeLink(extracted: string): (r: string)
    ensures r == "" || r == extracted
    ensures r != "" ==> Contains(r, ".gov") || Contains(r, ".org")
    ensures Contains(extracted, ".gov") || Contains(extracted, ".org") ==> r == extracted
  {
    if Contains(extracted, ".gov") || Contains(extracted, ".org") then extracted else ""
  }

  lemma RejectsExampleCom(link: string)
    requires link == "https://example.com/info"
    ensures SafeLink(link) == ""
  {
    NotContainedWhenCharMissing(link, ".gov", 3);
    NotContainedWhenCharMissing(link, ".org", 2);
  }

  lemma AcceptsIrsGov(link: string)
    requires link == "https://www.irs.gov/payments"
    ensures SafeLink(link) == link
  {
    assert OccursAt(link, ".gov", 15);
  }

  /** A link without `.gov` or `.org` is dropped; an IRS payment link is kept. */
  lemma SafeLinkExamples()
    ensures SafeLink("https://example.com/info") == ""
    ensures SafeLink("https://www.irs.gov/payments") == "https://www.irs.gov/payments"
  {
    RejectsExampleCom("https://example.com/info");
    AcceptsIrsGov("https://www.irs.gov/payments");
  }

  /** Lines 54-64: a curated hit is returned (and logged) as is, with source "curated". */
  function CuratedOutcome(query: string, e: CuratedEntry): (out: Outcome)
    ensures out.status == 200 && out.body.note.None? && out.body.source == Some("curated")
    ensures out.body.summary == e.summary && out.body.link == e.link
    ensures out.logged == Some(QueryLog(query, "curated", out.body.link))
  {
    Outcome(200, Response(e.summary, e.link, Some("curated"), None), Some(QueryLog(query, "curated", e.link)))
  }

  /** Lines 87-116: the reply to a query that no curated entry matched. */
  function ModelOutcome(query: string, completion: Completion): (out: Outcome)
    ensures completion.CallFailed? ==> out == ErrorOutcome
    ensures completion.Replied? ==> out.status == 200 && out.logged.Some? && out.body.source.None?
  {
    match completion
    case CallFailed => ErrorOutcome
    case Replied(content) =>
      var reply := content.GetOr("");
      var safeLink := SafeLink(ExtractLink(reply, NotSpaceOrParen));
      var source := if safeLink != "" then "gpt-3.5" else "gpt-3.5-fallback";
      Outcome(200,
        Response(Trim(RemoveFirst(reply, safeLink)), safeLink, None,
                 if safeLink == "" then Some(NoLinkNote) else None),
        Some(QueryLog(query, source, safeLink)))
  }

  /**
   * The same example.com reply that govlinks.js returns as a link is
   * dropped here: empty link, the usa.gov note, source "gpt-3.5-fallback".
   */
  lemma OtherDomainIsDropped(query: string, reply: string)
    requires reply == "https://example.com/info"
    ensures ModelOutcome(query, Replied(Some(reply)))
         == Outcome(200, Response(reply, "", None, Some(NoLinkNote)), Some(QueryLog(query, "gpt-3.5-fallback", "")))
  {
    WholeReplyIsStrictLink(reply);
    RejectsExampleCom(reply);
    RemoveEmptyIsIdentity(reply);
    assert Trim(reply) == reply by {
      assert !IsJsWhitespace(reply[0]) && !IsJsWhitespace(reply[|reply| - 1]);
    }
  }

  /**
   * The whole handler after the HTTP method check: a curated hit never
   * consults the model's reply; otherwise the reply decides.
   */
  method HandleGovLink(query: string, curated: seq<CuratedEntry>, completion: Completion) returns (out: Outcome)
    ensures FirstStrict(Lower(query), curated).Some? ==>
      var e := FirstStrict(Lower(query), curated).value;
      && out.status == 200
      && out.body == Response(e.summary, e.link, Some("curated"), None)
      && out.logged == Some(QueryLog(query, "curated", e.link))
    ensures FirstStrict(Lower(query), curated).None? ==> out == ModelOutcome(query, completion)
  {
    var found := FindStrictMatch(query, curated);
    if found.Some? {
      return CuratedOutcome(query, found.value);
    }
    out := ModelOutcome(query, completion);
  }

  /**
   * The model path, field by field: the link is "" or the leftmost
   * extracted URL and then mentions `.gov` or `.org`; the logged source and
   * the note are decided by whether a link survived; the summary is the
   * reply with the link's match range cut out, trimmed.
   */
  lemma {:induction false} ModelReplyFields(query: string, content: Option<string>)
    ensures var out := ModelOutcome(query, Replied(content));
      var reply := content.GetOr("");
      var extracted := ExtractLink(reply, NotSpaceOrParen);
      && (out.body.link == "" || (out.body.link == extracted && (Contains(extracted, ".gov") || Contains(extracted, ".org"))))
      && ((Contains(extracted, ".gov") || Contains(extracted, ".org")) ==> out.body.link == extracted)
      && out.logged == Some(QueryLog(query, if out.body.link != "" then "gpt-3.5" else "gpt-3.5-fallback", out.body.link))
      && (out.body.note.Some? <==> out.body.link == "")
      && (out.body.link == "" ==> out.body.summary == Trim(reply) && out.body.note == Some(NoLinkNote))
      && (out.body.link != "" ==>
            var m := FirstUrl(reply, NotSpaceOrParen).value;
            out.body.summary == Trim(reply[..m.start] + reply[m.end..]))
  {
    var reply := content.GetOr("");
    var extracted := ExtractLink(reply, NotSpaceOrParen);
    if SafeLink(extracted) == "" {
      RemoveEmptyIsIdentity(reply);
    } else {
      assert FirstUrl(reply, NotSpaceOrParen).Some?;
      RemoveLinkCutsMatch(reply, NotSpaceOrParen);
    }
  }
}
