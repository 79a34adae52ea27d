/**
 * pages/api/govlinks.js: a constant table of three curated links matched
 * with `find` / `some` (any one keyword suffices), then a model call whose
 * first URL is returned without any domain check.
 */
module GovLinks {
  import opened Wrappers
  import opened Text
  import opened UrlExtract
  import opened Api

  datatype LinkEntry = LinkEntry(keywords: seq<string>, summary: string, link: string)

  /** Lines 6-22. */
  const GovLinksTable: seq<LinkEntry> := [
    LinkEntry(["ticket", "miami", "pay"],
      "You can pay your traffic ticket online at the City of Miami portal.",
      "https://www.miamigov.com/Services/Pay-Ticket"),
    LinkEntry(["hunting", "license", "alaska"],
      "You can apply for a hunting license through Alaska Fish and Game.",
      "https://www.adfg.alaska.gov/index.cfm?adfg=hunting.main"),
    LinkEntry(["dmv", "license", "renew", "california"],
      "Renew your California driver\U{2019}s license through the DMV portal.",
      "https://www.dmv.ca.gov/portal/driver-licenses-identification-cards/driver-license-renewal/")
  ]

  const OpenAINote: string := "This result was generated via OpenAI. Double-check before submitting sensitive info."

  /**
   * `entry.keywords.some(keyword => lowered.includes(keyword))`: the
   * keywords are used as written, only the query is lowercased.
   */
  function SomeKeyword(lowered: string, keywords: seq<string>): (b: bool)
    ensures b <==> exists k :: k in keywords && Contains(lowered, k)
  {
    if keywords == [] then false
    else
      assert forall k :: k in keywords <==> k == keywords[0] || k in keywords[1..];
      Contains(lowered, keywords[0]) || SomeKeyword(lowered, keywords[1..])
  }

  /** Entry `i` is the first in table order with a keyword in the query. */
  predicate IsFirstHit(lowered: string, table: seq<LinkEntry>, i: int) {
    && 0 <= i < |table|
    && SomeKeyword(lowered, table[i].keywords)
    && forall j :: 0 <= j < i ==> !SomeKeyword(lowered, table[j].keywords)
  }

  /** `table.find(...)`: the first entry with some keyword in the query, or nothing. */
  function FindAny(lowered: string, table: seq<LinkEntry>): (r: Option<LinkEntry>)
    ensures r.None? <==> forall j :: 0 <= j < |table| ==> !SomeKeyword(lowered, table[j].keywords)
    ensures r.Some? ==> exists i :: IsFirstHit(lowered, table, i) && table[i] == r.value
  {
    if table == [] then None
    else if SomeKeyword(lowered, table[0].keywords) then
      assert IsFirstHit(lowered, table, 0);
      Some(table[0])
    else
      var r := FindAny(lowered, table[1..]);
      if r.Some? then
        var i :| IsFirstHit(lowered, table[1..], i) && table[1..][i] == r.value;
        assert IsFirstHit(lowered, table, i + 1);
        r
      else
        r
  }

  /** Lines 29-81 after the HTTP method check. */
  function HandleGovLinks(query: string, completion: Completion): (out: Outcome)
    ensures out.logged.None?
    ensures FindAny(Lower(query), GovLinksTable).Some? ==>
      var e := FindAny(Lower(query), GovLinksTable).value;
      out == Outcome(200, Response(e.summary, e.link, None, None), None)
    ensures FindAny(Lower(query), GovLinksTable).None? && completion.Replied? && completion.content.Some? ==>
      var output := completion.content.value;
      && out.status == 200
      && out.body.link == ExtractLink(output, UrlWord)
      && out.body.source.None?
      && out.body.note == Some(OpenAINote)
      && (FirstUrl(output, UrlWord).None? ==> out.body.summary == Trim(output))
      && (FirstUrl(output, UrlWord).Some? ==>
            var m := FirstUrl(output, UrlWord).value;
            out.body.summary == Trim(output[..m.start] + output[m.end..]))
    ensures FindAny(Lower(query), GovLinksTable).None? && !(completion.Replied? && completion.content.Some?) ==>
      out == ErrorOutcome
  {
    match FindAny(Lower(query), GovLinksTable)
    case Some(e) => Outcome(200, Response(e.summary, e.link, None, None), None)
    case None =>
      match completion
      case CallFailed => ErrorOutcome
      case Replied(None) => ErrorOutcome  // `null.match(...)` throws inside the try
      case Replied(Some(output)) =>
        var extractedLink := ExtractLink(output, UrlWord);
        CutLinkFromOutput(output);
        Outcome(200, Response(Trim(RemoveFirst(output, extractedLink)), extractedLink, None, Some(OpenAINote)), None)
  }

  /** Removing the extracted link cuts out its match range, or nothing when there is no match. */
  lemma CutLinkFromOutput(output: string)
    ensures FirstUrl(output, UrlWord).None? ==> RemoveFirst(output, ExtractLink(output, UrlWord)) == output
    ensures FirstUrl(output, UrlWord).Some? ==>
      var m := FirstUrl(output, UrlWord).value;
      RemoveFirst(output, ExtractLink(output, UrlWord)) == output[..m.start] + output[m.end..]
  {
    if FirstUrl(output, UrlWord).None? {
      RemoveEmptyIsIdentity(output);
    } else {
      RemoveLinkCutsMatch(output, UrlWord);
    }
  }

  /** An example.com link is returned as the link; the summary is what is left, here nothing. */
  lemma AnyDomainIsReturned(query: string, output: string)
    requires FindAny(Lower(query), GovLinksTable).None?
    requires output == "https://example.com/info"
    ensures HandleGovLinks(query, Replied(Some(output)))
         == Outcome(200, Response("", "https://example.com/info", None, Some(OpenAINote)), None)
  {
    WholeReplyIsWordLink(output);
    var out := HandleGovLinks(query, Replied(Some(output)));
    assert output[..0] + output[|output|..] == "";
    assert out.body.summary == Trim("") == "";
  }

  /** The pieces spell out the Miami query. */
  lemma MiamiSentence(pieces: seq<string>)
    requires pieces == ["pay", " my ", "miami", " traffic ", "ticket"]
    ensures Concat(pieces) == "pay my miami traffic ticket"
  {
    MiamiPrefixes();
    ConcatPrefixStep(pieces, 1, "", "pay");
    ConcatPrefixStep(pieces, 2, "pay", "pay my ");
    ConcatPrefixStep(pieces, 3, "pay my ", "pay my miami");
    ConcatPrefixStep(pieces, 4, "pay my miami", "pay my miami traffic ");
    ConcatPrefixStep(pieces, 5, "pay my miami traffic ", "pay my miami traffic ticket");
    assert pieces[..5] == pieces;
  }

  /** The literal joins behind the Miami query. */
  lemma MiamiPrefixes()
    ensures "" + "pay" == "pay"
    ensures "pay" + " my " == "pay my "
    ensures "pay my " + "miami" == "pay my miami"
    ensures "pay my miami" + " traffic " == "pay my miami traffic "
    ensures "pay my miami traffic " + "ticket" == "pay my miami traffic ticket"
  {
  }

  /** "pay my miami traffic ticket" is answered from the Miami entry, whatever the model would say. */
  lemma MiamiTicketExample(completion: Completion, pieces: seq<string>)
    requires pieces == ["pay", " my ", "miami", " traffic ", "ticket"]
    ensures Concat(pieces) == "pay my miami traffic ticket"
    ensures HandleGovLinks(Concat(pieces), completion)
         == Outcome(200, Response(GovLinksTable[0].summary, GovLinksTable[0].link, None, None), None)
  {
    MiamiSentence(pieces);
    var lowered := Lower(Concat(pieces));
    LowerCharwise("pay", "pay");
    PieceOccursLowered(pieces, 0, "pay");
    assert "pay" in GovLinksTable[0].keywords;
    assert SomeKeyword(lowered, GovLinksTable[0].keywords);
  }

  /**
   * A query with "license" and none of the Miami keywords gets the Alaska
   * hunting entry, which precedes the California DMV entry in the table.
   */
  lemma LicenseSelectsAlaska(lowered: string)
    requires Contains(lowered, "license")
    requires !Contains(lowered, "ticket") && !Contains(lowered, "miami") && !Contains(lowered, "pay")
    ensures FindAny(lowered, GovLinksTable) == Some(GovLinksTable[1])
  {
    assert "license" in GovLinksTable[1].keywords;
    assert !SomeKeyword(lowered, GovLinksTable[0].keywords);
    assert SomeKeyword(lowered, GovLinksTable[1].keywords);
    assert GovLinksTable[1..][0] == GovLinksTable[1];
  }

  /** A keyword with an upper-case letter never matches: it is compared with the lowercased query. */
  lemma UppercaseKeywordNeverMatches(query: string, keyword: string, k: nat)
    requires k < |keyword| && IsUpper(keyword[k])
    ensures !Contains(Lower(query), keyword)
  {
  }

  /** Every keyword in the table is already lowercase. */
  lemma TableKeywordsAreLowercase()
    ensures forall e, k :: e in GovLinksTable && k in e.keywords ==> Lower(k) == k
  {
    LowerCharwise("ticket", "ticket");
    LowerCharwise("miami", "miami");
    LowerCharwise("pay", "pay");
    LowerCharwise("hunting", "hunting");
    LowerCharwise("license", "license");
    LowerCharwise("alaska", "alaska");
    LowerCharwise("dmv", "dmv");
    LowerCharwise("renew", "renew");
    LowerCharwise("california", "california");
  }

  /**
   * Hence, on this table, matching is case-insensitive: a table keyword
   * occurs in the lowercased query iff its lowercased form does.
   */
  lemma TableMatchIsCaseInsensitive(query: string)
    ensures forall e, k :: e in GovLinksTable && k in e.keywords ==>
      (Contains(Lower(query), k) <==> Contains(Lower(query), Lower(k)))
  {
    TableKeywordsAreLowercase();
  }
}
