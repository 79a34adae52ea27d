# EZGOV link resolution, modelled in Dafny

EZGOV answers a free-text civic question ("pay my miami traffic ticket")
with an official link and a short summary. Two near-identical Next.js API
handlers hold the decision logic, and this project models both of them.
Each handler first tries a curated keyword match, then falls back to one
chat-completion call and pulls a URL out of the reply.

- `pages/api/govlink.js` reads curated entries from the `curated_links`
  table. It uses a strict-all policy: an entry qualifies when every keyword,
  lowercased, occurs in the lowercased query. The first qualifying entry wins.
  If none qualifies, the model reply is searched with `/https?:\/\/[^\s)]+/`.
  The link is kept only if it mentions `.gov` or `.org`. The summary is the
  reply with that link removed and trimmed. A note is added when no link
  survives. Curated and model answers are logged to the `queries` table;
  the 500 reply is not.
- `pages/api/govlinks.js` uses a constant table of three entries. It takes
  the first entry that has any one keyword in the lowercased query. Keywords
  are not lowercased. If nothing matches, it takes the first match of
  `/(https?:\/\/[\w./\-?&=#%]+)/g` from the reply, with no domain check,
  and always adds an OpenAI note.

Modules:

- `Wrappers`: `Option`.
- `Text`: the JavaScript string built-ins the handlers use: `toLowerCase`,
  `includes`/`indexOf`, `replace(string, "")` and `trim`. `trim` uses the
  ECMAScript whitespace set, which is also what the regex `\s` matches.
- `UrlExtract`: leftmost-match semantics of the two link patterns. Each is a
  scheme followed by a greedy, non-empty run of one character class. The
  module has a declarative description of a match (`IsUrlSpan`, `MatchesAt`)
  and the scan that finds it.
- `Api`: the reply body, the log row, the status and the completion input.
- `GovLink`: `govlink.js`. The matcher is a method with a loop and
  invariants, proved against `FirstStrict`. The reply shaping is a set of
  functions.
- `GovLinks`: `govlinks.js`, written as functions (`find`/`some` over a
  constant table).

The model takes the chat-completion result as a parameter (`Completion`):
either the call threw, or it returned a message whose content may be null.
The curated collection is also a parameter. The `queries` insert appears as
the `logged` field of the outcome.

Some facts about the code that the model keeps:

- matching is strict-all in govlink.js and any-keyword in govlinks.js; the
  first qualifying entry in order wins, with no scoring among entries;
- each handler calls the model at most once per query;
- when no link survives, govlink.js returns an empty link and a note
  pointing at usa.gov;
- the `source` tag of a model answer is written only to the logged row
  (govlink.js:98-104), not to the JSON reply (govlink.js:106-110).

## Model

| member | source | states |
|---|---|---|
| `Text.LowerIgnoresCase` | pages/api/govlink.js:39 | two strings lowercase to the same text iff, position by position, their characters are equal or are an ASCII capital and its small letter |
| `Text.Lower` | pages/api/govlinks.js:35 | lowercasing keeps the length and leaves no upper-case letter |
| `Text.IndexOf` | pages/api/govlink.js:107 | the result is the leftmost index where the needle occurs, or none when it occurs nowhere |
| `Text.Contains` | pages/api/govlink.js:45 | `includes` holds iff the needle occurs at some index; the empty needle is in every string |
| `Text.RemoveFirst` | pages/api/govlink.js:107 | `replace(t, "")` deletes the first occurrence of `t` (length drops by `|t|`) and leaves the string unchanged when `t` is absent |
| `Text.RemoveEmptyIsIdentity` | pages/api/govlinks.js:71 | removing the empty string (no link extracted) leaves the reply unchanged |
| `Text.LeadingSpaceLen` | pages/api/govlink.js:107 | the front part `trim` drops is all whitespace and is followed by a non-whitespace character or the end |
| `Text.TrailingSpaceLen` | pages/api/govlink.js:107 | the back part `trim` drops is all whitespace and is preceded by a non-whitespace character or the start |
| `Text.Trim` | pages/api/govlinks.js:71 | the result is the piece of the input that starts right after the leading whitespace and is followed only by whitespace, and it neither starts nor ends with whitespace |
| `Text.TrimIsIdempotent` | pages/api/govlink.js:107 | trimming a trimmed summary changes nothing |
| `UrlExtract.RunLen` | pages/api/govlink.js:88 | the greedy `+` takes a run of allowed characters that stops only at the end or at a disallowed character |
| `UrlExtract.FirstUrl` | pages/api/govlink.js:88 | no match exactly when the pattern matches at no index; otherwise a scheme plus a maximal non-empty run, starting at the leftmost index where the pattern matches |
| `UrlExtract.ExtractLink` | pages/api/govlinks.js:68 | `match(re)?.[0] \|\| ""` is "" iff the pattern matches at no index; otherwise it is exactly the reply's text over the leftmost, maximal match span from `FirstUrl` (scheme through the end of the greedy run) |
| `UrlExtract.ExtractedLinkShape` | pages/api/govlink.js:88-89 | a non-empty extracted link starts with `http://` or `https://`, followed by a non-empty run of class characters |
| `UrlExtract.StrictLinkHasNoSpaceOrParen` | pages/api/govlink.js:88 | a link cut with `[^\s)]` contains no whitespace and no `)` anywhere |
| `UrlExtract.LinkFirstOccursAtMatch` | pages/api/govlink.js:88-107 | the first occurrence of the extracted text in the reply is the regex match itself, because an earlier copy would be an earlier match |
| `UrlExtract.SameTextSameMatch` | pages/api/govlinks.js:67-68 | any copy of a match's text is itself a position where the pattern matches |
| `UrlExtract.RemoveLinkCutsMatch` | pages/api/govlinks.js:68-71 | removing the extracted link from the reply removes exactly the matched range |
| `UrlExtract.WholeStringIsLink` | pages/api/govlink.js:88-89 | a reply that is `https://` followed only by class characters is matched and extracted whole, from index 0 to the end |
| `UrlExtract.WholeReplyIsWordLink` | pages/api/govlinks.js:67-68 | a reply made only of an example.com URL is extracted whole by the `[\w./\-?&=#%]` pattern |
| `UrlExtract.WholeReplyIsStrictLink` | pages/api/govlink.js:88-89 | the same reply is extracted whole by the `[^\s)]` pattern |
| `GovLink.KeywordsOf` | pages/api/govlink.js:43 | `entry.keywords \|\| []`: missing keywords count as none, present keywords are used as given |
| `GovLink.Qualifies` | pages/api/govlink.js:48 | `score >= keywords.length` holds exactly when the score equals the keyword count |
| `GovLink.Score` | pages/api/govlink.js:43-46 | the score never exceeds the keyword count |
| `GovLink.FullScoreIffAllKeywords` | pages/api/govlink.js:43-46 | the score equals the keyword count iff every lowercased keyword occurs in the query |
| `GovLink.FirstStrict` | pages/api/govlink.js:40-52 | no result iff no entry qualifies; otherwise the entry at the first qualifying index |
| `GovLink.FindStrictMatch` | pages/api/govlink.js:39-52 | the loop over entries returns the first entry whose score reaches its keyword count, or none (always none for an empty collection) |
| `GovLink.QualifiesIffAllKeywords` | pages/api/govlink.js:43-48 | `score >= keywords.length` holds iff all keywords, lowercased, are substrings of the query |
| `GovLink.FirstQualifyingIsFound` | pages/api/govlink.js:40-52 | whichever entry is the first to qualify is the one the scan returns |
| `GovLink.LaterEntriesIgnored` | pages/api/govlink.js:48-51 | once an entry wins, appending further entries does not change the result |
| `GovLink.KeywordlessEntryMatchesEverything` | pages/api/govlink.js:43-48 | an entry with missing or empty keywords qualifies for every query, so the winner is at or before it |
| `GovLink.StrictMatchIgnoresQueryCase` | pages/api/govlink.js:39-45 | queries that differ only in letter case select the same entry |
| `GovLink.DmvEntryMatchesRenewal` | pages/api/govlink.js:42-52 | the pieces spell "I need to renew my California driver's license at the DMV", and the entry with keywords dmv, license, renew, california qualifies for it |
| `GovLink.DmvEntryRejectsFishing` | pages/api/govlink.js:42-52 | the same entry does not qualify for "I need a fishing license" |
| `GovLink.SafeLink` | pages/api/govlink.js:91-94 | the kept link is "" or the extracted link; a kept link mentions `.gov` or `.org`; an extracted link that mentions either is kept |
| `GovLink.SafeLinkExamples` | pages/api/govlink.js:91-94 | `https://example.com/info` is dropped and `https://www.irs.gov/payments` is kept |
| `GovLink.CuratedOutcome` | pages/api/govlink.js:54-63 | a curated hit replies with status 200, the entry's summary and link, source "curated" and no note, and logs the query with source "curated" and the same link |
| `GovLink.ModelOutcome` | pages/api/govlink.js:87-116 | a failed call gives status 500, an empty link and no log row; a reply gives status 200, a log row and no `source` in the body |
| `GovLink.ModelReplyFields` | pages/api/govlink.js:87-110 | the link is "" or the extracted `.gov`/`.org` link; the logged source is `gpt-3.5` iff the link is non-empty, else `gpt-3.5-fallback`; the note is present iff the link is ""; the summary is the trimmed reply with the match range cut out, or the trimmed reply when the link is "" |
| `GovLink.OtherDomainIsDropped` | pages/api/govlink.js:88-110 | a reply consisting of an example.com URL yields an empty link, the usa.gov note and the fallback source |
| `GovLink.HandleGovLink` | pages/api/govlink.js:39-64 | on a curated hit, the reply is status 200 with the entry's summary and link and source "curated", the same link is logged, and the model's reply plays no part; otherwise the model outcome is returned |
| `GovLinks.SomeKeyword` | pages/api/govlinks.js:35 | `some` holds iff some keyword, as written, occurs in the lowercased query |
| `GovLinks.FindAny` | pages/api/govlinks.js:34-36 | `find` gives nothing iff no table entry has a keyword in the query; otherwise the first such entry in table order |
| `GovLinks.HandleGovLinks` | pages/api/govlinks.js:29-81 | a table hit returns that entry's summary and link; otherwise a reply returns status 200, whatever link the pattern extracts, no source, the OpenAI note, and as summary the output with the match range cut out, trimmed (the whole output trimmed when nothing matches); a failed call or null content gives the 500 reply; nothing is logged |
| `GovLinks.AnyDomainIsReturned` | pages/api/govlinks.js:67-73 | an example.com link is returned as the link (no domain check), and the remaining summary is "" |
| `GovLinks.MiamiTicketExample` | pages/api/govlinks.js:7-41 | the pieces spell "pay my miami traffic ticket", and that query returns the Miami entry's summary and link, whatever the model result |
| `GovLinks.LicenseSelectsAlaska` | pages/api/govlinks.js:12-36 | a query with "license" but none of ticket, miami or pay selects the Alaska hunting entry, ahead of the California DMV entry |
| `GovLinks.UppercaseKeywordNeverMatches` | pages/api/govlinks.js:35 | a keyword containing an upper-case letter never occurs in the lowercased query |
| `GovLinks.TableKeywordsAreLowercase` | pages/api/govlinks.js:6-22 | every keyword in the constant table is already lowercase |
| `GovLinks.TableMatchIsCaseInsensitive` | pages/api/govlinks.js:6-36 | on this table, a keyword occurs in the lowercased query iff its lowercased form does, so matching ignores the query's case |

## Left out

- The HTTP method check and the 405 reply (govlink.js:20-22, govlinks.js:25-27): framework plumbing.
- Reading `curated_links` (govlink.js:28-36): the collection is a parameter. When the read fails, `curatedLinks` is null and the `for…of` throws outside the `try`. The model does not cover that crash. Its parameter is always a sequence.
- The `queries` inserts (govlink.js:55-57, 98-104) appear only as the logged row. A failed insert, and how awaiting it is ordered against the reply, are not modelled.
- The chat-completion calls (govlink.js:71-85, govlinks.js:48-62): the system prompt, the message list, `max_tokens` and the model name are not modelled. The call's result is the `Completion` input. A reply without `choices[0]` counts as a failed call.
- `devLog` and `console` output.
- pages/api/addCuratedLink.js (a pass-through insert), pages/index.js and pages/admin.js (React UI, including the keyword split at admin.js:17) are not part of this model.
- `entry.keywords || []` is modelled as "missing means empty". Other falsy or non-array values of `keywords` are not modelled.
- Text.Lower: maps only ASCII `A`-`Z`. JavaScript's full Unicode case mapping is not modelled, including mappings that change the length.
- Strings are sequences of Unicode scalar values. JavaScript strings are UTF-16 code units. Characters outside the Basic Multilingual Plane differ, and the regex classes and `trim` treat them the same either way. Unpaired surrogates, which a JavaScript string can hold, cannot be represented at all.
- A missing or non-string `query` (govlink.js:39, govlinks.js:35) makes `toLowerCase` throw outside the `try`. The query parameter is a string, so that crash is not modelled.
