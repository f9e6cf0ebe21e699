# YouTube search with a keyword filter and a viewing history — verified model

The application searches YouTube, hides every result whose title or
description mentions one of the user's filter keywords, and keeps a
history of the videos watched. This project models, in Dafny, the logic of
`script.js` that decides what is shown and what is stored:

- `getFilterKeywords` — the stored comma-separated setting becomes a list
  of trimmed, lower-cased, non-empty keywords (module `Keywords`, on top of
  the string operations of module `Text`).
- `filterVideo` — a record is hidden exactly when some keyword occurs in its
  lower-cased title or in its lower-cased description, each field searched
  on its own; with no keyword nothing is hidden (module `ContentFilter`).
  The early-return loop over the keywords is the method `MentionsAny`.
- `addToHistory` — entries with the watched video's id are removed, the
  video is put in front and the list is cut to `MAX_HISTORY_ITEMS` = 20;
  the stored list is passed in and the new list returned (module `History`).
- `renderHistory` — a placeholder for an empty history, the entries the
  filter does not hide in stored order, or a second placeholder when the
  filter hides them all (module `History`).
- `renderSearchResults` — records without an id are skipped, the forbidden
  ones are counted, the rest are rendered in order, and the summary message
  is chosen from the two counters (module `Search`).
- the guards of `searchVideos` — no request without an API key (checked
  first) or without a query (module `Search`).

Each loop of the source is a method with loop invariants, proved against a
ghost function that states the result (`Rendered`, `FilteredOut`,
`Unhidden`, `Forbidden`); the properties the application relies on are
proved as lemmas about those functions and about `Recorded`, the function
that states the new history. Rendered output is modelled as the sequence of
records shown plus a tag for the message (`HistoryView`, `Summary`).

Three details of `script.js` shape the model: the filter searches the
title and the description separately (script.js:89-93; a keyword spanning
the two fields does not match, see `ContentFilter.FieldsCheckedSeparately`),
the search query is sent as typed, without trimming (script.js:204-205),
and the history cap is 20 (script.js:5).

## Model

| member | source | states |
|---|---|---|
| Keywords.KeywordsAreNormal | script.js:80-83 | every parsed keyword is non-empty, trimmed and lower-case |
| Keywords.NoKeywordsIff | script.js:81-82 | the setting yields no keyword exactly when it holds only commas and whitespace; an absent setting parses like "" |
| Keywords.ParseKeywordsConcat | script.js:82 | keywords keep their order: parsing `a,b` gives the keywords of `a` followed by those of `b` |
| Keywords.ParseKeywordsOfJoin | script.js:82 | a list of well-formed keywords, saved comma-joined, parses back to the same list |
| Keywords.NormalizeShape | script.js:82 | the map-and-filter step keeps only non-empty, trimmed, lower-case strings |
| Keywords.NormalizeConcat | script.js:82 | the map-and-filter step distributes over concatenation (order is kept) |
| Keywords.NormalizeEmptyIff | script.js:82 | the map-and-filter step drops everything exactly when every piece is blank |
| Keywords.NormalizeFixed | script.js:82 | well-formed keywords pass the map-and-filter step unchanged |
| Keywords.SingleKeyword | script.js:80-83 | a setting holding one well-formed keyword yields exactly that keyword |
| Keywords.NormalizedShape | script.js:82 | a trimmed-then-lower-cased piece is trimmed and lower-case |
| Keywords.NormalizedEmptyIff | script.js:82 | a piece normalizes to "" exactly when it is blank |
| Text.LeadingBlankSpec | script.js:82 | the leading count covers exactly the run of whitespace at the start |
| Text.TrailingBlankSpec | script.js:82 | the trailing count covers exactly the run of whitespace at the end |
| Text.TrimSpec | script.js:82 | `trim` returns a trimmed slice of its input with only whitespace cut off either end |
| Text.TrimOfTrimmed | script.js:82 | `trim` leaves a trimmed string unchanged |
| Text.TrimEmptyIff | script.js:82 | `trim` gives "" exactly for a blank string |
| Text.LowerIsLower | script.js:82 | `toLowerCase` leaves no upper-case letter |
| Text.LowerOfLower | script.js:82 | `toLowerCase` is the identity on a string without upper-case letters (so it is idempotent) |
| Text.LowerKeepsTrimmed | script.js:82 | `toLowerCase` of a trimmed string is trimmed |
| Text.JoinSplit | script.js:82 | joining the pieces of `split(sep)` with `sep` gives the input back, and no piece contains `sep` |
| Text.SplitJoin | script.js:82 | splitting a join of separator-free pieces gives the pieces back |
| Text.SplitConcat | script.js:82 | splitting `a + sep + b` is splitting `a` and `b` separately |
| Text.SplitNoSep | script.js:82 | a string without the separator splits into itself alone |
| Text.Includes | script.js:93 | `includes` is true exactly when the keyword occurs at some position of the text |
| ContentFilter.FilterVideo | script.js:85-98 | the result is true exactly when the parsed setting is non-empty and some keyword is mentioned in the title or in the description |
| ContentFilter.FilterVideoWith | script.js:86-97 | with the keywords already parsed: no keyword returns false, otherwise the result is whether some keyword is mentioned |
| ContentFilter.MentionsAny | script.js:89-97 | the loop returns true exactly when some keyword occurs in the lower-cased title or the lower-cased description |
| ContentFilter.BlankSettingHidesNothing | script.js:81-87 | an absent setting, or one of only commas and whitespace, hides no record |
| ContentFilter.CaseInsensitive | script.js:89-90 | a record is hidden exactly when its lower-cased copy is |
| ContentFilter.FieldsCheckedSeparately | script.js:89-93 | a keyword that occurs only across the title/description boundary does not hide the record |
| ContentFilter.SpacedKeyword | script.js:82 | the setting "b c" yields the single keyword "b c" (inner spaces are kept) |
| ContentFilter.PrankExample | script.js:80-97 | the setting "prank" hides "Epic Prank Compilation" and does not hide "Cooking Tutorial" |
| ContentFilter.PrankMatches | script.js:89-97 | the keyword "prank" is mentioned by the first title and not by the second |
| ContentFilter.PrankHit | script.js:89-93 | "prank" occurs in the lower-cased "Epic Prank Compilation" |
| ContentFilter.PrankMiss | script.js:89-93 | "prank" occurs in neither field of "Cooking Tutorial" |
| History.RemoveIdCount | script.js:111 | after the id filter no entry has the removed id and every other id keeps its number of entries |
| History.RemoveIdLength | script.js:111 | the id filter drops exactly the entries with that id |
| History.RemoveIdOrder | script.js:111 | the id filter keeps the remaining entries in their order |
| History.RemoveIdAbsent | script.js:111 | the id filter changes nothing when no entry has the id |
| History.RemoveIdConcat | script.js:111 | the id filter distributes over concatenation |
| History.RecordedDropsOldest | script.js:111-117 | the watched video is first, the length is the smaller of the cap and the old length minus its copies plus one, and the rest is the filtered old list cut only at its oldest end |
| History.RecordedUnique | script.js:108-114 | exactly one entry carries the watched video's id |
| History.RecordedNoNewDuplicates | script.js:108-117 | every other id has at most as many entries as before |
| History.RecordedKeepsOrder | script.js:111-117 | the entries behind the new one are old entries in their old relative order |
| History.RecordedIdempotent | script.js:104-117 | watching the same video twice in a row stores the same list as watching it once |
| History.RecordedKeepsUnique | script.js:108-117 | a history with one entry per id keeps one entry per id |
| History.ReplayKeepsInvariant | script.js:5 | whatever sequence of videos is watched, a history within the cap and free of duplicate ids stays so |
| History.MoveToFrontExample | script.js:111-117 | with cap 3, watching A, B, C and then A stores [A, C, B] |
| History.MoveToFrontSteps | script.js:111-117 | the four stored lists of that scenario: [A], [B, A], [C, B, A], [A, C, B] |
| History.UnhiddenCount | script.js:133-138 | a stored entry that is not forbidden is listed as many times as it is stored; a forbidden one is never listed |
| History.UnhiddenSpec | script.js:133-138 | an entry is listed exactly when it is stored and not forbidden, and the listed entries keep the stored order |
| History.RenderHistory | script.js:123-143 | the view is the "nothing watched" placeholder exactly for an empty history, the "all filtered" placeholder exactly when every entry is hidden, and otherwise the unhidden entries in order |
| History.RenderHistoryWith | script.js:128-142 | the same, for keywords already parsed |
| History.AddToHistory | script.js:104-121 | the stored list is the recorded one: the video first, 1 to 20 entries, one entry with its id, no duplicate ids created; and the view rendered from it |
| Search.StartSearch | script.js:198-208 | a request is sent exactly when the API key and the query are both non-empty, with the query as typed; a missing key is reported exactly when the key is empty, before the query is looked at |
| Search.SummaryFor | script.js:264-270 | a count is reported exactly when something was filtered, and it is the filtered count; the grid is replaced exactly when nothing was rendered |
| Search.CountersAddUp | script.js:250-262 | filtered plus rendered equals the number of records with an id |
| Search.RenderedCount | script.js:250-262 | a record with an id that is not forbidden is rendered as many times as it occurs in the input; any other record is never rendered |
| Search.RenderedSpec | script.js:250-262 | a record is rendered exactly when it has an id and is not forbidden; rendered records keep their input order |
| Search.NoKeywordsRendersAll | script.js:250-262 | with no keyword every record with an id is rendered and none is counted as filtered |
| Search.RenderSearchResults | script.js:244-271 | the rendered records, both counters and the summary message are those `Rendered`, `FilteredOut` and `SummaryFor` define, and the counters add up to the records with an id |
| Search.RenderSearchResultsWith | script.js:250-262 | the loop renders exactly the unforbidden records with an id, in order, and counts the forbidden ones |

## Left out

- The network request of `searchVideos` (URL parameters, `fetch`, the API error and empty-result messages, script.js:210-241): network I/O; the model stops at the decision to send a request.
- The DOM: `createVideoElement`, the iframe and its `focus` listener, `toggleConfig`, `loadConfig`, `saveApiKey`, `saveKeywords` and the page wiring: user interface only. Rendered output is the list of records shown plus a message tag; the source adds to the history only when the player of a search result gets focus (entries watched from the history panel are never re-added); that event becomes an explicit `AddToHistory` call.
- `localStorage` and JSON: the stored history and the keyword setting are values passed in (an absent history item reads as the empty list, an absent setting as `None`, which parses like ""); the new history is returned instead of written. Malformed stored JSON makes `JSON.parse` throw in the source; the model has no such input.
- Text.Lower: lower-cases the ASCII letters only, not the full Unicode case mapping of `toLowerCase`.
- Videos.Video: keeps only `id.videoId` (as an optional string, where a missing `id` and a missing `videoId` are both `None`), the title and the description; the other fields of a record are only displayed. A record whose snippet lacks a title or description cannot be written in the model; the source throws on such a record only when at least one keyword is set (with none, `filterVideo` returns before reading the fields).
- History.AddToHistory: the source throws a TypeError when the watched video, or a stored entry, has no `id` object (reading `id.videoId`); the model reads such an id as `None` and returns a history. The only caller passes a search result that passed the id check of `renderSearchResults`.
- Search.RenderSearchResults and History.RenderHistory: parse the keyword setting once per render, where the source re-reads it for every record; nothing can change it during a render.
- The application has no autoplay, pagination or view routing in this file, so none is modelled.
