/**
 * The search side: the guards `searchVideos` checks before any request, and
 * `renderSearchResults`, which skips records without an id, hides the ones
 * the keywords forbid, counts both kinds and picks the summary message.
 */
module Search {
  import opened Wrappers
  import opened Seqs
  import opened Videos
  import opened Keywords
  import opened ContentFilter

  /** What a click on the search button leads to, before any network traffic. */
  datatype SearchStart =
    | MissingApiKey                            // error message, configuration panel opened
    | MissingQuery                             // "please type a query"
    | Request(query: string, apiKey: string)   // the search request is sent

  /**
   * The guards of `searchVideos`: the API key is checked first, then the
   * query; the query is sent as typed (it is not trimmed).
   */
  function StartSearch(apiKey: string, query: string): (d: SearchStart)
    ensures d.Request? <==> apiKey != "" && query != ""
    ensures d.Request? ==> d == Request(query, apiKey)
    ensures d == MissingApiKey <==> apiKey == ""
  {
    if apiKey == "" then MissingApiKey
    else if query == "" then MissingQuery
    else Request(query, apiKey)
  }

  /** The message `renderSearchResults` adds or shows in place of the grid. */
  datatype Summary =
    | AllFiltered(count: nat)    // "N videos were filtered out", in place of the grid
    | NoMatches                  // "no videos matched", in place of the grid
    | FilteredInfo(count: nat)   // info banner above the rendered grid
    | NoSummary                  // the grid alone

  /**
   * The message chosen from the two counters. It reports a count exactly
   * when something was filtered, the count it reports is the filtered count,
   * and it replaces the grid exactly when nothing was rendered.
   */
  function SummaryFor(filteredCount: nat, renderedCount: nat): (m: Summary)
    ensures (m.AllFiltered? || m.FilteredInfo?) <==> filteredCount > 0
    ensures (m.AllFiltered? || m.FilteredInfo?) ==> m.count == filteredCount
    ensures (m.AllFiltered? || m.NoMatches?) <==> renderedCount == 0
  {
    if renderedCount == 0 && filteredCount > 0 then AllFiltered(filteredCount)
    else if renderedCount == 0 && filteredCount == 0 then NoMatches
    else if filteredCount > 0 then FilteredInfo(filteredCount)
    else NoSummary
  }

  /** The records that are rendered: those with an id that the keywords do not forbid, in order. */
  ghost function Rendered(videos: seq<Video>, keywords: seq<string>): seq<Video> {
    if videos == [] then []
    else
      var last := videos[|videos| - 1];
      Rendered(videos[..|videos| - 1], keywords)
        + (if HasId(last) && !Forbidden(last.snippet, keywords) then [last] else [])
  }

  /** Number of records with an id that the keywords forbid. */
  ghost function FilteredOut(videos: seq<Video>, keywords: seq<string>): nat {
    if videos == [] then 0
    else
      var last := videos[|videos| - 1];
      FilteredOut(videos[..|videos| - 1], keywords)
        + (if HasId(last) && Forbidden(last.snippet, keywords) then 1 else 0)
  }

  /** Number of records with an id. */
  function WithId(videos: seq<Video>): nat {
    if videos == [] then 0
    else WithId(videos[..|videos| - 1]) + (if HasId(videos[|videos| - 1]) then 1 else 0)
  }

  /** Every record with an id is either rendered or counted as filtered; the others are in neither. */
  lemma {:induction false} CountersAddUp(videos: seq<Video>, keywords: seq<string>)
    ensures FilteredOut(videos, keywords) + |Rendered(videos, keywords)| == WithId(videos)
    decreases |videos|
  {
    if videos != [] {
      CountersAddUp(videos[..|videos| - 1], keywords);
    }
  }

  /**
   * A record is rendered exactly when it is in the input, has an id and is
   * not forbidden; rendered records keep their input order.
   */
  lemma {:induction false} RenderedSpec(videos: seq<Video>, keywords: seq<string>)
    ensures forall v :: v in Rendered(videos, keywords)
                    <==> v in videos && HasId(v) && !Forbidden(v.snippet, keywords)
    ensures IsSubsequence(Rendered(videos, keywords), videos)
    decreases |videos|
  {
    if videos != [] {
      var init, last := videos[..|videos| - 1], videos[|videos| - 1];
      RenderedSpec(init, keywords);
      assert videos == init + [last];
      var r := Rendered(init, keywords);
      if HasId(last) && !Forbidden(last.snippet, keywords) {
        SubsequenceSnoc(r, init, last);
      } else {
        assert r + [] == r;
        SubsequenceExtend(r, init, last);
      }
    }
  }

  /** A renderable record is rendered as many times as it occurs in the input; any other record, never. */
  lemma {:induction false} RenderedCount(videos: seq<Video>, keywords: seq<string>, w: Video)
    ensures multiset(Rendered(videos, keywords))[w]
         == if HasId(w) && !Forbidden(w.snippet, keywords) then multiset(videos)[w] else 0
    decreases |videos|
  {
    if videos != [] {
      var init, last := videos[..|videos| - 1], videos[|videos| - 1];
      RenderedCount(init, keywords, w);
      assert videos == init + [last];
    }
  }

  /** With no keywords, every record with an id is rendered and none is counted as filtered. */
  lemma {:induction false} NoKeywordsRendersAll(videos: seq<Video>)
    ensures |Rendered(videos, [])| == WithId(videos) && FilteredOut(videos, []) == 0
    decreases |videos|
  {
    if videos != [] {
      NoKeywordsRendersAll(videos[..|videos| - 1]);
    }
  }

  /**
   * `renderSearchResults`: one pass over the records, then the summary
   * message chosen from the two counters. The keyword setting, which
   * `filterVideo` reads once per record, is parsed once here: nothing changes
   * it during a render.
   */
  method RenderSearchResults(videos: seq<Video>, setting: Option<string>)
    returns (shown: seq<Video>, filteredCount: nat, renderedCount: nat, summary: Summary)
    ensures shown == Rendered(videos, ParseKeywords(setting))
    ensures renderedCount == |shown|
    ensures filteredCount == FilteredOut(videos, ParseKeywords(setting))
    ensures filteredCount + renderedCount == WithId(videos)
    ensures summary == SummaryFor(filteredCount, renderedCount)
  {
    var keywords := ParseKeywords(setting);
    shown, filteredCount, renderedCount := RenderSearchResultsWith(videos, keywords);
    CountersAddUp(videos, keywords);
    summary := SummaryFor(filteredCount, renderedCount);
  }

  /**
   * The loop of `renderSearchResults`: records without an id are skipped,
   * forbidden ones are counted, the rest are rendered in order.
   */
  method RenderSearchResultsWith(videos: seq<Video>, keywords: seq<string>)
    returns (shown: seq<Video>, filteredCount: nat, renderedCount: nat)
    ensures shown == Rendered(videos, keywords)
    ensures renderedCount == |shown|
    ensures filteredCount == FilteredOut(videos, keywords)
  {
    shown, filteredCount, renderedCount := [], 0, 0;
    var i := 0;
    while i < |videos|
      invariant 0 <= i <= |videos|
      invariant shown == Rendered(videos[..i], keywords)
      invariant filteredCount == FilteredOut(videos[..i], keywords)
      invariant renderedCount == |shown|
    {
      var video := videos[i];
      assert videos[..i + 1][..i] == videos[..i] && videos[..i + 1][i] == video;
      if HasId(video) {
        var hidden := FilterVideoWith(video.snippet, keywords);
        if hidden {
          filteredCount := filteredCount + 1;
        } else {
          shown := shown + [video];
          renderedCount := renderedCount + 1;
        }
      }
      i := i + 1;
    }
    assert videos[..i] == videos;
  }
}
