/**
 * `filterVideo`: whether a record is hidden by the keyword setting. Title and
 * description are lower-cased and searched one at a time.
 */
module ContentFilter {
  import opened Wrappers
  import opened Text
  import opened Keywords
  import opened Videos

  /** Keyword `k` occurs in the lower-cased title or in the lower-cased description. */
  ghost predicate Mentions(snippet: Snippet, k: string) {
    IsSubstring(k, Lower(snippet.title)) || IsSubstring(k, Lower(snippet.description))
  }

  /** A record is forbidden when some configured keyword is mentioned; no keywords hide nothing. */
  ghost predicate Forbidden(snippet: Snippet, keywords: seq<string>) {
    |keywords| > 0 && exists k :: k in keywords && Mentions(snippet, k)
  }

  /** `filterVideo`: reads and parses the keyword setting afresh, then checks the record against it. */
  method FilterVideo(snippet: Snippet, setting: Option<string>) returns (hidden: bool)
    ensures hidden == Forbidden(snippet, ParseKeywords(setting))
  {
    hidden := FilterVideoWith(snippet, ParseKeywords(setting));
  }

  /** The body of `filterVideo` once the keywords are parsed: no keyword returns early. */
  method FilterVideoWith(snippet: Snippet, keywords: seq<string>) returns (hidden: bool)
    ensures hidden == Forbidden(snippet, keywords)
  {
    if |keywords| == 0 {
      return false;
    }
    hidden := MentionsAny(snippet, keywords);
  }

  /** The loop of `filterVideo`: scans the keywords in order and stops at the first one mentioned. */
  method MentionsAny(snippet: Snippet, keywords: seq<string>) returns (found: bool)
    ensures found <==> exists k :: k in keywords && Mentions(snippet, k)
  {
    var title := Lower(snippet.title);
    var description := Lower(snippet.description);
    var i := 0;
    while i < |keywords|
      invariant 0 <= i <= |keywords|
      invariant forall j :: 0 <= j < i ==> !Mentions(snippet, keywords[j])
    {
      if Includes(title, keywords[i]) || Includes(description, keywords[i]) {
        assert keywords[i] in keywords && Mentions(snippet, keywords[i]);
        return true;
      }
      i := i + 1;
    }
    return false;
  }

  /** A setting of only commas and whitespace, or no setting at all, hides no record. */
  lemma BlankSettingHidesNothing(snippet: Snippet, s: string)
    requires forall c :: c in s ==> c == ',' || IsWhitespace(c)
    ensures !Forbidden(snippet, ParseKeywords(Some(s)))
    ensures !Forbidden(snippet, ParseKeywords(None))
  {
    NoKeywordsIff(s);
    NoKeywordsIff("");
  }

  /** Matching ignores the case of the record's text. */
  lemma {:induction false} CaseInsensitive(snippet: Snippet, keywords: seq<string>)
    ensures var lowered := Snippet(Lower(snippet.title), Lower(snippet.description));
      Forbidden(snippet, keywords) <==> Forbidden(lowered, keywords)
  {
    LowerIsLower(snippet.title);
    LowerIsLower(snippet.description);
    LowerOfLower(Lower(snippet.title));
    LowerOfLower(Lower(snippet.description));
  }

  /**
   * Title and description are searched one at a time: a keyword spanning the
   * two fields does not hide the record, although it occurs in their
   * space-joined text.
   */
  lemma FieldsCheckedSeparately()
    ensures !Forbidden(Snippet("ab", "cd"), ["b c"])
    ensures IsSubstring("b c", Lower("ab" + " " + "cd"))
  {
    assert "ab" + " " + "cd" == "ab cd";
    assert Lower("ab cd")[1..4] == "b c";
    assert OccursAt("b c", Lower("ab cd"), 1);
  }

  /** The setting "b c" yields the one keyword "b c". */
  lemma SpacedKeyword()
    ensures ParseKeywords(Some("b c")) == ["b c"]
  {
    SingleKeyword("b c");
  }

  /** The setting "prank" hides "Epic Prank Compilation" and shows "Cooking Tutorial". */
  lemma PrankExample()
    ensures Forbidden(Snippet("Epic Prank Compilation", ""), ParseKeywords(Some("prank")))
    ensures !Forbidden(Snippet("Cooking Tutorial", ""), ParseKeywords(Some("prank")))
  {
    SingleKeyword("prank");
    PrankMatches();
  }

  lemma PrankMatches()
    ensures Forbidden(Snippet("Epic Prank Compilation", ""), ["prank"])
    ensures !Forbidden(Snippet("Cooking Tutorial", ""), ["prank"])
  {
    PrankHit();
    PrankMiss();
  }

  /** "prank" occurs in the lower-cased title "epic prank compilation". */
  lemma PrankHit()
    ensures Mentions(Snippet("Epic Prank Compilation", ""), "prank")
  {
    var title := "Epic Prank Compilation";
    LowerAt(title);
    assert Lower(title)[5..10] == "prank";
    assert OccursAt("prank", Lower(title), 5);
  }

  /** "prank" occurs in neither field of "Cooking Tutorial". */
  lemma PrankMiss()
    ensures !Mentions(Snippet("Cooking Tutorial", ""), "prank")
  {
    var lowered := Lower("Cooking Tutorial");
    assert forall j :: 0 <= j < |lowered| ==> lowered[j] != 'p';
    forall i
      ensures !OccursAt("prank", lowered, i) && !OccursAt("prank", Lower(""), i)
    {
      if 0 <= i && i + 5 <= |lowered| {
        assert lowered[i..i + 5][0] == lowered[i];
      }
    }
  }
}
