/**
 * The keyword setting: one stored comma-separated string, parsed afresh on
 * every filter check into trimmed, lower-cased, non-empty keywords.
 */
module Keywords {
  import opened Wrappers
  import opened Text

  /** A keyword as the parser can produce it, and as a comma-joined setting can carry it. */
  predicate IsKeyword(k: string) {
    k != "" && IsTrimmed(k) && IsLower(k) && ',' !in k
  }

  /** One comma-separated piece: trimmed, then lower-cased. */
  function NormalizeKeyword(piece: string): string {
    Lower(Trim(piece))
  }

  /** A normalized piece is trimmed and lower-case. */
  lemma NormalizedShape(piece: string)
    ensures IsTrimmed(NormalizeKeyword(piece)) && IsLower(NormalizeKeyword(piece))
  {
    TrimSpec(piece);
    LowerKeepsTrimmed(Trim(piece));
    LowerIsLower(Trim(piece));
  }

  /** A piece normalizes to the empty string exactly when it is blank. */
  lemma NormalizedEmptyIff(piece: string)
    ensures NormalizeKeyword(piece) == "" <==> Blank(piece)
  {
    TrimEmptyIff(piece);
  }

  /** The `map` and `filter` steps: normalize every piece and keep the non-empty results, in order. */
  function Normalize(pieces: seq<string>): seq<string> {
    if pieces == [] then []
    else
      var k := NormalizeKeyword(pieces[0]);
      (if k == "" then [] else [k]) + Normalize(pieces[1..])
  }

  /**
   * `getFilterKeywords`: an absent setting reads as the empty string, which
   * is split at every comma.
   */
  function ParseKeywords(setting: Option<string>): seq<string> {
    Normalize(Split(setting.GetOr(""), ','))
  }

  /** Every parsed keyword is non-empty, trimmed and lower-case. */
  lemma KeywordsAreNormal(setting: Option<string>)
    ensures forall k :: k in ParseKeywords(setting) ==> k != "" && IsTrimmed(k) && IsLower(k)
  {
    NormalizeShape(Split(setting.GetOr(""), ','));
  }

  lemma {:induction false} NormalizeShape(pieces: seq<string>)
    ensures forall k :: k in Normalize(pieces) ==> k != "" && IsTrimmed(k) && IsLower(k)
    decreases |pieces|
  {
    if pieces != [] {
      NormalizedShape(pieces[0]);
      NormalizeShape(pieces[1..]);
    }
  }

  lemma {:induction false} NormalizeConcat(a: seq<string>, b: seq<string>)
    ensures Normalize(a + b) == Normalize(a) + Normalize(b)
    decreases |a|
  {
    if a == [] {
      assert a + b == b;
    } else {
      var ab := a + b;
      assert ab[0] == a[0] && ab[1..] == a[1..] + b;
      NormalizeConcat(a[1..], b);
      var k := NormalizeKeyword(a[0]);
      var head := if k == "" then [] else [k];
      assert Normalize(ab) == head + Normalize(ab[1..]);
      assert Normalize(a) == head + Normalize(a[1..]);
    }
  }

  lemma {:induction false} NormalizeEmptyIff(pieces: seq<string>)
    ensures Normalize(pieces) == [] <==> forall p :: p in pieces ==> Blank(p)
    decreases |pieces|
  {
    if pieces != [] {
      NormalizedEmptyIff(pieces[0]);
      NormalizeEmptyIff(pieces[1..]);
      assert pieces == [pieces[0]] + pieces[1..];
    }
  }

  lemma {:induction false} NormalizeFixed(ks: seq<string>)
    requires forall k :: k in ks ==> IsKeyword(k)
    ensures Normalize(ks) == ks
    decreases |ks|
  {
    if ks != [] {
      assert ks[0] in ks;
      TrimOfTrimmed(ks[0]);
      LowerOfLower(ks[0]);
      NormalizeFixed(ks[1..]);
      assert ks == [ks[0]] + ks[1..];
    }
  }

  /** The characters of a join are the separator and the characters of the pieces. */
  lemma {:induction false} JoinChars(pieces: seq<string>, sep: char)
    ensures forall c :: c in Join(pieces, sep) ==> c == sep || exists p :: p in pieces && c in p
    ensures forall p, c :: p in pieces && c in p ==> c in Join(pieces, sep)
    decreases |pieces|
  {
    if |pieces| > 1 {
      JoinChars(pieces[1..], sep);
      assert pieces == [pieces[0]] + pieces[1..];
    }
  }

  /**
   * The setting yields no keyword exactly when it holds nothing but commas
   * and whitespace; an absent setting reads as "".
   */
  lemma {:induction false} NoKeywordsIff(s: string)
    ensures ParseKeywords(Some(s)) == [] <==> forall c :: c in s ==> c == ',' || IsWhitespace(c)
    ensures ParseKeywords(None) == ParseKeywords(Some(""))
  {
    var pieces := Split(s, ',');
    JoinSplit(s, ',');
    JoinChars(pieces, ',');
    NormalizeEmptyIff(pieces);
  }

  /** Keywords keep their order: the keywords of `a,b` are those of `a` followed by those of `b`. */
  lemma ParseKeywordsConcat(a: string, b: string)
    ensures ParseKeywords(Some(a + [','] + b)) == ParseKeywords(Some(a)) + ParseKeywords(Some(b))
  {
    SplitConcat(a, b, ',');
    NormalizeConcat(Split(a, ','), Split(b, ','));
  }

  /** Saving keywords as one comma-joined setting and parsing it back gives the same list. */
  lemma ParseKeywordsOfJoin(ks: seq<string>)
    requires forall k :: k in ks ==> IsKeyword(k)
    ensures ParseKeywords(Some(Join(ks, ','))) == ks
  {
    if ks != [] {
      SplitJoin(ks, ',');
      NormalizeFixed(ks);
    }
  }

  /** A setting holding one well-formed keyword yields exactly that keyword. */
  lemma SingleKeyword(k: string)
    requires IsKeyword(k)
    ensures ParseKeywords(Some(k)) == [k]
  {
    assert Join([k], ',') == k;
    ParseKeywordsOfJoin([k]);
  }
}
