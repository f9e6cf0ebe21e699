/**
 * The string primitives the filter pipeline calls: `String.prototype.trim`,
 * `toLowerCase`, `split` and `includes`, on strings of Unicode characters.
 */
module Text {

  /** ECMAScript's WhiteSpace and LineTerminator characters, which `trim` removes. */
  predicate IsWhitespace(c: char) {
    || c == '\t' || c == '\n' || c == '\U{000B}' || c == '\U{000C}' || c == '\r'
    || c == ' ' || c == '\U{00A0}' || c == '\U{1680}'
    || ('\U{2000}' <= c <= '\U{200A}')
    || c == '\U{2028}' || c == '\U{2029}' || c == '\U{202F}' || c == '\U{205F}'
    || c == '\U{3000}' || c == '\U{FEFF}'
  }

  /** Every character of `s` is whitespace (the empty string included). */
  predicate Blank(s: string) {
    forall c :: c in s ==> IsWhitespace(c)
  }

  lemma BlankByIndex(s: string)
    requires forall i :: 0 <= i < |s| ==> IsWhitespace(s[i])
    ensures Blank(s)
  {
  }

  /** Neither end of `s` is whitespace. */
  predicate IsTrimmed(s: string) {
    s == [] || (!IsWhitespace(s[0]) && !IsWhitespace(s[|s| - 1]))
  }

  predicate IsUpper(c: char) {
    'A' <= c <= 'Z'
  }

  /** No character of `s` is an upper-case letter. */
  predicate IsLower(s: string) {
    forall c :: c in s ==> !IsUpper(c)
  }

  /** Number of whitespace characters at the start of `s`. */
  function LeadingBlank(s: string): (n: nat)
    ensures n <= |s|
  {
    if s == [] || !IsWhitespace(s[0]) then 0 else 1 + LeadingBlank(s[1..])
  }

  /** Number of whitespace characters at the end of `s`. */
  function TrailingBlank(s: string): (n: nat)
    ensures n <= |s|
  {
    if s == [] || !IsWhitespace(s[|s| - 1]) then 0 else 1 + TrailingBlank(s[..|s| - 1])
  }

  /** `LeadingBlank` counts the whole run of whitespace at the start. */
  lemma {:induction false} LeadingBlankSpec(s: string)
    ensures forall i :: 0 <= i < LeadingBlank(s) ==> IsWhitespace(s[i])
    ensures LeadingBlank(s) < |s| ==> !IsWhitespace(s[LeadingBlank(s)])
    decreases |s|
  {
    if s != [] && IsWhitespace(s[0]) {
      LeadingBlankSpec(s[1..]);
    }
  }

  /** `TrailingBlank` counts the whole run of whitespace at the end. */
  lemma {:induction false} TrailingBlankSpec(s: string)
    ensures forall i :: |s| - TrailingBlank(s) <= i < |s| ==> IsWhitespace(s[i])
    ensures TrailingBlank(s) < |s| ==> !IsWhitespace(s[|s| - 1 - TrailingBlank(s)])
    decreases |s|
  {
    if s != [] && IsWhitespace(s[|s| - 1]) {
      TrailingBlankSpec(s[..|s| - 1]);
    }
  }

  /** `trim`: cuts the whitespace off both ends. */
  function Trim(s: string): string {
    var a := LeadingBlank(s);
    var b := TrailingBlank(s[a..]);
    s[a..|s| - b]
  }

  /**
   * The result of `trim` is trimmed, and is the slice of `s` that is left
   * once a blank prefix and a blank suffix are cut off.
   */
  lemma TrimSpec(s: string)
    ensures IsTrimmed(Trim(s))
    ensures exists i :: 0 <= i && i + |Trim(s)| <= |s| && Trim(s) == s[i..i + |Trim(s)|]
                        && Blank(s[..i]) && Blank(s[i + |Trim(s)|..])
  {
    var a := LeadingBlank(s);
    var rest := s[a..];
    var b := TrailingBlank(rest);
    var r := Trim(s);
    LeadingBlankSpec(s);
    TrailingBlankSpec(rest);
    assert r == rest[..|rest| - b];
    assert |r| == |s| - b - a;
    BlankByIndex(s[..a]);
    assert rest[|rest| - b..] == s[a + |r|..];
    BlankByIndex(s[a + |r|..]);
    assert r == s[a..a + |r|];
    if r != [] {
      assert r[0] == rest[0];
      assert r[|r| - 1] == rest[|rest| - 1 - b];
    }
  }

  lemma TrimOfTrimmed(s: string)
    requires IsTrimmed(s)
    ensures Trim(s) == s
  {
    assert s[0..] == s;
    assert LeadingBlank(s) == 0;
    assert TrailingBlank(s) == 0;
  }

  /** `trim` yields the empty string exactly on blank input. */
  lemma TrimEmptyIff(s: string)
    ensures Trim(s) == "" <==> Blank(s)
  {
    TrimSpec(s);
    if Trim(s) == "" {
      var i :| 0 <= i <= |s| && Blank(s[..i]) && Blank(s[i..]);
      assert s == s[..i] + s[i..];
    }
    if Blank(s) {
      LeadingBlankSpec(s);
      forall j | 0 <= j < |s|
        ensures IsWhitespace(s[j])
      {
        assert s[j] in s;
      }
    }
  }

  function LowerChar(c: char): char {
    if IsUpper(c) then (c as int + 32) as char else c
  }

  /** `toLowerCase`, restricted to the ASCII letters. */
  function Lower(s: string): (r: string)
    ensures |r| == |s|
  {
    seq(|s|, i requires 0 <= i < |s| => LowerChar(s[i]))
  }

  /** Lower-casing works character by character. */
  lemma LowerAt(s: string)
    ensures forall i :: 0 <= i < |s| ==> Lower(s)[i] == LowerChar(s[i])
  {
  }

  /** Lower-casing leaves no upper-case letter. */
  lemma LowerIsLower(s: string)
    ensures IsLower(Lower(s))
  {
    forall c | c in Lower(s)
      ensures !IsUpper(c)
    {
      var i :| 0 <= i < |s| && Lower(s)[i] == c;
    }
  }

  /** Lower-casing changes nothing in a string without upper-case letters. */
  lemma LowerOfLower(s: string)
    requires IsLower(s)
    ensures Lower(s) == s
  {
    forall i | 0 <= i < |s|
      ensures Lower(s)[i] == s[i]
    {
      assert s[i] in s;
    }
  }

  /** Lower-casing moves no whitespace, so a trimmed string stays trimmed. */
  lemma LowerKeepsTrimmed(s: string)
    requires IsTrimmed(s)
    ensures IsTrimmed(Lower(s))
  {
    if s != [] {
      assert !IsWhitespace(LowerChar(s[0]));
      assert !IsWhitespace(LowerChar(s[|s| - 1]));
    }
  }

  /** `split` on one separator character; like JavaScript's, it never yields an empty list. */
  function Split(s: string, sep: char): (r: seq<string>)
    ensures |r| >= 1
    decreases |s|
  {
    if s == [] then [""] else Prepend(s[0], Split(s[1..], sep), sep)
  }

  /** The pieces of `[c] + t`, given the pieces `rest` of `t`. */
  function Prepend(c: char, rest: seq<string>, sep: char): (r: seq<string>)
    requires |rest| >= 1
    ensures |r| >= 1
  {
    if c == sep then [""] + rest else [[c] + rest[0]] + rest[1..]
  }

  lemma PrependConcat(c: char, ra: seq<string>, rb: seq<string>, sep: char)
    requires |ra| >= 1
    ensures Prepend(c, ra + rb, sep) == Prepend(c, ra, sep) + rb
  {
    if c != sep {
      assert (ra + rb)[0] == ra[0];
      assert (ra + rb)[1..] == ra[1..] + rb;
    }
  }

  /** `join`, the inverse of `Split`. */
  function Join(pieces: seq<string>, sep: char): string {
    if |pieces| == 0 then ""
    else if |pieces| == 1 then pieces[0]
    else pieces[0] + [sep] + Join(pieces[1..], sep)
  }

  /** Joining after `Prepend` is joining, with `c` in front. */
  lemma JoinPrepend(c: char, rest: seq<string>, sep: char)
    requires |rest| >= 1
    ensures Join(Prepend(c, rest, sep), sep) == [c] + Join(rest, sep)
  {
    var r := Prepend(c, rest, sep);
    if c == sep {
      assert r[1..] == rest;
    } else if |rest| > 1 {
      assert r[1..] == rest[1..];
      assert r[0] + [sep] + Join(r[1..], sep) == [c] + (rest[0] + [sep] + Join(rest[1..], sep));
    }
  }

  /** `Prepend` of a character other than the separator adds no separator to a piece. */
  lemma PrependKeepsSepFree(c: char, rest: seq<string>, sep: char)
    requires |rest| >= 1
    requires forall p :: p in rest ==> sep !in p
    ensures forall p :: p in Prepend(c, rest, sep) ==> sep !in p
  {
    if c != sep {
      var r := Prepend(c, rest, sep);
      assert rest[0] in rest;
      forall p | p in r
        ensures sep !in p
      {
        if p != r[0] {
          var i :| 0 <= i < |r| && r[i] == p;
          assert p == rest[i];
        }
      }
    }
  }

  /** Joining the pieces of `s` with the separator gives back `s`, and no piece holds the separator. */
  lemma {:induction false} JoinSplit(s: string, sep: char)
    ensures Join(Split(s, sep), sep) == s
    ensures forall p :: p in Split(s, sep) ==> sep !in p
    decreases |s|
  {
    if s != [] {
      JoinSplit(s[1..], sep);
      JoinPrepend(s[0], Split(s[1..], sep), sep);
      PrependKeepsSepFree(s[0], Split(s[1..], sep), sep);
      assert s == [s[0]] + s[1..];
    }
  }

  lemma {:induction false} SplitNoSep(a: string, sep: char)
    requires sep !in a
    ensures Split(a, sep) == [a]
    decreases |a|
  {
    if a != [] {
      SplitNoSep(a[1..], sep);
      assert a == [a[0]] + a[1..];
    }
  }

  /** Splitting `a + sep + b` splits `a` and `b` separately. */
  lemma {:induction false} SplitConcat(a: string, b: string, sep: char)
    ensures Split(a + [sep] + b, sep) == Split(a, sep) + Split(b, sep)
    decreases |a|
  {
    var s := a + [sep] + b;
    if a == [] {
      assert s[0] == sep && s[1..] == b;
    } else {
      assert s[0] == a[0] && s[1..] == a[1..] + [sep] + b;
      SplitConcat(a[1..], b, sep);
      PrependConcat(a[0], Split(a[1..], sep), Split(b, sep), sep);
    }
  }

  /** Splitting a join of separator-free pieces gives the pieces back. */
  lemma {:induction false} SplitJoin(pieces: seq<string>, sep: char)
    requires |pieces| >= 1
    requires forall p :: p in pieces ==> sep !in p
    ensures Split(Join(pieces, sep), sep) == pieces
    decreases |pieces|
  {
    if |pieces| == 1 {
      SplitNoSep(pieces[0], sep);
    } else {
      assert pieces[0] in pieces;
      SplitNoSep(pieces[0], sep);
      SplitJoin(pieces[1..], sep);
      SplitConcat(pieces[0], Join(pieces[1..], sep), sep);
      assert pieces == [pieces[0]] + pieces[1..];
    }
  }

  /** `k` occurs in `s` at some position. */
  ghost predicate IsSubstring(k: string, s: string) {
    exists i :: OccursAt(k, s, i)
  }

  /** `k` occurs in `s` starting at index `i`. */
  ghost predicate OccursAt(k: string, s: string, i: int) {
    0 <= i && i + |k| <= |s| && s[i..i + |k|] == k
  }

  lemma {:induction false} SubstringShift(s: string, k: string)
    requires s != [] && !(k <= s)
    ensures IsSubstring(k, s) <==> IsSubstring(k, s[1..])
  {
    if IsSubstring(k, s) {
      var i :| OccursAt(k, s, i);
      assert i != 0;
      assert s[1..][i - 1..i - 1 + |k|] == k;
      assert OccursAt(k, s[1..], i - 1);
    }
    if IsSubstring(k, s[1..]) {
      var j :| OccursAt(k, s[1..], j);
      assert s[j + 1..j + 1 + |k|] == k;
      assert OccursAt(k, s, j + 1);
    }
  }

  /** `s.includes(k)`, a scan from the left. */
  function Includes(s: string, k: string): (b: bool)
    ensures b <==> IsSubstring(k, s)
    decreases |s|
  {
    if |k| > |s| then false
    else if k <= s then
      assert OccursAt(k, s, 0);
      true
    else
      SubstringShift(s, k);
      Includes(s[1..], k)
  }
}
