/**
 * The viewing history: a list of records stored under one storage key, most
 * recently watched first, at most one entry per video id and at most
 * MAX_HISTORY_ITEMS entries; and its rendering through the keyword filter.
 * The stored list is passed in and the list to store is returned.
 */
module History {
  import opened Wrappers
  import opened Seqs
  import opened Videos
  import opened Keywords
  import opened ContentFilter

  /** The history cap. */
  const MAX_HISTORY_ITEMS: nat := 20

  /** Number of entries of `h` with this id. */
  function CountId(h: seq<Video>, id: Option<string>): nat {
    if h == [] then 0
    else CountId(h[..|h| - 1], id) + (if h[|h| - 1].id == id then 1 else 0)
  }

  /** At most one entry per id. */
  ghost predicate UniqueIds(h: seq<Video>) {
    forall w :: w in h ==> CountId(h, w.id) == 1
  }

  /** `history.filter(v => v.id.videoId !== videoId)`. */
  function RemoveId(h: seq<Video>, id: Option<string>): seq<Video> {
    if h == [] then []
    else RemoveId(h[..|h| - 1], id) + (if h[|h| - 1].id != id then [h[|h| - 1]] else [])
  }

  /**
   * The stored history after watching `v` with cap `cap`: every entry with
   * `v`'s id removed, `v` put in front, and the list cut to `cap` entries.
   */
  function Recorded(h: seq<Video>, v: Video, cap: nat): seq<Video>
    requires cap >= 1
  {
    var moved := [v] + RemoveId(h, v.id);
    if |moved| <= cap then moved else moved[..cap]
  }

  lemma {:induction false} CountIdConcat(a: seq<Video>, b: seq<Video>, id: Option<string>)
    ensures CountId(a + b, id) == CountId(a, id) + CountId(b, id)
    decreases |b|
  {
    if b == [] {
      assert a + b == a;
    } else {
      var b' := b[..|b| - 1];
      assert (a + b)[..|a + b| - 1] == a + b';
      CountIdConcat(a, b', id);
    }
  }

  lemma {:induction false} CountIdMember(h: seq<Video>, w: Video)
    requires w in h
    ensures CountId(h, w.id) >= 1
    decreases |h|
  {
    var h' := h[..|h| - 1];
    if h[|h| - 1] != w {
      assert h == h' + [h[|h| - 1]];
      CountIdMember(h', w);
    }
  }

  lemma {:induction false} CountIdPrefix(h: seq<Video>, n: nat, id: Option<string>)
    requires n <= |h|
    ensures CountId(h[..n], id) <= CountId(h, id)
  {
    assert h == h[..n] + h[n..];
    CountIdConcat(h[..n], h[n..], id);
  }

  /**
   * Removing an id leaves no entry with it and keeps every other id with its
   * multiplicity.
   */
  lemma {:induction false} RemoveIdCount(h: seq<Video>, id: Option<string>, other: Option<string>)
    ensures CountId(RemoveId(h, id), other) == if other == id then 0 else CountId(h, other)
    decreases |h|
  {
    if h != [] {
      var h', last := h[..|h| - 1], h[|h| - 1];
      RemoveIdCount(h', id, other);
      var tail := if last.id != id then [last] else [];
      CountIdConcat(RemoveId(h', id), tail, other);
      if last.id != id {
        assert tail[..0] == [];
      }
    }
  }

  /** Removing an id drops exactly the entries that carry it. */
  lemma {:induction false} RemoveIdLength(h: seq<Video>, id: Option<string>)
    ensures |RemoveId(h, id)| + CountId(h, id) == |h|
    decreases |h|
  {
    if h != [] {
      RemoveIdLength(h[..|h| - 1], id);
    }
  }

  /** What remains after removing an id keeps its order. */
  lemma {:induction false} RemoveIdOrder(h: seq<Video>, id: Option<string>)
    ensures IsSubsequence(RemoveId(h, id), h)
    decreases |h|
  {
    if h != [] {
      var h', last := h[..|h| - 1], h[|h| - 1];
      var r' := RemoveId(h', id);
      RemoveIdOrder(h', id);
      assert h == h' + [last];
      if last.id != id {
        SubsequenceSnoc(r', h', last);
      } else {
        assert r' + [] == r';
        SubsequenceExtend(r', h', last);
      }
    }
  }

  lemma {:induction false} RemoveIdAbsent(h: seq<Video>, id: Option<string>)
    requires CountId(h, id) == 0
    ensures RemoveId(h, id) == h
    decreases |h|
  {
    if h != [] {
      RemoveIdAbsent(h[..|h| - 1], id);
      assert h == h[..|h| - 1] + [h[|h| - 1]];
    }
  }

  lemma {:induction false} RemoveIdConcat(a: seq<Video>, b: seq<Video>, id: Option<string>)
    ensures RemoveId(a + b, id) == RemoveId(a, id) + RemoveId(b, id)
    decreases |b|
  {
    if b == [] {
      assert a + b == a;
    } else {
      var b' := b[..|b| - 1];
      assert (a + b)[..|a + b| - 1] == a + b';
      RemoveIdConcat(a, b', id);
    }
  }

  /**
   * The watched video is in front, the list is within the cap, and the rest
   * is the old list without that video, cut short at its oldest end only.
   */
  lemma RecordedDropsOldest(h: seq<Video>, v: Video, cap: nat)
    requires cap >= 1
    ensures var r := Recorded(h, v, cap);
      && r[0] == v
      && |r| == (if |h| - CountId(h, v.id) + 1 <= cap then |h| - CountId(h, v.id) + 1 else cap)
      && r[1..] == RemoveId(h, v.id)[..|r| - 1]
  {
    var rest := RemoveId(h, v.id);
    var moved := [v] + rest;
    RemoveIdLength(h, v.id);
    if |moved| > cap {
      assert Recorded(h, v, cap)[1..] == rest[..cap - 1];
    } else {
      assert Recorded(h, v, cap)[1..] == rest[..|rest|];
    }
  }

  /** Exactly one entry carries the watched video's id. */
  lemma RecordedUnique(h: seq<Video>, v: Video, cap: nat)
    requires cap >= 1
    ensures CountId(Recorded(h, v, cap), v.id) == 1
  {
    var rest := RemoveId(h, v.id);
    var r := Recorded(h, v, cap);
    RemoveIdCount(h, v.id, v.id);
    RecordedDropsOldest(h, v, cap);
    CountIdPrefix(rest, |r| - 1, v.id);
    assert r == [v] + rest[..|r| - 1];
    CountIdConcat([v], rest[..|r| - 1], v.id);
    assert [v][..0] == [];
  }

  /** No other id becomes more frequent. */
  lemma RecordedNoNewDuplicates(h: seq<Video>, v: Video, cap: nat, id: Option<string>)
    requires cap >= 1 && id != v.id
    ensures CountId(Recorded(h, v, cap), id) <= CountId(h, id)
  {
    var rest := RemoveId(h, v.id);
    var r := Recorded(h, v, cap);
    RemoveIdCount(h, v.id, id);
    RecordedDropsOldest(h, v, cap);
    CountIdPrefix(rest, |r| - 1, id);
    assert r == [v] + rest[..|r| - 1];
    CountIdConcat([v], rest[..|r| - 1], id);
    assert [v][..0] == [];
  }

  /** The entries kept behind the new one are old entries in their old relative order. */
  lemma RecordedKeepsOrder(h: seq<Video>, v: Video, cap: nat)
    requires cap >= 1
    ensures IsSubsequence(Recorded(h, v, cap)[1..], h)
  {
    var r := Recorded(h, v, cap);
    RemoveIdOrder(h, v.id);
    RecordedDropsOldest(h, v, cap);
    SubsequencePrefix(RemoveId(h, v.id), h, |r| - 1);
  }

  /** Watching the same video twice in a row stores the same list as watching it once. */
  lemma RecordedIdempotent(h: seq<Video>, v: Video, cap: nat)
    requires cap >= 1
    ensures Recorded(Recorded(h, v, cap), v, cap) == Recorded(h, v, cap)
  {
    var rest := RemoveId(h, v.id);
    var r := Recorded(h, v, cap);
    RemoveIdCount(h, v.id, v.id);
    RecordedDropsOldest(h, v, cap);
    var kept := rest[..|r| - 1];
    assert r == [v] + kept;
    CountIdPrefix(rest, |r| - 1, v.id);
    RemoveIdAbsent(kept, v.id);
    RemoveIdConcat([v], kept, v.id);
    assert RemoveId([v], v.id) == [] by {
      assert [v][..0] == [];
    }
    assert RemoveId(r, v.id) == kept;
  }

  /** Recording keeps the history free of duplicate ids. */
  lemma RecordedKeepsUnique(h: seq<Video>, v: Video, cap: nat)
    requires cap >= 1 && UniqueIds(h)
    ensures UniqueIds(Recorded(h, v, cap))
  {
    var r := Recorded(h, v, cap);
    RecordedUnique(h, v, cap);
    RecordedKeepsOrder(h, v, cap);
    SubsequenceMembers(r[1..], h);
    forall w | w in r
      ensures CountId(r, w.id) == 1
    {
      if w.id != v.id {
        var i :| 0 <= i < |r| && r[i] == w;
        assert i != 0;
        assert w in r[1..] by {
          assert r[1..][i - 1] == w;
        }
        RecordedNoNewDuplicates(h, v, cap, w.id);
        CountIdMember(r, w);
      }
    }
  }

  /** The stored list after watching `views` in order, starting from `h`. */
  function Replay(h: seq<Video>, views: seq<Video>, cap: nat): seq<Video>
    requires cap >= 1
    decreases |views|
  {
    if views == [] then h else Replay(Recorded(h, views[0], cap), views[1..], cap)
  }

  /** Whatever is watched, a history that starts within the cap and duplicate-free stays so. */
  lemma {:induction false} ReplayKeepsInvariant(h: seq<Video>, views: seq<Video>, cap: nat)
    requires cap >= 1 && |h| <= cap && UniqueIds(h)
    ensures |Replay(h, views, cap)| <= cap && UniqueIds(Replay(h, views, cap))
    decreases |views|
  {
    if views != [] {
      RecordedDropsOldest(h, views[0], cap);
      RecordedKeepsUnique(h, views[0], cap);
      ReplayKeepsInvariant(Recorded(h, views[0], cap), views[1..], cap);
    }
  }

  /**
   * With cap 3 and three different ids, watching a, b, c and then a again
   * stores [a, c, b]: the re-watched video moves to the front.
   */
  lemma MoveToFrontExample(a: Video, b: Video, c: Video)
    requires a.id != b.id && b.id != c.id && a.id != c.id
    ensures Replay([], [a, b, c, a], 3) == [a, c, b]
  {
    MoveToFrontSteps(a, b, c);
    var views := [a, b, c, a];
    assert views[1..] == [b, c, a] && views[1..][1..] == [c, a] && views[1..][1..][1..] == [a];
    assert Replay([], views, 3) == Replay([a], [b, c, a], 3);
    assert Replay([a], [b, c, a], 3) == Replay([b, a], [c, a], 3);
    assert Replay([b, a], [c, a], 3) == Replay([c, b, a], [a], 3);
    assert Replay([c, b, a], [a], 3) == Replay([a, c, b], [], 3);
  }

  /** The four recordings of the move-to-front scenario, one at a time. */
  lemma MoveToFrontSteps(a: Video, b: Video, c: Video)
    requires a.id != b.id && b.id != c.id && a.id != c.id
    ensures Recorded([], a, 3) == [a]
    ensures Recorded([a], b, 3) == [b, a]
    ensures Recorded([b, a], c, 3) == [c, b, a]
    ensures Recorded([c, b, a], a, 3) == [a, c, b]
  {
    assert RemoveId([a], b.id) == [a] by {
      assert [a][..0] == [];
    }
    assert RemoveId([b, a], c.id) == [b, a] by {
      assert [b, a][..1] == [b];
      assert RemoveId([b], c.id) == [b] by {
        assert [b][..0] == [];
      }
    }
    assert RemoveId([c], a.id) == [c] by {
      assert [c][..0] == [];
    }
    assert RemoveId([c, b], a.id) == [c, b] by {
      assert [c, b][..1] == [c];
    }
    assert RemoveId([c, b, a], a.id) == [c, b] by {
      assert [c, b, a][..2] == [c, b];
    }
  }

  /** Why the history panel shows a placeholder instead of entries. */
  datatype EmptyReason = NothingWatched | AllHidden

  /** What the history panel shows: a placeholder, or the entries in stored order. */
  datatype HistoryView = Placeholder(reason: EmptyReason) | Listing(items: seq<Video>)

  /** The stored entries the keywords do not hide, in stored order. */
  ghost function Unhidden(h: seq<Video>, keywords: seq<string>): seq<Video> {
    if h == [] then []
    else
      var last := h[|h| - 1];
      Unhidden(h[..|h| - 1], keywords) + (if Forbidden(last.snippet, keywords) then [] else [last])
  }

  /** Exactly the unhidden entries are shown, in stored order. */
  lemma {:induction false} UnhiddenSpec(h: seq<Video>, keywords: seq<string>)
    ensures forall w :: w in Unhidden(h, keywords) <==> w in h && !Forbidden(w.snippet, keywords)
    ensures IsSubsequence(Unhidden(h, keywords), h)
    decreases |h|
  {
    if h != [] {
      var h', last := h[..|h| - 1], h[|h| - 1];
      UnhiddenSpec(h', keywords);
      assert h == h' + [last];
      var u' := Unhidden(h', keywords);
      if Forbidden(last.snippet, keywords) {
        assert u' + [] == u';
        SubsequenceExtend(u', h', last);
      } else {
        SubsequenceSnoc(u', h', last);
      }
    }
  }

  /** Every stored entry is listed as many times as it is stored, or not at all when forbidden. */
  lemma {:induction false} UnhiddenCount(h: seq<Video>, keywords: seq<string>, w: Video)
    ensures multiset(Unhidden(h, keywords))[w] == if Forbidden(w.snippet, keywords) then 0 else multiset(h)[w]
    decreases |h|
  {
    if h != [] {
      var h', last := h[..|h| - 1], h[|h| - 1];
      UnhiddenCount(h', keywords, w);
      assert h == h' + [last];
    }
  }

  /** `view` is what `renderHistory` shows for the stored list `h`. */
  ghost predicate Displays(view: HistoryView, h: seq<Video>, keywords: seq<string>) {
    && (view == Placeholder(NothingWatched) <==> h == [])
    && (view == Placeholder(AllHidden) <==> h != [] && Unhidden(h, keywords) == [])
    && (view.Listing? ==> view.items == Unhidden(h, keywords))
  }

  /**
   * `renderHistory`: an empty list shows the "nothing watched yet" placeholder;
   * otherwise each entry the filter does not hide is appended, and when none
   * was, the "empty or all filtered" placeholder is shown.
   */
  method RenderHistory(history: seq<Video>, setting: Option<string>) returns (view: HistoryView)
    ensures Displays(view, history, ParseKeywords(setting))
  {
    view := RenderHistoryWith(history, ParseKeywords(setting));
  }

  /**
   * The body of `renderHistory` once the keyword setting is parsed (nothing
   * changes it while the list is drawn).
   */
  method RenderHistoryWith(history: seq<Video>, keywords: seq<string>) returns (view: HistoryView)
    ensures Displays(view, history, keywords)
  {
    if |history| == 0 {
      return Placeholder(NothingWatched);
    }
    var shown: seq<Video> := [];
    var i := 0;
    while i < |history|
      invariant 0 <= i <= |history|
      invariant shown == Unhidden(history[..i], keywords)
    {
      var hidden := FilterVideoWith(history[i].snippet, keywords);
      if !hidden {
        shown := shown + [history[i]];
      }
      assert history[..i + 1][..i] == history[..i];
      i := i + 1;
    }
    assert history[..i] == history;
    if shown == [] {
      view := Placeholder(AllHidden);
    } else {
      view := Listing(shown);
    }
  }

  /**
   * `addToHistory`: drops the entries with the watched video's id, puts the
   * video in front, keeps the first MAX_HISTORY_ITEMS entries, and renders the
   * stored result.
   */
  method AddToHistory(stored: seq<Video>, video: Video, setting: Option<string>)
    returns (history: seq<Video>, view: HistoryView)
    ensures history == Recorded(stored, video, MAX_HISTORY_ITEMS)
    ensures history[0] == video && 1 <= |history| <= MAX_HISTORY_ITEMS
    ensures CountId(history, video.id) == 1
    ensures UniqueIds(stored) ==> UniqueIds(history)
    ensures Displays(view, history, ParseKeywords(setting))
  {
    history := RemoveId(stored, video.id);
    history := [video] + history;
    if |history| > MAX_HISTORY_ITEMS {
      history := history[..MAX_HISTORY_ITEMS];
    }
    RecordedUnique(stored, video, MAX_HISTORY_ITEMS);
    if UniqueIds(stored) {
      RecordedKeepsUnique(stored, video, MAX_HISTORY_ITEMS);
    }
    view := RenderHistory(history, setting);
  }
}
