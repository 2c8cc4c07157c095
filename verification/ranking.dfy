/** The local leaderboard written at the end of a round (game.js:210-215):
    the stored list is read (a missing key reads as empty), the new entry is
    pushed, the whole list is sorted by hits, highest first, with the engine's
    stable sort, and the list is written back. */
module Ranking {
  import opened Wrappers
  import opened Selection

  /** `{ name, hits, score }`, where `score` is the text "hits/7". */
  datatype Entry = Entry(name: string, hits: nat, score: string)

  function DigitChar(d: nat): (c: char)
    requires d < 10
    ensures '0' <= c <= '9'
  {
    (48 + d) as char
  }

  /** The decimal numeral of `n`, as a template literal prints a number. */
  function Decimal(n: nat): (s: string)
    ensures |s| >= 1 && IsNumeral(s)
    ensures n < 10 <==> |s| == 1
    ensures n >= 10 ==> s[0] != '0'
  {
    if n < 10 then [DigitChar(n)] else Decimal(n / 10) + [DigitChar(n % 10)]
  }

  predicate IsNumeral(s: string) {
    forall k :: 0 <= k < |s| ==> '0' <= s[k] <= '9'
  }

  /** The number a numeral denotes. */
  function NumeralValue(s: string): nat
    requires IsNumeral(s)
  {
    if s == [] then 0 else NumeralValue(s[..|s| - 1]) * 10 + (s[|s| - 1] as int - 48)
  }

  /** The score text can be read back as the hit count it was made from. */
  lemma {:induction false} DecimalRoundTrip(n: nat)
    ensures NumeralValue(Decimal(n)) == n
  {
    var s := Decimal(n);
    if n >= 10 {
      DecimalRoundTrip(n / 10);
      assert s[..|s| - 1] == Decimal(n / 10);
    } else {
      assert s[..0] == [];
    }
  }

  /** `${acertos}/${MAX_SELECTIONS}`: the hit count, read back from the
      text before the final "/7". */
  function ScoreText(hits: nat): (s: string)
    ensures |s| >= 3 && s[|s| - 2..] == "/7"
    ensures IsNumeral(s[..|s| - 2]) && NumeralValue(s[..|s| - 2]) == hits
  {
    var s := Decimal(hits) + "/" + Decimal(MAX_SELECTIONS);
    DecimalRoundTrip(hits);
    assert Decimal(MAX_SELECTIONS) == "7";
    assert s[..|s| - 2] == Decimal(hits);
    assert s[|s| - 2..] == "/7";
    s
  }

  /** The record pushed for a finished round. */
  function NewEntry(name: string, hits: nat): (e: Entry)
    ensures e.name == name && e.hits == hits && e.score == ScoreText(hits)
  {
    Entry(name, hits, ScoreText(hits))
  }

  /** Highest hits first. */
  predicate SortedDesc(s: seq<Entry>) {
    forall i, j :: 0 <= i < j < |s| ==> s[i].hits >= s[j].hits
  }

  /** The entries of `s` that have `h` hits, in their order in `s`. A stable
      sort keeps each of these groups exactly as it was. */
  function WithHits(s: seq<Entry>, h: nat): (r: seq<Entry>)
    ensures |r| <= |s|
  {
    if s == [] then []
    else (if s[0].hits == h then [s[0]] else []) + WithHits(s[1..], h)
  }

  /** A group is empty exactly when no entry has that many hits. */
  lemma {:induction false} WithHitsEmpty(s: seq<Entry>, h: nat)
    ensures WithHits(s, h) == [] <==> forall k :: 0 <= k < |s| ==> s[k].hits != h
  {
    if s != [] {
      WithHitsEmpty(s[1..], h);
      assert forall k :: 1 <= k < |s| ==> s[k] == s[1..][k - 1];
    }
  }

  lemma {:induction false} WithHitsAppend(a: seq<Entry>, b: seq<Entry>, h: nat)
    ensures WithHits(a + b, h) == WithHits(a, h) + WithHits(b, h)
  {
    if a == [] {
      assert a + b == b;
    } else {
      var front := if a[0].hits == h then [a[0]] else [];
      calc {
        WithHits(a + b, h);
        { assert (a + b)[0] == a[0] && (a + b)[1..] == a[1..] + b; }
        front + WithHits(a[1..] + b, h);
        { WithHitsAppend(a[1..], b, h); }
        front + (WithHits(a[1..], h) + WithHits(b, h));
        (front + WithHits(a[1..], h)) + WithHits(b, h);
        WithHits(a, h) + WithHits(b, h);
      }
    }
  }

  /** Places `x` after every entry with at least as many hits: where a stable
      sort puts the entry pushed last. */
  function Insert(x: Entry, s: seq<Entry>): (r: seq<Entry>)
    ensures |r| == |s| + 1
    ensures multiset(r) == multiset(s) + multiset{x}
  {
    if s == [] then [x]
    else
      assert s == [s[0]] + s[1..];
      if s[0].hits >= x.hits then [s[0]] + Insert(x, s[1..]) else [x] + s
  }

  /** Inserting into a sorted list keeps it sorted. */
  lemma {:induction false} InsertSorted(x: Entry, s: seq<Entry>)
    requires SortedDesc(s)
    ensures SortedDesc(Insert(x, s))
  {
    if s != [] && s[0].hits >= x.hits {
      var rest := Insert(x, s[1..]);
      InsertSorted(x, s[1..]);
      forall k | 0 <= k < |rest| ensures s[0].hits >= rest[k].hits {
        assert rest[k] in multiset(rest);
        if rest[k] != x {
          assert rest[k] in multiset(s[1..]);
          var j :| 0 <= j < |s[1..]| && s[1..][j] == rest[k];
          assert s[j + 1] == rest[k];
        }
      }
      var r := [s[0]] + rest;
      forall i, j | 0 <= i < j < |r| ensures r[i].hits >= r[j].hits {
        if i > 0 {
          assert r[i] == rest[i - 1] && r[j] == rest[j - 1];
        } else {
          assert r[j] == rest[j - 1];
        }
      }
    }
  }

  /** `ranking.sort((a, b) => b.hits - a.hits)`, as a stable insertion sort. */
  function SortByHits(s: seq<Entry>): (r: seq<Entry>)
    ensures |r| == |s|
    ensures multiset(r) == multiset(s)
    ensures SortedDesc(r)
  {
    if s == [] then []
    else
      assert s == s[..|s| - 1] + [s[|s| - 1]];
      InsertSorted(s[|s| - 1], SortByHits(s[..|s| - 1]));
      Insert(s[|s| - 1], SortByHits(s[..|s| - 1]))
  }

  /** Inserting into a sorted list keeps every equal-hits group in input order,
      the new entry last. */
  lemma {:induction false} InsertStable(x: Entry, s: seq<Entry>, h: nat)
    requires SortedDesc(s)
    ensures WithHits(Insert(x, s), h) == WithHits(s + [x], h)
  {
    if s == [] {
      assert s + [x] == [x];
    } else if s[0].hits >= x.hits {
      var tail := s[1..];
      assert SortedDesc(tail);
      InsertStable(x, tail, h);
      InsertBehindStable(x, s, h);
    } else {
      InsertAheadStable(x, s, h);
    }
  }

  /** One step of the induction: an entry that goes behind the head. */
  lemma InsertBehindStable(x: Entry, s: seq<Entry>, h: nat)
    requires s != [] && s[0].hits >= x.hits
    requires WithHits(Insert(x, s[1..]), h) == WithHits(s[1..] + [x], h)
    ensures WithHits(Insert(x, s), h) == WithHits(s + [x], h)
  {
    var head, tail := [s[0]], s[1..];
    var wh, wt, wx := WithHits(head, h), WithHits(tail, h), WithHits([x], h);
    calc {
      WithHits(Insert(x, s), h);
      { assert Insert(x, s) == head + Insert(x, tail); }
      WithHits(head + Insert(x, tail), h);
      { WithHitsAppend(head, Insert(x, tail), h); }
      wh + WithHits(Insert(x, tail), h);
      wh + WithHits(tail + [x], h);
      { WithHitsAppend(tail, [x], h); }
      wh + (wt + wx);
      (wh + wt) + wx;
      { WithHitsAppend(head, tail, h); assert head + tail == s; }
      WithHits(s, h) + wx;
      { WithHitsAppend(s, [x], h); }
      WithHits(s + [x], h);
    }
  }

  /** An entry with more hits than the whole sorted list goes in front
      without disturbing any equal-hits group. */
  lemma InsertAheadStable(x: Entry, s: seq<Entry>, h: nat)
    requires SortedDesc(s) && s != [] && s[0].hits < x.hits
    ensures WithHits([x] + s, h) == WithHits(s + [x], h)
  {
    WithHitsAppend([x], s, h);
    WithHitsAppend(s, [x], h);
    if h == x.hits {
      assert forall k :: 0 <= k < |s| ==> s[k].hits < h;
      WithHitsEmpty(s, h);
    } else {
      assert WithHits([x], h) == [];
    }
  }

  /** The sort is stable: each equal-hits group keeps its relative order. */
  lemma {:induction false} SortStable(s: seq<Entry>, h: nat)
    ensures WithHits(SortByHits(s), h) == WithHits(s, h)
  {
    if s != [] {
      var init, last := s[..|s| - 1], s[|s| - 1];
      assert s == init + [last];
      SortStable(init, h);
      SortStableStep(init, last, h);
    }
  }

  /** One step of the induction: the last entry goes in by insertion. */
  lemma SortStableStep(init: seq<Entry>, last: Entry, h: nat)
    requires WithHits(SortByHits(init), h) == WithHits(init, h)
    ensures WithHits(SortByHits(init + [last]), h) == WithHits(init + [last], h)
  {
    var s := init + [last];
    var sorted := SortByHits(init);
    assert s[..|s| - 1] == init && s[|s| - 1] == last;
    calc {
      WithHits(SortByHits(s), h);
      { assert SortByHits(s) == Insert(last, sorted); }
      WithHits(Insert(last, sorted), h);
      { InsertStable(last, sorted, h); }
      WithHits(sorted + [last], h);
      { WithHitsAppend(sorted, [last], h); }
      WithHits(sorted, h) + WithHits([last], h);
      WithHits(init, h) + WithHits([last], h);
      { WithHitsAppend(init, [last], h); }
      WithHits(s, h);
    }
  }

  /** The head of a list is the first entry of its own group. */
  lemma WithHitsHead(s: seq<Entry>)
    ensures s != [] ==> WithHits(s, s[0].hits) != [] && WithHits(s, s[0].hits)[0] == s[0]
  {
  }

  /** Two sorted lists with the same groups start with the same entry. */
  lemma SortedHeadsAgree(a: seq<Entry>, b: seq<Entry>)
    requires SortedDesc(a) && SortedDesc(b) && a != [] && b != []
    requires WithHits(a, a[0].hits) == WithHits(b, a[0].hits)
    requires WithHits(a, b[0].hits) == WithHits(b, b[0].hits)
    ensures a[0] == b[0]
  {
    WithHitsHead(a);
    WithHitsHead(b);
    WithHitsEmpty(a, b[0].hits);
    WithHitsEmpty(b, a[0].hits);
  }

  /** Removing equal heads leaves equal groups. */
  lemma TailGroupsAgree(a: seq<Entry>, b: seq<Entry>, h: nat)
    requires a != [] && b != [] && a[0] == b[0]
    requires WithHits(a, h) == WithHits(b, h)
    ensures WithHits(a[1..], h) == WithHits(b[1..], h)
  {
    var front := if a[0].hits == h then [a[0]] else [];
    assert WithHits(a, h) == front + WithHits(a[1..], h);
    assert WithHits(b, h) == front + WithHits(b[1..], h);
    assert WithHits(a[1..], h) == WithHits(a, h)[|front|..];
    assert WithHits(b[1..], h) == WithHits(b, h)[|front|..];
  }

  /** A list sorted by hits is determined by its equal-hits groups. So any
      stable sort by descending hits gives the list SortByHits gives. */
  lemma {:induction false} SortedStableUnique(a: seq<Entry>, b: seq<Entry>)
    requires SortedDesc(a) && SortedDesc(b)
    requires forall h :: WithHits(a, h) == WithHits(b, h)
    ensures a == b
    decreases |a| + |b|
  {
    WithHitsHead(a);
    WithHitsHead(b);
    if a != [] && b != [] {
      SortedHeadsAgree(a, b);
      forall h ensures WithHits(a[1..], h) == WithHits(b[1..], h) {
        TailGroupsAgree(a, b, h);
      }
      SortedStableUnique(a[1..], b[1..]);
      assert a == [a[0]] + a[1..] && b == [b[0]] + b[1..];
    }
  }

  /** A list that is already sorted is left as it is. */
  lemma SortKeepsSorted(s: seq<Entry>)
    requires SortedDesc(s)
    ensures SortByHits(s) == s
  {
    forall h ensures WithHits(SortByHits(s), h) == WithHits(s, h) {
      SortStable(s, h);
    }
    SortedStableUnique(SortByHits(s), s);
  }

  /** What recording an entry does to the list: one entry longer, the prior
      entries and the new one and nothing else, highest hits first, and every
      equal-hits group in its prior order with the new entry at its end. */
  lemma RecordedList(prior: seq<Entry>, e: Entry, h: nat)
    ensures |SortByHits(prior + [e])| == |prior| + 1
    ensures multiset(SortByHits(prior + [e])) == multiset(prior) + multiset{e}
    ensures SortedDesc(SortByHits(prior + [e]))
    ensures WithHits(SortByHits(prior + [e]), h) == WithHits(prior, h) + (if e.hits == h then [e] else [])
  {
    SortStable(prior + [e], h);
    WithHitsAppend(prior, [e], h);
  }

  /** When the list was already sorted, recording is inserting the entry in place. */
  lemma RecordIntoSorted(prior: seq<Entry>, e: Entry)
    requires SortedDesc(prior)
    ensures SortByHits(prior + [e]) == Insert(e, prior)
  {
    var r := SortByHits(prior + [e]);
    forall h ensures WithHits(r, h) == WithHits(Insert(e, prior), h) {
      InsertStable(e, prior, h);
      SortStable(prior + [e], h);
    }
    InsertSorted(e, prior);
    SortedStableUnique(r, Insert(e, prior));
  }

  /** The `"ranking"` key of local storage, holding the list or nothing. */
  class RankingStore {
    var stored: Option<seq<Entry>>

    constructor (initial: Option<seq<Entry>>)
      ensures stored == initial
    {
      stored := initial;
    }

    /** `JSON.parse(localStorage.getItem("ranking") || "[]")` */
    function Load(): (r: seq<Entry>)
      reads this
      ensures stored.None? ==> r == []
      ensures stored.Some? ==> r == stored.value
    {
      stored.GetOr([])
    }

    /** Push the entry, sort, write back. */
    method Record(e: Entry)
      modifies this
      ensures stored == Some(SortByHits(old(Load()) + [e]))
      ensures e in Load() && |Load()| == |old(Load())| + 1 && SortedDesc(Load())
    {
      var ranking := Load();
      ranking := ranking + [e];
      ranking := SortByHits(ranking);
      stored := Some(ranking);
      assert e in multiset(ranking);
    }
  }
}
