/** The player's chosen candidate markers (game.js:128-149). A marker is
    identified by its index in the table of selectable points; the selection
    is kept in the order the markers were clicked. */
module Selection {

  /** game.js:71 */
  const MAX_SELECTIONS: nat := 7

  /** No element occurs twice. */
  predicate NoDuplicates<T(==)>(s: seq<T>) {
    forall i, j :: 0 <= i < j < |s| ==> s[i] != s[j]
  }

  /** What a well-formed selection satisfies at every click. */
  predicate WellFormed(s: seq<nat>) {
    |s| <= MAX_SELECTIONS && NoDuplicates(s)
  }

  /** `userSelections.filter(m => m !== marker)`: every entry other than `c`,
      in the original order. */
  function Without(s: seq<nat>, c: nat): (r: seq<nat>)
    ensures forall x :: x in r <==> x in s && x != c
    ensures |r| <= |s|
    ensures c !in s ==> r == s
    ensures NoDuplicates(s) ==> NoDuplicates(r)
  {
    if s == [] then []
    else
      var rest := Without(s[1..], c);
      assert NoDuplicates(s) ==> s[0] !in s[1..] && NoDuplicates(s[1..]);
      assert forall j :: 0 <= j < |rest| ==> rest[j] in rest;
      (if s[0] == c then [] else [s[0]]) + rest
  }

  /** The effect of one click on marker `c` while the game is being played:
      a chosen marker is removed; an unchosen one is appended when there is
      room and otherwise ignored. */
  function Toggle(s: seq<nat>, c: nat): (r: seq<nat>)
    ensures c in r <==> c !in s && |s| < MAX_SELECTIONS
    ensures forall x :: x != c ==> (x in r <==> x in s)
  {
    if c in s then Without(s, c)
    else if |s| < MAX_SELECTIONS then s + [c]
    else s
  }

  /** Filtering distributes over concatenation. */
  lemma {:induction false} WithoutAppend(a: seq<nat>, b: seq<nat>, c: nat)
    ensures Without(a + b, c) == Without(a, c) + Without(b, c)
  {
    if a == [] {
      assert a + b == b;
    } else {
      var h := if a[0] == c then [] else [a[0]];
      assert (a + b)[0] == a[0] && (a + b)[1..] == a[1..] + b;
      WithoutAppend(a[1..], b, c);
      calc {
        Without(a + b, c);
        h + Without(a[1..] + b, c);
        h + (Without(a[1..], c) + Without(b, c));
        (h + Without(a[1..], c)) + Without(b, c);
        Without(a, c) + Without(b, c);
      }
    }
  }

  /** Removing a marker that sits at position `k` of a duplicate-free
      selection closes the gap and keeps the others in their order. */
  lemma {:induction false} WithoutAt(s: seq<nat>, k: nat)
    requires NoDuplicates(s) && k < |s|
    ensures Without(s, s[k]) == s[..k] + s[k + 1..]
  {
    if k == 0 {
      assert s[0] !in s[1..];
      assert s[1..] == s[..0] + s[1..];
    } else {
      assert NoDuplicates(s[1..]);
      WithoutAt(s[1..], k - 1);
      assert s[1..][k - 1] == s[k];
      assert s[..k] == [s[0]] + s[1..][..k - 1];
      assert s[k + 1..] == s[1..][k..];
    }
  }

  /** A click keeps the selection well formed: never a duplicate, never more
      than MAX_SELECTIONS markers. */
  lemma ToggleKeepsWellFormed(s: seq<nat>, c: nat)
    requires WellFormed(s)
    ensures WellFormed(Toggle(s, c))
  {
    if c !in s && |s| < MAX_SELECTIONS {
      var r := s + [c];
      forall i, j | 0 <= i < j < |r| ensures r[i] != r[j] {
        if j == |s| { assert r[i] == s[i]; }
      }
    }
  }

  /** A click on an existing marker keeps every entry an existing marker. */
  lemma ToggleKeepsBound(s: seq<nat>, c: nat, n: nat)
    requires c < n && forall k :: 0 <= k < |s| ==> s[k] < n
    ensures forall k :: 0 <= k < |Toggle(s, c)| ==> Toggle(s, c)[k] < n
  {
    var r := Toggle(s, c);
    forall k | 0 <= k < |r| ensures r[k] < n {
      assert r[k] in r;
    }
  }

  /** Clicking an unchosen marker when the selection is full changes nothing. */
  lemma ToggleWhenFullIgnored(s: seq<nat>, c: nat)
    requires c !in s && |s| >= MAX_SELECTIONS
    ensures Toggle(s, c) == s
  {
  }

  /** Clicking a chosen marker removes exactly it and keeps the remaining
      markers in their relative order. */
  lemma ToggleChosenRemoves(s: seq<nat>, k: nat)
    requires NoDuplicates(s) && k < |s|
    ensures Toggle(s, s[k]) == s[..k] + s[k + 1..]
  {
    WithoutAt(s, k);
  }

  /** Clicking an unchosen marker twice, when there is room, restores the
      selection. */
  lemma ToggleTwiceRestores(s: seq<nat>, c: nat)
    requires c !in s && |s| < MAX_SELECTIONS
    ensures Toggle(Toggle(s, c), c) == s
  {
    WithoutAppend(s, [c], c);
    assert Without([c], c) == [];
  }

  /** Clicking a chosen marker twice moves it to the end of the selection. */
  lemma ToggleTwiceMovesToEnd(s: seq<nat>, c: nat)
    requires WellFormed(s) && c in s
    ensures Toggle(Toggle(s, c), c) == Without(s, c) + [c]
  {
    var k :| 0 <= k < |s| && s[k] == c;
    var r := Without(s, c);
    WithoutAt(s, k);
    assert |r| == |s| - 1 && c !in r;
    assert Toggle(s, c) == r;
    assert Toggle(r, c) == r + [c];
  }
}
