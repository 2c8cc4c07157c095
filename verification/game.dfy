/** The game session (game.js:71-74, 93-117, 128-161, 201-215): the player's
    name, the state of the round and the markers chosen, driven by the start
    button, marker clicks and the submit button. */
module Game {
  import opened Wrappers
  import opened JsString
  import opened Selection
  import opened Matching
  import opened Feedback
  import opened Ranking

  /** A map coordinate, `[lat, lng]`. */
  datatype LatLng = LatLng(lat: real, lng: real)

  /** The markers offered to the player (game.js:27-59). */
  const SELECTABLE_POINTS: seq<LatLng> := [
    LatLng(-23.62909, -46.56753),
    LatLng(-23.62554, -46.57502),
    LatLng(-23.64662, -46.57615),
    LatLng(-23.64019, -46.57460),
    LatLng(-23.61782, -46.56961),
    LatLng(-23.61835, -46.57463),
    LatLng(-23.60667, -46.56602),
    LatLng(-23.63209, -46.56488),
    LatLng(-23.62274, -46.55676),
    LatLng(-23.61319, -46.57705),
    LatLng(-23.61590, -46.56925),
    LatLng(-23.63309, -46.58313),
    LatLng(-23.62187, -46.58150),
    LatLng(-23.62503, -46.55721),
    LatLng(-23.63547, -46.55407),
    LatLng(-23.61743, -46.55275),
    LatLng(-23.63500, -46.55839),
    LatLng(-23.62896, -46.57504),
    LatLng(-23.64273, -46.56068),
    LatLng(-23.62710, -46.56801),
    LatLng(-23.61073, -46.55121),
    LatLng(-23.60359, -46.57058),
    LatLng(-23.62600, -46.55724),
    LatLng(-23.61255, -46.56821),
    LatLng(-23.61148, -46.57334),
    LatLng(-23.60232, -46.57687),
    LatLng(-23.64809, -46.55629),
    LatLng(-23.63880, -46.56394),
    LatLng(-23.62168, -46.54903),
    LatLng(-23.64842, -46.57071),
    LatLng(-23.63652, -46.55885)
  ]

  /** The hidden answers (game.js:61-69). */
  const CORRECT_POINTS: seq<LatLng> := [
    LatLng(-23.62909, -46.56753),
    LatLng(-23.64019, -46.57460),
    LatLng(-23.63209, -46.56488),
    LatLng(-23.62274, -46.55676),
    LatLng(-23.61590, -46.56925),
    LatLng(-23.63547, -46.55407),
    LatLng(-23.64273, -46.56068)
  ]

  /** Where each answer sits among the selectable points. */
  const ANSWER_INDICES: seq<nat> := [0, 3, 7, 8, 10, 14, 18]

  /** `toleranciaMetros` (game.js:163) */
  const TOLERANCE_METERS: real := 150.0

  datatype GameState = Waiting | Playing | Finished

  /** `submitButton.disabled` as `updateUI` sets it (game.js:154). For a
      well-formed selection, the value means "enabled" exactly when the submit
      handler's guard (game.js:159) lets the submission through. */
  function SubmitDisabled(selectedCount: nat, state: GameState): (disabled: bool)
    ensures selectedCount <= MAX_SELECTIONS ==>
      (!disabled <==> selectedCount == MAX_SELECTIONS && state == Playing)
  {
    selectedCount < MAX_SELECTIONS || state != Playing
  }

  /** The coordinates of the chosen markers, in the order chosen (`marker.getLatLng()`). */
  function Positions(chosen: seq<nat>): (ps: seq<LatLng>)
    requires forall k :: 0 <= k < |chosen| ==> chosen[k] < |SELECTABLE_POINTS|
    ensures |ps| == |chosen|
    ensures forall k :: 0 <= k < |chosen| ==> ps[k] == SELECTABLE_POINTS[chosen[k]]
  {
    seq(|chosen|, k requires 0 <= k < |chosen| => SELECTABLE_POINTS[chosen[k]])
  }

  /** What the result screen shows: the hit count, the verdict and its text. */
  datatype RoundResult = RoundResult(hits: nat, band: Band, text: string)

  /** The page's module-level state. */
  class GameSession {
    var state: GameState
    var playerName: string
    var selections: seq<nat>

    /** The invariant every handler keeps. */
    ghost predicate Valid()
      reads this
    {
      && WellFormed(selections)
      && (forall k :: 0 <= k < |selections| ==> selections[k] < |SELECTABLE_POINTS|)
      && (state == Waiting ==> selections == [])
      && (state != Waiting ==> playerName != [] && IsTrimmed(playerName))
    }

    /** game.js:72-74 */
    constructor ()
      ensures Valid()
      ensures state == Waiting && playerName == [] && selections == []
    {
      state := Waiting;
      playerName := [];
      selections := [];
    }

    /** The start button's handler (game.js:93-117). The button is disabled
        once a round has started (game.js:109), so it only fires while waiting. */
    method Start(input: string) returns (accepted: bool)
      requires Valid() && state == Waiting
      modifies this
      ensures Valid()
      ensures accepted <==> !IsBlank(input)
      ensures accepted ==> state == Playing && playerName == Trim(input)
      ensures !accepted ==> state == old(state) && playerName == old(playerName)
      ensures selections == old(selections)
    {
      var name := Trim(input);
      TrimEmptyIffBlank(input);
      if name == [] {
        return false;
      }
      playerName := name;
      state := Playing;
      accepted := true;
    }

    /** A click on the marker of selectable point `c` (game.js:128-149). */
    method Click(c: nat)
      requires Valid() && c < |SELECTABLE_POINTS|
      modifies this
      ensures Valid()
      ensures state == old(state) && playerName == old(playerName)
      ensures selections == if old(state) == Playing then Toggle(old(selections), c) else old(selections)
    {
      if state != Playing {
        return;
      }
      var chosen := selections;
      ToggleKeepsWellFormed(chosen, c);
      ToggleKeepsBound(chosen, c, |SELECTABLE_POINTS|);
      if c in chosen {
        selections := Without(chosen, c);
      } else if |chosen| < MAX_SELECTIONS {
        selections := chosen + [c];
      }
      assert selections == Toggle(chosen, c);
    }

    /** The submit button's handler and the result screen (game.js:158-215):
        score the selection against the answers, pick the feedback band and
        record the round in the ranking. `dist` is the map's distance in metres. */
    method Submit(dist: (LatLng, LatLng) -> real, store: RankingStore) returns (result: Option<RoundResult>)
      requires Valid()
      modifies this, store
      ensures Valid()
      ensures result.Some? <==> old(state) == Playing && |old(selections)| == MAX_SELECTIONS
      ensures selections == old(selections) && playerName == old(playerName)
      ensures result.None? ==> state == old(state) && store.stored == old(store.stored)
      ensures result.Some? ==>
        && state == Finished
        && result.value.hits == Greedy(Positions(selections), CORRECT_POINTS, dist, TOLERANCE_METERS).hits
        && result.value.band == BandFor(result.value.hits)
        && result.value.text == Message(result.value.band)
        && store.stored == Some(SortByHits(old(store.Load()) + [NewEntry(playerName, result.value.hits)]))
    {
      if |selections| != MAX_SELECTIONS || state != Playing {
        return None;
      }
      state := Finished;
      assert Valid();
      var hits, _ := CountHits(Positions(selections), CORRECT_POINTS, dist, TOLERANCE_METERS);
      var band := BandFor(hits);
      if playerName != [] {
        store.Record(NewEntry(playerName, hits));
      }
      result := Some(RoundResult(hits, band, Message(band)));
    }
  }

  /** Each answer is the selectable point at its listed index. */
  lemma AnswersAreSelectable()
    ensures |ANSWER_INDICES| == |CORRECT_POINTS| == MAX_SELECTIONS
    ensures forall m :: 0 <= m < |ANSWER_INDICES| ==>
      ANSWER_INDICES[m] < |SELECTABLE_POINTS| && SELECTABLE_POINTS[ANSWER_INDICES[m]] == CORRECT_POINTS[m]
  {
  }

  lemma CorrectPointsDistinct()
    ensures NoDuplicates(CORRECT_POINTS)
  {
  }

  /** Choosing the seven answer markers, in any order, scores 7 and the
      "perfect" verdict, for any distance that is zero exactly between equal
      points and never negative. */
  lemma PerfectRound(order: seq<nat>, dist: (LatLng, LatLng) -> real)
    requires |order| == MAX_SELECTIONS && NoDuplicates(order)
    requires forall k :: 0 <= k < |order| ==> order[k] in ANSWER_INDICES
    requires forall p, q :: dist(p, q) >= 0.0 && (dist(p, q) == 0.0 <==> p == q)
    ensures forall k :: 0 <= k < |order| ==> order[k] < |SELECTABLE_POINTS|
    ensures Greedy(Positions(order), CORRECT_POINTS, dist, TOLERANCE_METERS).hits == MAX_SELECTIONS
    ensures BandFor(Greedy(Positions(order), CORRECT_POINTS, dist, TOLERANCE_METERS).hits) == Perfect
  {
    AnswersAreSelectable();
    CorrectPointsDistinct();
    var ps := Positions(order);
    forall k | 0 <= k < |order| ensures ps[k] in CORRECT_POINTS {
      var m :| 0 <= m < |ANSWER_INDICES| && ANSWER_INDICES[m] == order[k];
      assert ps[k] == CORRECT_POINTS[m];
    }
    forall i, j | 0 <= i < j < |ps| ensures ps[i] != ps[j] {
      var mi :| 0 <= mi < |ANSWER_INDICES| && ANSWER_INDICES[mi] == order[i];
      var mj :| 0 <= mj < |ANSWER_INDICES| && ANSWER_INDICES[mj] == order[j];
      assert ps[i] == CORRECT_POINTS[mi] && ps[j] == CORRECT_POINTS[mj];
    }
    PerfectSelection(ps, CORRECT_POINTS, dist, TOLERANCE_METERS);
  }
}
