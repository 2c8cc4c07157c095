# jogoeureka: the map game's selection, scoring and ranking, in Dafny

`game.js` is a browser mini-game. The player types a name and presses start.
They then click up to seven of the 31 grey markers on a map of São Caetano
do Sul, and press submit. The page scores the choice against seven hidden
answer points. Each chosen marker, in the order it was clicked, is credited
to the nearest answer point that no earlier marker has taken, if that point
lies within 150 metres. The result screen shows the hit count with one of
four verdicts. The round is added to a leaderboard in local storage, which
is kept sorted by hits, highest first.

The model, one module per file:

- `wrappers.dfy` (`Wrappers`): the `Option` type used for "nothing there".
- `jsstring.dfy` (`JsString`): `String.prototype.trim`, applied to the player's name.
- `selection.dfy` (`Selection`): `MAX_SELECTIONS` and the marker click as a function on the list of chosen marker indices.
- `matching.dfy` (`Matching`): the greedy tolerance matcher.
  - A specification: `ClosestUnmatched`, `Claim`, `Step` and `Greedy`, defined by recursion on the prefix of selections scored so far.
  - The scorer as written: `CountHits` and `FindClosest`, loops over a `correctMatched` array, proved equal to the specification.
- `feedback.dfy` (`Feedback`): the four verdict bands and their messages.
- `ranking.dfy` (`Ranking`): leaderboard entries, the score text, and the stable descending sort.
  - The sort is specified as an insertion sort.
  - A uniqueness lemma shows that every stable descending sort gives the same list.
  - `RankingStore` is the storage key `"ranking"` as a class.
- `game.dfy` (`Game`): the point tables, and `GameSession`, a class for the page's state.
  - The state is the name, the game state (`waiting`/`playing`/`finished`) and the selection.
  - Its methods are the start, marker-click and submit handlers.

The geodesic distance `map.distance` is a parameter `dist` of the matcher and
of `Submit`. Nothing is assumed about it, except in the lemmas that say so.

## Model

| member | source | states |
|---|---|---|
| Selection.Without | game.js:136 | The filter keeps exactly the other markers (membership iff), never grows the list, returns the list unchanged when the marker is absent, and keeps a duplicate-free list duplicate-free |
| Selection.Toggle | game.js:129-146 | After a click, the marker is chosen iff it was not chosen and fewer than MAX_SELECTIONS were; no other marker's membership changes |
| Selection.WithoutAppend | game.js:136 | Filtering a concatenation is the concatenation of the filtered parts |
| Selection.WithoutAt | game.js:136 | Removing the marker at position k of a duplicate-free list yields `s[..k] + s[k+1..]`: the others keep their order |
| Selection.ToggleKeepsWellFormed | game.js:131-146 | A click keeps the selection duplicate-free and at most MAX_SELECTIONS long |
| Selection.ToggleKeepsBound | game.js:131-146 | A click keeps every chosen index a valid marker index |
| Selection.ToggleWhenFullIgnored | game.js:137 | With MAX_SELECTIONS markers chosen, clicking an unchosen one changes nothing |
| Selection.ToggleChosenRemoves | game.js:131-136 | Clicking a chosen marker removes exactly it and keeps the rest in order |
| Selection.ToggleTwiceRestores | game.js:131-146 | Clicking an unchosen marker twice, when there is room, restores the selection |
| Selection.ToggleTwiceMovesToEnd | game.js:131-146 | Clicking a chosen marker twice moves it to the end of the selection |
| JsString.SkipForward | game.js:94 | Returns the first index at or after i whose character trim keeps (or the length); everything skipped is trimmable |
| JsString.SkipBackward | game.js:94 | Returns the end of the last kept character in a range (or the range's start); everything skipped is trimmable |
| JsString.Trim | game.js:94 | The trimmed name is no longer than the input and neither starts nor ends with white space or a line terminator |
| JsString.TrimStripsBlankEnds | game.js:94 | trim removes a blank prefix and a blank suffix and keeps the middle as a contiguous slice |
| JsString.TrimEmptyIffBlank | game.js:94-98 | The trimmed name is empty iff the input consists only of white space and line terminators |
| JsString.TrimOfTrimmed | game.js:94 | A string with no trimmable ends is its own trim |
| JsString.TrimIdempotent | game.js:94 | Trimming twice is trimming once |
| Matching.CountTrue | game.js:164 | The number of set flags is at most the number of flags, and equals it iff every flag is set |
| Matching.CountTrueSet | game.js:181-183 | Setting one clear flag raises the count by exactly one |
| Matching.ClosestUnmatched | game.js:169-179 | The scan finds nothing iff every point is matched. Otherwise it finds an unmatched point with the least distance, strictly nearer than every unmatched point with a lower index: ties go to the lowest index (strict `<`) |
| Matching.Claim | game.js:169-184 | A credited point is in range, unmatched, within the tolerance and nearest among the unmatched, with ties to the lowest index; nothing is credited iff every unmatched point is beyond the tolerance |
| Matching.Step | game.js:167-185 | One selection keeps one flag per answer point, adds at most one hit and never clears a flag |
| Matching.Greedy | game.js:163-185 | The final hit count equals the number of set flags and is at most the number of selections and the number of answer points |
| Matching.StepHitIff | game.js:181-184 | A selection scores iff some unmatched answer point lies within the tolerance; a selection that misses consumes nothing; a hit sets exactly one more flag |
| Matching.GreedyPrefixStep | game.js:167 | Scoring one more selection is one more step of the loop |
| Matching.ClaimAt | game.js:167-185 | The point credited to the k-th selection is a valid answer index within the tolerance of that selection |
| Matching.MatchedMonotone | game.js:183 | A flag, once set, stays set for the rest of the round |
| Matching.ClaimsDistinct | game.js:173-183 | No answer point is credited to two selections |
| Matching.ClaimedIsMatched | game.js:183 | A point credited to a selection is flagged from then on |
| Matching.GreedyStartsClear | game.js:164 | Before any selection no flag is set |
| Matching.StepSetsOnlyClaim | game.js:181-184 | A step sets no flag other than the one it credits |
| Matching.MatchedIsClaimed | game.js:164-184 | Every set flag was set by the credit of some earlier selection |
| Matching.FindClosest | game.js:168-179 | The array-based inner loop returns -1 exactly when the specification finds nothing, and otherwise the index and distance the specification finds |
| Matching.StepFromClosest | game.js:181-184 | Given the inner loop's result, one outer iteration increments and flags exactly when the index is not -1 and the distance is within the tolerance |
| Matching.CountHits | game.js:163-185 | The scorer's loop computes exactly the hits and flags of the greedy specification; hits equal the set flags and are at most the number of answers |
| Matching.OrderMatters | game.js:167-185 | The greedy score depends on click order: the same two selections score 1 in one order and 2 in the other |
| Matching.FirstPickTakesPointZero | game.js:169-184 | In that example, the first selection takes answer point 0 |
| Matching.SecondPick | game.js:169-184 | In that example, the second selection scores iff its distance to the remaining point is within the tolerance |
| Matching.PerfectSelection | game.js:163-185 | Distinct selections that are answer points score one hit each, when distance is zero exactly between equal points |
| Matching.PerfectPrefix | game.js:167-185 | In that situation, after n selections there are n hits, and exactly the selected answer points are flagged |
| Matching.PerfectPrefixStep | game.js:167-185 | One step of that induction |
| Matching.PerfectStep | game.js:169-184 | A selection equal to an unmatched answer point is credited that point |
| Feedback.BandFor | game.js:204-208 | Perfect iff hits == MAX_SELECTIONS; Excellent iff 5 or more but not all; Good iff 3 or 4; KeepTrying iff fewer than 3 |
| Feedback.BandMonotone | game.js:204-208 | Within 0..MAX_SELECTIONS, more hits never give a worse verdict |
| Ranking.DigitChar | game.js:212 | A digit prints as a character between '0' and '9' |
| Ranking.Decimal | game.js:212 | A number prints as a non-empty numeral, a single digit iff it is below 10, with no leading zero |
| Ranking.DecimalRoundTrip | game.js:212 | Reading the printed numeral back gives the number: the score text carries the hit count |
| Ranking.ScoreText | game.js:212 | The score text ends in "/7" and the numeral before it reads back as the hit count |
| Ranking.NewEntry | game.js:212 | The pushed record carries the player's name, the round's hits and the score text of those hits |
| Ranking.WithHits | game.js:213 | An equal-hits group is no longer than the list it comes from |
| Ranking.WithHitsEmpty | game.js:213 | A group is empty iff no entry has that hit count |
| Ranking.WithHitsAppend | game.js:212-213 | Grouping distributes over concatenation |
| Ranking.Insert | game.js:213 | Inserting adds exactly the entry: one longer, same multiset plus the entry |
| Ranking.InsertSorted | game.js:213 | Inserting into a list sorted by descending hits keeps it sorted |
| Ranking.SortByHits | game.js:213 | The sort is a permutation of its input, of the same length, sorted by descending hits |
| Ranking.InsertStable | game.js:213 | Insertion keeps each equal-hits group in input order, with the new entry last |
| Ranking.InsertBehindStable | game.js:213 | Stability step when the entry goes behind the head |
| Ranking.InsertAheadStable | game.js:213 | Stability step when the entry goes in front |
| Ranking.SortStable | game.js:213 | The sort is stable: each equal-hits group keeps its input order |
| Ranking.SortStableStep | game.js:213 | One step of that induction |
| Ranking.WithHitsHead | game.js:213 | The head of a list is the first entry of its own group |
| Ranking.SortedHeadsAgree | game.js:213 | Two sorted lists with the same groups start with the same entry |
| Ranking.TailGroupsAgree | game.js:213 | Dropping an equal head keeps the groups equal |
| Ranking.SortedStableUnique | game.js:213 | Two lists sorted by descending hits with the same groups are equal, so any stable sort gives SortByHits's result |
| Ranking.SortKeepsSorted | game.js:213 | Sorting a list that is already sorted leaves it as it is |
| Ranking.RecordedList | game.js:211-213 | After a push and sort, the list is one longer, holds the prior entries plus the new one, is sorted, and each group keeps its prior order with the new entry at its end |
| Ranking.RecordIntoSorted | game.js:211-213 | When the stored list was sorted, recording inserts the entry in place |
| Ranking.RankingStore.constructor | game.js:211 | The store starts with the given content of the key |
| Ranking.RankingStore.Load | game.js:211 | A missing key reads as the empty list; a present key reads as its list |
| Ranking.RankingStore.Record | game.js:211-214 | The stored list becomes the sorted old list plus the entry; it contains the entry, is one longer and is sorted |
| Game.SubmitDisabled | game.js:154-159 | For a well-formed selection, the value `updateUI` assigns to `submitButton.disabled` means "enabled" iff the submit guard lets the click through |
| Game.Positions | game.js:168 | The chosen markers' coordinates, one per choice, in click order |
| Game.GameSession.constructor | game.js:71-74 | A new session is waiting, with no name and no selection |
| Game.GameSession.Start | game.js:93-110 | The round starts iff the input is not blank; the kept name is the trimmed input; a blank input changes nothing; the selection is unchanged |
| Game.GameSession.Click | game.js:128-149 | While playing, a click toggles the marker as Toggle says; otherwise nothing changes; the session invariant is kept |
| Game.GameSession.Submit | game.js:158-215 | A result exists iff the game is playing with MAX_SELECTIONS markers chosen. The game is then finished; the hits are the greedy score of the chosen positions; the verdict is BandFor of the hits, shown with its message text; the stored ranking becomes the sorted old list plus the new entry. Otherwise neither the session nor the store changes |
| Game.AnswersAreSelectable | game.js:27-69 | Each answer point is the selectable marker at its listed index |
| Game.CorrectPointsDistinct | game.js:61-69 | The seven answer points are pairwise different |
| Game.PerfectRound | game.js:158-208 | Choosing the seven answer markers, in any order, scores 7 and the Perfect verdict, for any distance that is non-negative and zero exactly between equal points |

## Left out

- Map rendering, markers, highlight circles, tooltips, the answer overlay (game.js:187-196), DOM screen changes and the deferred `fitBounds` are not modelled. They have no effect on the game's values.
- The boundary overlay `fetch` (game.js:10-24) is not modelled. It is I/O, and its failure only logs and alerts.
- `alert` on a blank name (game.js:96) is not modelled: the model only leaves the state unchanged.
- `map.distance` is a parameter `dist`. Its geodesic formula is Leaflet's own code, which is not part of this model.
- `Matching.FindClosest`: the initial `closestDist = Infinity` is modelled by `closestIdx == -1`. This agrees with the source for every finite distance. NaN and infinite distances are not modelled: a NaN distance never wins a `<` comparison in the source.
- `Game.GameSession.Start` requires the `waiting` state. The handler itself has no state check, but it disables the start button after a successful start (game.js:109), so a second start cannot fire.
- `Ranking.RankingStore.Load`: only a missing key is modelled, read as `[]`. Unparsable stored text makes `JSON.parse` throw in the source, and the handler stops before the ranking is written. This model has no such failure, because the store holds a list rather than text. The serialized JSON text itself is not modelled.
- `Ranking.SortByHits` is a stable insertion sort. `SortedStableUnique` shows that any stable descending sort by hits gives the same list. An engine with an unstable sort is not modelled.
- `Feedback.Message`: the verdict texts are written out as data; they are not related to anything by a lemma.
- The code has 31 selectable points, although its comment (game.js:26) says 30. The model uses the 31 points of the code.
- `Game.GameSession.Submit`: after a submission the state is `finished` and no handler resets it, as in the source. Page reload is not modelled.
- `Game.SubmitDisabled` is about the expression at game.js:154 only. The button's `disabled` flag is not part of the session state. The source recomputes it only after marker clicks (game.js:148), not on start or submit. After a submission the button stays enabled but hidden (game.js:218), while the guard at game.js:159 now refuses.
- Strings: JavaScript strings are sequences of UTF-16 code units, and Dafny's `string` holds Unicode scalar values, so a lone surrogate has no counterpart here. `JsString.Trim` agrees with `String.prototype.trim` on every string both can hold: every trimmable character is in the Basic Multilingual Plane, and none is a surrogate.
