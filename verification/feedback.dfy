/** The result screen's verdict (game.js:204-208): a band chosen from the hit
    count by three thresholds, and the message shown for it. */
module Feedback {
  import opened Selection

  datatype Band = Perfect | Excellent | Good | KeepTrying

  /** The threshold chain of `showResults`, tested in order. */
  function BandFor(hits: nat): (b: Band)
    ensures b == Perfect <==> hits == MAX_SELECTIONS
    ensures b == Excellent <==> hits != MAX_SELECTIONS && hits >= 5
    ensures b == Good <==> 3 <= hits < 5
    ensures b == KeepTrying <==> hits < 3
  {
    if hits == MAX_SELECTIONS then Perfect
    else if hits >= 5 then Excellent
    else if hits >= 3 then Good
    else KeepTrying
  }

  /** The text written into the feedback element. */
  function Message(b: Band): string {
    match b
    case Perfect => "Perfeito! Você acertou todos os pontos!"
    case Excellent => "Excelente! Suas escolhas foram muito boas!"
    case Good => "Bom trabalho, mas dá pra melhorar."
    case KeepTrying => "Continue tentando! Veja onde estão os pontos verdes."
  }

  /** Position of a band, from worst to best. */
  function Rank(b: Band): nat {
    match b
    case KeepTrying => 0
    case Good => 1
    case Excellent => 2
    case Perfect => 3
  }

  /** More hits never earn a worse verdict, within the possible range 0..MAX_SELECTIONS. */
  lemma BandMonotone(h1: nat, h2: nat)
    requires h1 <= h2 <= MAX_SELECTIONS
    ensures Rank(BandFor(h1)) <= Rank(BandFor(h2))
  {
  }
}
