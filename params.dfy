/** The fixed constants of the learner (3p.cc:11-21). */
module Params {
  /** Number of seats at the table (`NP`). */
  const NP: nat := 4

  /** Capacity of every per-player array (`MAX_PLAYERS`). */
  const MAX_PLAYERS: nat := 4

  /** Stake every jam puts into the pot (`SPR`). */
  const SPR: real := 1.0

  /** Damping constant of the estimator's step size and average (`learn_offset`). */
  const LEARN_OFFSET: real := 1.0
}
