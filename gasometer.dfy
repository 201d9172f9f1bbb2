/**
 * The gas meter each substate carries. Its implementation lives outside the
 * executor; this module keeps only what the executor relies on: a limit, the
 * gas used so far, an accumulated refund, and a failed state after which
 * nothing more can be recorded and no gas is left.
 */
module Gasometer {
  import opened EvmTypes

  datatype Meter = Meter(limit: nat, used: nat, refunded: int, failed: bool)

  /** A fresh meter for a frame that may spend `limit`. */
  function New(limit: nat): Meter {
    Meter(limit, 0, 0, false)
  }

  /** Gas still available. */
  function Gas(m: Meter): nat {
    if m.failed || m.limit < m.used then 0 else m.limit - m.used
  }

  /** Gas used so far; a failed meter has used all of its limit. */
  function TotalUsed(m: Meter): nat {
    if m.failed then m.limit else m.used
  }

  /** Refund accumulated so far; a failed meter refunds nothing. */
  function Refunded(m: Meter): int {
    if m.failed then 0 else m.refunded
  }

  /** Charges `cost`; charging more than is left fails the meter. */
  function RecordCost(m: Meter, cost: nat): (Meter, Result<()>) {
    if m.failed then (m, Err(OutOfGas))
    else if m.limit < m.used + cost then (m.(failed := true), Err(OutOfGas))
    else (m.(used := m.used + cost), Ok(()))
  }

  /** Gives back `stipend` units of used gas (the gas a child frame left). */
  function RecordStipend(m: Meter, stipend: nat): (Meter, Result<()>) {
    if m.failed then (m, Err(OutOfGas))
    else (m.(used := if stipend <= m.used then m.used - stipend else 0), Ok(()))
  }

  /** Adds `refund` (which may be negative) to the accumulated refund. */
  function RecordRefund(m: Meter, refund: int): (Meter, Result<()>) {
    if m.failed then (m, Err(OutOfGas))
    else (m.(refunded := m.refunded + refund), Ok(()))
  }

  /** Charges the code deposit of a created contract, 200 gas per byte. */
  function RecordDeposit(m: Meter, len: nat): (Meter, Result<()>) {
    RecordCost(m, 200 * len)
  }

  /** Marks the meter failed: all of its gas is spent. */
  function Fail(m: Meter): Meter {
    m.(failed := true)
  }
}
