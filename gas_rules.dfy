/**
 * The gas arithmetic the stack executor does itself: the refund cap of the
 * final gas charge, "all but one 64th" of EIP-150, the gas limit handed to a
 * call or create frame, and the call stipend added with saturation. Gas
 * amounts are `usize` in the executor; the one place where the width
 * matters, the cast of the signed refund to `usize`, is written out.
 */
module GasRules {
  import opened EvmTypes

  const USIZE_MODULUS: nat := 0x1_0000_0000_0000_0000
  const USIZE_MAX: nat := USIZE_MODULUS - 1
  const I64_MIN: int := -0x8000_0000_0000_0000

  function Min(a: nat, b: nat): nat {
    if a <= b then a else b
  }

  /** The cast `x as usize` of a 64-bit signed value: wraps modulo 2^64, so a
      negative value becomes a very large one. */
  function AsUsize(x: int): (r: nat)
    ensures r <= USIZE_MAX
    ensures 0 <= x <= USIZE_MAX ==> r == x
    ensures I64_MIN <= x < 0 ==> r >= 0x8000_0000_0000_0000
  {
    x % USIZE_MODULUS
  }

  /** The gas charged for a transaction that used `total` gas and earned a
      refund of `refunded`: the refund is capped at half of the gas used
      (section 6.2 of the Ethereum Yellow Paper). */
  function UsedGas(total: nat, refunded: int): (r: nat)
    ensures total - total / 2 <= r <= total
    ensures refunded == 0 ==> r == total
    ensures 0 <= refunded <= USIZE_MAX && refunded <= total / 2 ==> r == total - refunded
    ensures total / 2 <= refunded <= USIZE_MAX ==> r == total - total / 2
    // a negative refund wraps to a huge usize, so the cap applies in full
    ensures total <= USIZE_MAX && I64_MIN <= refunded < 0 ==> r == total - total / 2
  {
    total - Min(total / 2, AsUsize(refunded))
  }

  /** All but one 64th of `gas` (EIP-150): the ceiling of 63 * gas / 64. */
  function L64(gas: nat): (r: nat)
    ensures r <= gas
    ensures 63 * gas <= 64 * r < 63 * gas + 64
  {
    var q, rem := gas / 64, gas % 64;
    assert gas == 64 * q + rem;
    assert gas - q == 63 * q + rem;
    gas - q
  }

  /** The gas limit of a new call or create frame: what the caller asked for,
      but never more than the gas available, which with EIP-150 in force is
      all but one 64th of what is left. */
  function CallGasLimit(available: nat, target: Option<nat>, takeL64: bool, config: Config): (r: nat)
    ensures r <= available
    ensures target.Some? ==> r <= target.value
    ensures takeL64 && config.callL64AfterGas ==> 64 * r < 63 * available + 64
    ensures target.Some? && 64 * target.value <= 63 * available ==> r == target.value
    ensures !(takeL64 && config.callL64AfterGas) && (target.None? || available <= target.value) ==>
              r == available
    // the limit is the larger of the two bounds' minimum: what was asked for
    // when that fits in the gas that may be handed on, all of that gas otherwise
    ensures var after := if takeL64 && config.callL64AfterGas then L64(available) else available;
            && r <= after
            && (target.None? ==> r == after)
            && (target.Some? && target.value <= after ==> r == target.value)
            && (target.Some? && after <= target.value ==> r == after)
  {
    var after := if takeL64 && config.callL64AfterGas then L64(available) else available;
    Min(target.GetOr(after), after)
  }

  /** `a.saturating_add(b)` on usize. */
  function SaturatingAdd(a: nat, b: nat): (r: nat)
    requires a <= USIZE_MAX
    ensures a <= r <= USIZE_MAX
    ensures r <= a + b
    ensures r < a + b ==> r == USIZE_MAX
  {
    if a + b <= USIZE_MAX then a + b else USIZE_MAX
  }

  /** The gas limit of a call frame after the stipend: a call that moves a
      non-zero value gets `callStipend` extra gas, saturating at usize::MAX. */
  function StipendedLimit(gasLimit: nat, transfer: Option<Transfer>, takeStipend: bool, config: Config): (r: nat)
    requires gasLimit <= USIZE_MAX
    ensures gasLimit <= r <= USIZE_MAX
    ensures r <= gasLimit + config.callStipend
    ensures r != gasLimit ==> takeStipend && transfer.Some? && transfer.value.value != 0
    ensures (takeStipend && transfer.Some? && transfer.value.value != 0 &&
             gasLimit + config.callStipend <= USIZE_MAX) ==> r == gasLimit + config.callStipend
    ensures (takeStipend && transfer.Some? && transfer.value.value != 0 &&
             gasLimit + config.callStipend > USIZE_MAX) ==> r == USIZE_MAX
  {
    if takeStipend && transfer.Some? && transfer.value.value != 0
    then SaturatingAdd(gasLimit, config.callStipend)
    else gasLimit
  }
}
