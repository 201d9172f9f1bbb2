/**
 * The journaled state of the stack executor, as values. The executor keeps a
 * stack of substates, one per call or create frame, the transaction's own
 * frame at the bottom. Each substate holds the accounts this frame has
 * touched (copied up on first write), the addresses it marked for deletion,
 * the logs it emitted, its static flag, its depth and its gas meter.
 *
 * Reads search the stack from the top down and fall back to the backend;
 * writes copy the visible account into the top substate first. Leaving a
 * frame merges its substate into its parent's on success and drops its
 * accounts and deletions otherwise.
 *
 * Everything here is a function of the stack. The executor's methods that
 * change the stack are proved to leave either one of these functions of the
 * stack they started from, or one of the Frames module's compositions of
 * them; its lookups are proved to return these lookups.
 */
module Journal {
  import opened EvmTypes
  import opened Gasometer

  datatype Substate = Substate(
    meter: Meter,
    state: map<Address, Account>,
    deleted: set<Address>,
    logs: seq<Log>,
    isStatic: bool,
    depth: Option<nat>)

  /** The substate of the transaction's own frame. */
  function Root(gasLimit: nat): Substate {
    Substate(New(gasLimit), map[], {}, [], false, None)
  }

  /** The shape every reachable stack has: a root frame without a depth,
      then one frame per nested call whose depth counts from zero, and a
      static flag that, once set, stays set in the frame above. Stated
      layer by layer from the bottom, as the stack is built. */
  ghost predicate WellNested(layers: seq<Substate>)
    decreases |layers|
  {
    && |layers| >= 1
    && if |layers| == 1 then layers[0].depth == None
       else
         var below := layers[..|layers| - 1];
         && WellNested(below)
         && Top(layers).depth == Some(|layers| - 2)
         && (Top(below).isStatic ==> Top(layers).isStatic)
  }

  function Top(layers: seq<Substate>): Substate
    requires |layers| >= 1
  {
    layers[|layers| - 1]
  }

  /** The stack with its top substate replaced by `t`. */
  function WithTop(layers: seq<Substate>, t: Substate): (r: seq<Substate>)
    requires |layers| >= 1
    ensures |r| == |layers| && r[..|r| - 1] == layers[..|layers| - 1] && Top(r) == t
    ensures WellNested(layers) && t.depth == Top(layers).depth && t.isStatic == Top(layers).isStatic ==>
              WellNested(r)
  {
    layers[..|layers| - 1] + [t]
  }

  // ---------------------------------------------------------------------
  // Lookups
  // ---------------------------------------------------------------------

  /** Layer `i` is the topmost layer that holds an account for `a`. */
  ghost predicate HoldsTopmost(layers: seq<Substate>, a: Address, i: int) {
    && 0 <= i < |layers|
    && a in layers[i].state
    && forall j :: i < j < |layers| ==> a !in layers[j].state
  }

  /** `account`: the account cached for `a` by the topmost layer that has one. */
  function FindAccount(layers: seq<Substate>, a: Address): (r: Option<Account>)
    ensures |layers| >= 1 && a in Top(layers).state ==> r == Some(Top(layers).state[a])
    decreases |layers|
  {
    if |layers| == 0 then None
    else if a in Top(layers).state then Some(Top(layers).state[a])
    else FindAccount(layers[..|layers| - 1], a)
  }

  /** The search finds nothing exactly when no layer holds `a`, and what it
      finds is the account of the topmost layer that does. */
  lemma {:induction false} FindAccountTopmost(layers: seq<Substate>, a: Address)
    ensures FindAccount(layers, a).None? <==> forall i :: 0 <= i < |layers| ==> a !in layers[i].state
    ensures FindAccount(layers, a).Some? ==>
              exists i :: HoldsTopmost(layers, a, i) && FindAccount(layers, a).value == layers[i].state[a]
    decreases |layers|
  {
    var n := |layers|;
    if n > 0 {
      if a in Top(layers).state {
        assert HoldsTopmost(layers, a, n - 1);
      } else {
        var below := layers[..n - 1];
        FindAccountTopmost(below, a);
        assert forall i :: 0 <= i < |below| ==> below[i] == layers[i];
        assert forall i :: HoldsTopmost(below, a, i) ==> HoldsTopmost(layers, a, i);
      }
    }
  }

  /** One step of the top-down search over the lowest `i` layers. */
  lemma FindAccountStep(layers: seq<Substate>, i: nat, a: Address)
    requires 0 < i <= |layers|
    ensures FindAccount(layers[..i], a) ==
            if a in layers[i - 1].state then Some(layers[i - 1].state[a]) else FindAccount(layers[..i - 1], a)
    ensures IsDeleted(layers[..i], a) == (a in layers[i - 1].deleted || IsDeleted(layers[..i - 1], a))
  {
    assert layers[..i][..i - 1] == layers[..i - 1];
  }

  /** The account `a` would get when first written: basic information from
      the backend, code not yet known, no storage cached, storage not reset.
      Every lookup below reads it exactly as it reads the backend. */
  function Fresh(backend: Backend, a: Address): Account {
    Account(backend.basic(a), None, map[], false)
  }

  /** The account every lookup of `a` sees. */
  function Visible(layers: seq<Substate>, backend: Backend, a: Address): Account {
    FindAccount(layers, a).GetOr(Fresh(backend, a))
  }

  /** `nonce` */
  function NonceOf(layers: seq<Substate>, backend: Backend, a: Address): nat {
    Visible(layers, backend, a).basic.nonce
  }

  /** `balance` */
  function BalanceOf(layers: seq<Substate>, backend: Backend, a: Address): nat {
    Visible(layers, backend, a).basic.balance
  }

  /** `storage`: the slot as the topmost cached copy of the account has it;
      a slot it does not hold is zero if its storage was reset and the
      backend's otherwise. */
  function StorageOf(layers: seq<Substate>, backend: Backend, a: Address, index: Word): Word {
    var acc := Visible(layers, backend, a);
    if index in acc.storage then acc.storage[index]
    else if acc.resetStorage then 0
    else backend.storage(a, index)
  }

  /** `original_storage`: the slot as it was before the transaction, zero if
      the account's storage has been reset. */
  function OriginalStorageOf(layers: seq<Substate>, backend: Backend, a: Address, index: Word): Word {
    if Visible(layers, backend, a).resetStorage then 0 else backend.storage(a, index)
  }

  /** `code`: the cached code when it is known, the backend's otherwise. */
  function CodeOf(layers: seq<Substate>, backend: Backend, a: Address): seq<byte> {
    Visible(layers, backend, a).code.GetOr(backend.code(a))
  }

  /** `deleted`: whether some layer, searched from the top, has marked `a`
      for deletion. */
  function IsDeleted(layers: seq<Substate>, a: Address): (r: bool)
    ensures |layers| >= 1 && a in Top(layers).deleted ==> r
    decreases |layers|
  {
    if |layers| == 0 then false
    else if a in Top(layers).deleted then true
    else IsDeleted(layers[..|layers| - 1], a)
  }

  /** `a` is deleted exactly when some layer's deleted set holds it. */
  lemma {:induction false} IsDeletedSomeLayer(layers: seq<Substate>, a: Address)
    ensures IsDeleted(layers, a) <==> exists i :: 0 <= i < |layers| && a in layers[i].deleted
    decreases |layers|
  {
    var n := |layers|;
    if n > 0 && a !in Top(layers).deleted {
      var below := layers[..n - 1];
      IsDeletedSomeLayer(below, a);
      assert forall i :: 0 <= i < |below| ==> below[i] == layers[i];
    }
  }

  /** `create_address`: the address a CREATE, CREATE2 or fixed-address
      creation by `scheme` targets; a CREATE's depends on the current nonce
      of its caller. */
  function CreateAddress(layers: seq<Substate>, backend: Backend, hasher: Hasher, scheme: CreateScheme): Address {
    match scheme
    case Create2(caller, codeHash, salt) => hasher.create2(caller, salt, codeHash)
    case Legacy(caller) => hasher.legacy(caller, NonceOf(layers, backend, caller))
    case Fixed(address) => address
  }

  // ---------------------------------------------------------------------
  // Transitions
  // ---------------------------------------------------------------------

  /** `enter_substate`: pushes an empty substate for a frame with its own gas
      limit; it is static if asked to be or if its parent is, and one level
      deeper than its parent. */
  function Enter(layers: seq<Substate>, gasLimit: nat, isStatic: bool): (r: seq<Substate>)
    requires |layers| >= 1
    ensures |r| == |layers| + 1 && r[..|layers|] == layers
    ensures r[|layers|].state == map[] && r[|layers|].deleted == {} && r[|layers|].logs == []
    ensures r[|layers|].meter == New(gasLimit)
    ensures r[|layers|].isStatic == (isStatic || Top(layers).isStatic)
    ensures Top(layers).depth.None? ==> r[|layers|].depth == Some(0)
    ensures Top(layers).depth.Some? ==> r[|layers|].depth == Some(Top(layers).depth.value + 1)
    ensures WellNested(layers) ==> WellNested(r)
  {
    var parent := Top(layers);
    layers + [Substate(New(gasLimit), map[], {}, [], isStatic || parent.isStatic,
                       match parent.depth
                       case None => Some(0)
                       case Some(n) => Some(n + 1))]
  }

  /** `exit_substate`: pops the top substate. Its logs go to the parent
      whatever the outcome. On success its accounts override the parent's,
      its deletions join the parent's, its unspent gas goes back to the
      parent and its refund is added to the parent's. On revert only the
      unspent gas goes back. On failure nothing else is kept. The gas
      bookkeeping can fail after the merge. */
  function Exit(layers: seq<Substate>, kind: StackExitKind): (r: (seq<Substate>, Result<()>))
    requires |layers| > 1
    ensures |r.0| == |layers| - 1 && r.0[..|layers| - 2] == layers[..|layers| - 2]
    ensures Top(r.0).logs == layers[|layers| - 2].logs + Top(layers).logs
    ensures Top(r.0).isStatic == layers[|layers| - 2].isStatic
    ensures Top(r.0).depth == layers[|layers| - 2].depth
    ensures WellNested(layers) ==> WellNested(r.0)
  {
    var n := |layers|;
    var exited := layers[n - 1];
    var parent0 := layers[n - 2];
    var parent := parent0.(logs := parent0.logs + exited.logs);
    var rest := layers[..n - 1];
    assert rest[..n - 2] == layers[..n - 2];
    match kind
    case Succeeded =>
      var merged := parent.(deleted := parent.deleted + exited.deleted,
                            state := parent.state + exited.state);
      var (m1, stipend) := RecordStipend(merged.meter, Gas(exited.meter));
      if stipend.Err? then (WithTop(rest, merged.(meter := m1)), stipend)
      else
        var (m2, refund) := RecordRefund(m1, Refunded(exited.meter));
        (WithTop(rest, merged.(meter := m2)), refund)
    case Reverted =>
      var (m1, stipend) := RecordStipend(parent.meter, Gas(exited.meter));
      (WithTop(rest, parent.(meter := m1)), stipend)
    case Failed =>
      (WithTop(rest, parent), Ok(()))
  }

  /** The stack with account `a` of the top substate set to `acc`. */
  function SetAccount(layers: seq<Substate>, a: Address, acc: Account): (r: seq<Substate>)
    requires |layers| >= 1
    ensures |r| == |layers| && r[..|r| - 1] == layers[..|layers| - 1]
    ensures Top(r).state == Top(layers).state[a := acc] && Top(r).meter == Top(layers).meter
    ensures WellNested(layers) ==> WellNested(r)
  {
    var top := Top(layers);
    WithTop(layers, top.(state := top.state[a := acc]))
  }

  /** `account_mut`: makes sure the top substate holds its own copy of `a`,
      copied from the account visible below or made fresh from the backend. */
  function Touch(layers: seq<Substate>, backend: Backend, a: Address): (r: seq<Substate>)
    requires |layers| >= 1
    ensures |r| == |layers| && r[..|r| - 1] == layers[..|layers| - 1]
    ensures a in Top(r).state && Top(r).state[a] == Visible(layers, backend, a)
    ensures Top(r) == Top(layers).(state := Top(layers).state[a := Visible(layers, backend, a)])
    ensures WellNested(layers) ==> WellNested(r)
  {
    var top := Top(layers);
    if a in top.state then
      assert HoldsTopmost(layers, a, |layers| - 1);
      assert top.state == top.state[a := top.state[a]];
      layers
    else SetAccount(layers, a, Visible(layers, backend, a))
  }

  /** `withdraw`: takes `value` from the balance of `a`; fails with OutOfFund
      when the balance is smaller (the account has been copied up anyway). */
  function Withdraw(layers: seq<Substate>, backend: Backend, a: Address, value: nat): (r: (seq<Substate>, Result<()>))
    requires |layers| >= 1
    ensures |r.0| == |layers| && r.0[..|layers| - 1] == layers[..|layers| - 1]
    ensures WellNested(layers) ==> WellNested(r.0)
  {
    var touched := Touch(layers, backend, a);
    var acc := Top(touched).state[a];
    if acc.basic.balance < value then (touched, Err(OutOfFund))
    else (SetAccount(touched, a, acc.(basic := acc.basic.(balance := acc.basic.balance - value))), Ok(()))
  }

  /** `deposit`: adds `value` to the balance of `a`. */
  function Deposit(layers: seq<Substate>, backend: Backend, a: Address, value: nat): (r: seq<Substate>)
    requires |layers| >= 1
    ensures |r| == |layers| && r[..|layers| - 1] == layers[..|layers| - 1]
    ensures WellNested(layers) ==> WellNested(r)
  {
    var touched := Touch(layers, backend, a);
    var acc := Top(touched).state[a];
    SetAccount(touched, a, acc.(basic := acc.basic.(balance := acc.basic.balance + value)))
  }

  /** `transfer`: a withdrawal from the source and, if it succeeded, a
      deposit to the target. */
  function ApplyTransfer(layers: seq<Substate>, backend: Backend, t: Transfer): (r: (seq<Substate>, Result<()>))
    requires |layers| >= 1
    ensures |r.0| == |layers| && r.0[..|layers| - 1] == layers[..|layers| - 1]
    ensures WellNested(layers) ==> WellNested(r.0)
  {
    var w := Withdraw(layers, backend, t.source, t.value);
    assert |w.0| == |layers| && w.0[..|layers| - 1] == layers[..|layers| - 1];
    if w.1.Err? then w
    else
      var d := Deposit(w.0, backend, t.target, t.value);
      assert d[..|layers| - 1] == w.0[..|layers| - 1];
      (d, Ok(()))
  }

  /** `set_storage`: writes a storage slot of `a` in its top copy. */
  function SetStorage(layers: seq<Substate>, backend: Backend, a: Address, index: Word, value: Word): (r: seq<Substate>)
    requires |layers| >= 1
    ensures |r| == |layers| && r[..|layers| - 1] == layers[..|layers| - 1]
    ensures WellNested(layers) ==> WellNested(r)
  {
    var touched := Touch(layers, backend, a);
    var acc := Top(touched).state[a];
    SetAccount(touched, a, acc.(storage := acc.storage[index := value]))
  }

  /** `log`: appends a log to the top substate. */
  function AppendLog(layers: seq<Substate>, log: Log): (r: seq<Substate>)
    requires |layers| >= 1
    ensures |r| == |layers| && r[..|layers| - 1] == layers[..|layers| - 1]
    ensures Top(r) == Top(layers).(logs := Top(layers).logs + [log])
    ensures WellNested(layers) ==> WellNested(r)
  {
    var top := Top(layers);
    WithTop(layers, top.(logs := top.logs + [log]))
  }

  /** `mark_delete` (SELFDESTRUCT): moves the whole balance of `a` to
      `target`, zeroes the balance of `a` and marks `a` for deletion. */
  function MarkDelete(layers: seq<Substate>, backend: Backend, a: Address, target: Address): (r: (seq<Substate>, Result<()>))
    requires |layers| >= 1
    ensures |r.0| == |layers| && r.0[..|layers| - 1] == layers[..|layers| - 1]
    ensures WellNested(layers) ==> WellNested(r.0)
  {
    var balance := BalanceOf(layers, backend, a);
    var (moved, res) := ApplyTransfer(layers, backend, Transfer(a, target, balance));
    if res.Err? then (moved, res)
    else (ZeroAndDelete(moved, backend, a), Ok(()))
  }

  /** The end of `mark_delete`: the balance of `a` is zeroed in its top copy
      and `a` joins the deletions of the top substate. */
  function ZeroAndDelete(layers: seq<Substate>, backend: Backend, a: Address): (r: seq<Substate>)
    requires |layers| >= 1
    ensures |r| == |layers| && r[..|layers| - 1] == layers[..|layers| - 1]
    ensures WellNested(layers) ==> WellNested(r)
  {
    var touched := Touch(layers, backend, a);
    var acc := Top(touched).state[a];
    AddDeleted(SetAccount(touched, a, acc.(basic := acc.basic.(balance := 0))), a)
  }

  /** The stack with `a` added to the deletions of the top substate. */
  function AddDeleted(layers: seq<Substate>, a: Address): (r: seq<Substate>)
    requires |layers| >= 1
    ensures |r| == |layers| && r[..|layers| - 1] == layers[..|layers| - 1]
    ensures Top(r) == Top(layers).(deleted := Top(layers).deleted + {a})
    ensures WellNested(layers) ==> WellNested(r)
  {
    var top := Top(layers);
    WithTop(layers, top.(deleted := top.deleted + {a}))
  }

  // ---------------------------------------------------------------------
  // Frame gas and depth
  // ---------------------------------------------------------------------

  /** The depth a frame entered from the top frame gets. */
  function ChildDepth(layers: seq<Substate>): (r: nat)
    requires |layers| >= 1
    ensures Enter(layers, 0, false)[|layers|].depth == Some(r)
    ensures WellNested(layers) ==> r == |layers| - 1
  {
    match Top(layers).depth
    case None => 0
    case Some(n) => n + 1
  }

  /** The top frame is deeper than the call stack limit allows. */
  predicate TooDeep(layers: seq<Substate>, config: Config)
    requires |layers| >= 1
  {
    match Top(layers).depth
    case None => false
    case Some(depth) => depth > config.callStackLimit
  }

  /** Charges `cost` to the meter of the top frame. */
  function Charge(layers: seq<Substate>, cost: nat): (r: (seq<Substate>, Result<()>))
    requires |layers| >= 1
    ensures |r.0| == |layers| && r.0[..|layers| - 1] == layers[..|layers| - 1]
    ensures Top(r.0) == Top(layers).(meter := RecordCost(Top(layers).meter, cost).0)
    ensures r.1.Ok? <==> !Top(layers).meter.failed && Top(layers).meter.used + cost <= Top(layers).meter.limit
    ensures r.1.Err? ==> r.1.error == OutOfGas && Top(r.0).meter.failed
    ensures WellNested(layers) ==> WellNested(r.0)
  {
    var top := Top(layers);
    var (m, res) := RecordCost(top.meter, cost);
    (WithTop(layers, top.(meter := m)), res)
  }

  /** Marks the meter of the top frame failed: all of its gas is spent. */
  function FailTop(layers: seq<Substate>): (r: seq<Substate>)
    requires |layers| >= 1
    ensures |r| == |layers| && r[..|layers| - 1] == layers[..|layers| - 1]
    ensures Top(r) == Top(layers).(meter := Top(layers).meter.(failed := true))
    ensures WellNested(layers) ==> WellNested(r)
  {
    var top := Top(layers);
    WithTop(layers, top.(meter := Fail(top.meter)))
  }
}
