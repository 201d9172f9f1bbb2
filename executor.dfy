/**
 * The stack executor: the stack of substates it keeps while a transaction
 * runs, and the operations the interpreter calls on it. The methods change
 * `substates` and `callGraph` in place. The single-step ones are proved to
 * leave the stack the matching Journal function computes. The steps of
 * `create_inner` and `call_inner` are proved to leave the stack a Frames
 * function computes, and they state their exit reason and output directly.
 * The read-only methods search the stack with a loop, as the executor does,
 * and are proved to return the Journal's lookups.
 */
module Executor {
  import opened EvmTypes
  import opened Gasometer
  import opened GasRules
  import opened Journal
  import opened JournalLemmas
  import opened Frames

  /** The change a touched, not deleted account turns into. */
  function ModifyOf(a: Address, acc: Account): Apply {
    Modify(a, acc.basic, acc.code, acc.storage, acc.resetStorage)
  }

  /** A set of addresses holding `x` has a least element: either `x` or
      the least element of the set below some smaller member. */
  lemma {:induction false} HasLeast(s: set<Address>, x: Address)
    requires x in s
    ensures exists m :: m in s && forall y :: y in s ==> m <= y
    decreases x
  {
    if y :| y in s && y < x {
      HasLeast(s, y);
    } else {
      assert forall y :: y in s ==> x <= y;
    }
  }

  /** What the first loop of `deconstruct` has produced once the addresses
      in `rest` are still to be visited: a Modify, in ascending order, for
      every visited account that is not deleted, each below every address
      still to come. */
  ghost predicate ModifiesSoFar(state: map<Address, Account>, deleted: set<Address>, rest: set<Address>,
                                applies: seq<Apply>)
  {
    && rest <= state.Keys
    && (forall i :: 0 <= i < |applies| ==>
          && applies[i].Modify?
          && applies[i].address in state
          && applies[i].address !in deleted
          && applies[i] == ModifyOf(applies[i].address, state[applies[i].address]))
    && (forall i, j :: 0 <= i < j < |applies| ==> applies[i].address < applies[j].address)
    && (forall i, y :: 0 <= i < |applies| && y in rest ==> applies[i].address < y)
    && (forall x :: x in state && x !in deleted && x !in rest ==> ModifyOf(x, state[x]) in applies)
  }

  /** Visiting the least address still to come keeps `ModifiesSoFar`. */
  lemma ModifyStep(state: map<Address, Account>, deleted: set<Address>, rest: set<Address>,
                   applies: seq<Apply>, address: Address)
    requires ModifiesSoFar(state, deleted, rest, applies)
    requires address in rest && forall y :: y in rest ==> address <= y
    ensures address !in deleted ==>
              ModifiesSoFar(state, deleted, rest - {address}, applies + [ModifyOf(address, state[address])])
    ensures address in deleted ==> ModifiesSoFar(state, deleted, rest - {address}, applies)
  {
    if address !in deleted {
      var next := applies + [ModifyOf(address, state[address])];
      forall x | x in state && x !in deleted && x !in rest - {address}
        ensures ModifyOf(x, state[x]) in next
      {
        if x == address {
          assert next[|applies|] == ModifyOf(x, state[x]);
        } else {
          var k :| 0 <= k < |applies| && applies[k] == ModifyOf(x, state[x]);
          assert next[k] == ModifyOf(x, state[x]);
        }
      }
    }
  }

  /** The first loop of `deconstruct`: one Modify per account of `state`
      not in `deleted`, in ascending address order (the BTreeMap's). */
  method ModifyApplies(state: map<Address, Account>, deleted: set<Address>) returns (applies: seq<Apply>)
    ensures forall i :: 0 <= i < |applies| ==>
              && applies[i].Modify?
              && applies[i].address in state
              && applies[i].address !in deleted
              && applies[i] == ModifyOf(applies[i].address, state[applies[i].address])
    ensures forall i, j :: 0 <= i < j < |applies| ==> applies[i].address < applies[j].address
    ensures forall x :: x in state && x !in deleted ==> ModifyOf(x, state[x]) in applies
  {
    var rest := state.Keys;
    applies := [];
    while rest != {}
      invariant ModifiesSoFar(state, deleted, rest, applies)
      decreases |rest|
    {
      var some :| some in rest;
      HasLeast(rest, some);
      var address :| address in rest && forall y :: y in rest ==> address <= y;
      ModifyStep(state, deleted, rest, applies, address);
      rest := rest - {address};
      if address !in deleted {
        applies := applies + [ModifyOf(address, state[address])];
      }
    }
  }

  /** What the second loop of `deconstruct` has produced once the addresses
      in `rest` are still to be visited. */
  ghost predicate DeletesSoFar(deleted: set<Address>, rest: set<Address>, applies: seq<Apply>) {
    && rest <= deleted
    && (forall i :: 0 <= i < |applies| ==> applies[i].Delete? && applies[i].address in deleted)
    && (forall i, j :: 0 <= i < j < |applies| ==> applies[i].address < applies[j].address)
    && (forall i, y :: 0 <= i < |applies| && y in rest ==> applies[i].address < y)
    && (forall x :: x in deleted && x !in rest ==> Delete(x) in applies)
  }

  /** Visiting the least address still to come keeps `DeletesSoFar`. */
  lemma DeleteStep(deleted: set<Address>, rest: set<Address>, applies: seq<Apply>, address: Address)
    requires DeletesSoFar(deleted, rest, applies)
    requires address in rest && forall y :: y in rest ==> address <= y
    ensures DeletesSoFar(deleted, rest - {address}, applies + [Delete(address)])
  {
    var next := applies + [Delete(address)];
    forall x | x in deleted && x !in rest - {address}
      ensures Delete(x) in next
    {
      if x == address {
        assert next[|applies|] == Delete(x);
      } else {
        var k :| 0 <= k < |applies| && applies[k] == Delete(x);
        assert next[k] == Delete(x);
      }
    }
  }

  /** The second loop of `deconstruct`: one Delete per deleted address, in
      ascending order (the BTreeSet's). */
  method DeleteApplies(deleted: set<Address>) returns (applies: seq<Apply>)
    ensures forall i :: 0 <= i < |applies| ==> applies[i].Delete? && applies[i].address in deleted
    ensures forall i, j :: 0 <= i < j < |applies| ==> applies[i].address < applies[j].address
    ensures forall x :: x in deleted ==> Delete(x) in applies
  {
    var rest := deleted;
    applies := [];
    while rest != {}
      invariant DeletesSoFar(deleted, rest, applies)
      decreases |rest|
    {
      var some :| some in rest;
      HasLeast(rest, some);
      var address :| address in rest && forall y :: y in rest ==> address <= y;
      DeleteStep(deleted, rest, applies, address);
      rest := rest - {address};
      applies := applies + [Delete(address)];
    }
  }

  /** `call_inner` gets as far as running the callee: the current frame can
      pay the new frame's gas limit, the new frame is within the call stack
      limit, and the payer of the value, if any, can afford it. */
  ghost predicate CallOpens(layers: seq<Substate>, backend: Backend, config: Config, targetGas: Option<nat>,
                            takeL64: bool, transfer: Option<Transfer>)
    requires |layers| >= 1
  {
    && Charge(layers, CallGasLimit(Gas(Top(layers).meter), targetGas, takeL64, config)).1.Ok?
    && CallRuns(layers, backend, config, transfer)
  }

  class StackExecutor {
    const backend: Backend
    const config: Config
    const hasher: Hasher
    var substates: seq<Substate>
    /** The internal calls of the current transaction. */
    var callGraph: seq<InternalTransaction>

    ghost predicate Valid()
      reads this
    {
      WellNested(substates)
    }

    /** `new`: a stack holding only the transaction's own frame. */
    constructor (backend: Backend, gasLimit: nat, config: Config, hasher: Hasher)
      ensures Valid()
      ensures this.backend == backend && this.config == config && this.hasher == hasher
      ensures substates == [Root(gasLimit)] && callGraph == []
    {
      this.backend := backend;
      this.config := config;
      this.hasher := hasher;
      substates := [Substate(New(gasLimit), map[], {}, [], false, None)];
      callGraph := [];
    }

    // -------------------------------------------------------------------
    // Lookups
    // -------------------------------------------------------------------

    /** `account`: searches the substates from the top down. */
    method GetAccount(a: Address) returns (r: Option<Account>)
      requires Valid()
      ensures r == FindAccount(substates, a)
    {
      var i := |substates|;
      assert substates[..i] == substates;
      while i > 0
        invariant 0 <= i <= |substates|
        invariant FindAccount(substates[..i], a) == FindAccount(substates, a)
      {
        FindAccountStep(substates, i, a);
        if a in substates[i - 1].state {
          return Some(substates[i - 1].state[a]);
        }
        i := i - 1;
      }
      assert substates[..0] == [];
      return None;
    }

    /** `nonce` */
    method Nonce(a: Address) returns (n: nat)
      requires Valid()
      ensures n == NonceOf(substates, backend, a)
    {
      var found := GetAccount(a);
      n := if found.Some? then found.value.basic.nonce else backend.basic(a).nonce;
    }

    /** `balance` */
    method Balance(a: Address) returns (b: nat)
      requires Valid()
      ensures b == BalanceOf(substates, backend, a)
    {
      var found := GetAccount(a);
      b := if found.Some? then found.value.basic.balance else backend.basic(a).balance;
    }

    /** `storage` */
    method Storage(a: Address, index: Word) returns (v: Word)
      requires Valid()
      ensures v == StorageOf(substates, backend, a, index)
    {
      var found := GetAccount(a);
      var slot: Option<Word> := None;
      if found.Some? {
        var acc := found.value;
        slot := if index in acc.storage then Some(acc.storage[index]) else None;
        if acc.resetStorage {
          slot := Some(slot.GetOr(0));
        }
      }
      v := slot.GetOr(backend.storage(a, index));
    }

    /** `original_storage` */
    method OriginalStorage(a: Address, index: Word) returns (v: Word)
      requires Valid()
      ensures v == OriginalStorageOf(substates, backend, a, index)
    {
      var found := GetAccount(a);
      if found.Some? && found.value.resetStorage {
        return 0;
      }
      v := backend.storage(a, index);
    }

    /** `code` */
    method Code(a: Address) returns (code: seq<byte>)
      requires Valid()
      ensures code == CodeOf(substates, backend, a)
    {
      var found := GetAccount(a);
      code := if found.Some? && found.value.code.Some? then found.value.code.value else backend.code(a);
    }

    /** `deleted`: searches the substates from the top down. */
    method Deleted(a: Address) returns (d: bool)
      requires Valid()
      ensures d == IsDeleted(substates, a)
    {
      var i := |substates|;
      assert substates[..i] == substates;
      while i > 0
        invariant 0 <= i <= |substates|
        invariant IsDeleted(substates[..i], a) == IsDeleted(substates, a)
      {
        FindAccountStep(substates, i, a);
        if a in substates[i - 1].deleted {
          return true;
        }
        i := i - 1;
      }
      assert substates[..0] == [];
      return false;
    }

    /** `create_address` */
    method CreateAddressFor(scheme: CreateScheme) returns (address: Address)
      requires Valid()
      ensures address == CreateAddress(substates, backend, hasher, scheme)
    {
      match scheme {
        case Create2(caller, codeHash, salt) =>
          address := hasher.create2(caller, salt, codeHash);
        case Legacy(caller) =>
          var nonce := Nonce(caller);
          address := hasher.legacy(caller, nonce);
        case Fixed(a) =>
          address := a;
      }
    }

    /** `used_gas`: the gas used by the transaction's frame, less the refund,
        which is capped at half of it. */
    function UsedGas(): (r: nat)
      reads this
      requires Valid()
      ensures var m := Top(substates).meter;
              && TotalUsed(m) - TotalUsed(m) / 2 <= r <= TotalUsed(m)
              && (Refunded(m) == 0 ==> r == TotalUsed(m))
              && (0 <= Refunded(m) <= TotalUsed(m) / 2 && Refunded(m) <= USIZE_MAX ==> r == TotalUsed(m) - Refunded(m))
              && (TotalUsed(m) / 2 <= Refunded(m) <= USIZE_MAX ==> r == TotalUsed(m) - TotalUsed(m) / 2)
              && (TotalUsed(m) <= USIZE_MAX && I64_MIN <= Refunded(m) < 0 ==> r == TotalUsed(m) - TotalUsed(m) / 2)
    {
      var m := Top(substates).meter;
      GasRules.UsedGas(TotalUsed(m), Refunded(m))
    }

    // -------------------------------------------------------------------
    // Layer management
    // -------------------------------------------------------------------

    /** `enter_substate` */
    method EnterSubstate(gasLimit: nat, isStatic: bool)
      requires Valid()
      modifies this
      ensures Valid() && substates == Enter(old(substates), gasLimit, isStatic)
      ensures callGraph == old(callGraph)
    {
      var parent := substates[|substates| - 1];
      var depth := match parent.depth
                   case None => Some(0)
                   case Some(n) => Some(n + 1);
      var substate := Substate(New(gasLimit), map[], {}, [], isStatic || parent.isStatic, depth);
      substates := substates + [substate];
    }

    /** `exit_substate` */
    method ExitSubstate(kind: StackExitKind) returns (res: Result<()>)
      requires Valid() && |substates| > 1
      modifies this
      ensures Valid() && (substates, res) == Exit(old(substates), kind)
      ensures callGraph == old(callGraph)
    {
      var n := |substates|;
      var exited := substates[n - 1];
      var parent := substates[n - 2];
      parent := parent.(logs := parent.logs + exited.logs);
      res := Ok(());
      match kind {
        case Succeeded =>
          parent := parent.(deleted := parent.deleted + exited.deleted);
          parent := parent.(state := parent.state + exited.state);
          var (m1, stipend) := RecordStipend(parent.meter, Gas(exited.meter));
          parent := parent.(meter := m1);
          res := stipend;
          if stipend.Ok? {
            var (m2, refund) := RecordRefund(m1, Refunded(exited.meter));
            parent := parent.(meter := m2);
            res := refund;
          }
        case Reverted =>
          var (m1, stipend) := RecordStipend(parent.meter, Gas(exited.meter));
          parent := parent.(meter := m1);
          res := stipend;
        case Failed =>
      }
      substates := WithTop(substates[..n - 1], parent);
    }

    // -------------------------------------------------------------------
    // Copy-on-write mutation
    // -------------------------------------------------------------------

    /** `account_mut`: copies the visible account of `a` into the top
        substate if it is not there yet, and gives it back. */
    method AccountMut(a: Address) returns (acc: Account)
      requires Valid()
      modifies this
      ensures Valid() && substates == Touch(old(substates), backend, a)
      ensures acc == Top(substates).state[a]
      ensures callGraph == old(callGraph)
    {
      var n := |substates|;
      if a !in substates[n - 1].state {
        var found := GetAccount(a);
        var account := if found.Some? then found.value else Account(backend.basic(a), None, map[], false);
        assert account == Visible(substates, backend, a);
        substates := SetAccount(substates, a, account);
      }
      acc := substates[n - 1].state[a];
    }

    /** `withdraw` */
    method Withdraw(a: Address, value: nat) returns (res: Result<()>)
      requires Valid()
      modifies this
      ensures Valid() && (substates, res) == Journal.Withdraw(old(substates), backend, a, value)
      ensures callGraph == old(callGraph)
    {
      var source := AccountMut(a);
      if source.basic.balance < value {
        assert Journal.Withdraw(old(substates), backend, a, value) == (substates, Err(OutOfFund));
        return Err(OutOfFund);
      }
      var debited := source.(basic := source.basic.(balance := source.basic.balance - value));
      assert Journal.Withdraw(old(substates), backend, a, value) == (SetAccount(substates, a, debited), Ok(()));
      substates := SetAccount(substates, a, debited);
      return Ok(());
    }

    /** `deposit` */
    method Deposit(a: Address, value: nat)
      requires Valid()
      modifies this
      ensures Valid() && substates == Journal.Deposit(old(substates), backend, a, value)
      ensures callGraph == old(callGraph)
    {
      var target := AccountMut(a);
      var credited := target.(basic := target.basic.(balance := target.basic.balance + value));
      assert Journal.Deposit(old(substates), backend, a, value) == SetAccount(substates, a, credited);
      substates := SetAccount(substates, a, credited);
    }

    /** `transfer` */
    method TransferValue(t: Transfer) returns (res: Result<()>)
      requires Valid()
      modifies this
      ensures Valid() && (substates, res) == ApplyTransfer(old(substates), backend, t)
      ensures callGraph == old(callGraph)
    {
      res := Withdraw(t.source, t.value);
      if res.Err? {
        return;
      }
      Deposit(t.target, t.value);
    }

    /** `set_storage` */
    method SetStorageSlot(a: Address, index: Word, value: Word) returns (res: Result<()>)
      requires Valid()
      modifies this
      ensures Valid() && substates == SetStorage(old(substates), backend, a, index, value) && res == Ok(())
      ensures callGraph == old(callGraph)
    {
      var acc := AccountMut(a);
      substates := SetAccount(substates, a, acc.(storage := acc.storage[index := value]));
      return Ok(());
    }

    /** `log` */
    method EmitLog(a: Address, topics: seq<Word>, data: seq<byte>) returns (res: Result<()>)
      requires Valid()
      modifies this
      ensures Valid() && substates == AppendLog(old(substates), Log(a, topics, data)) && res == Ok(())
      ensures callGraph == old(callGraph)
    {
      var n := |substates|;
      var current := substates[n - 1];
      substates := WithTop(substates, current.(logs := current.logs + [Log(a, topics, data)]));
      return Ok(());
    }

    /** `mark_delete` */
    method MarkDeleted(a: Address, target: Address) returns (res: Result<()>)
      requires Valid()
      modifies this
      ensures Valid() && (substates, res) == MarkDelete(old(substates), backend, a, target)
      ensures callGraph == old(callGraph)
    {
      var balance := Balance(a);
      res := TransferValue(Transfer(a, target, balance));
      if res.Err? {
        assert MarkDelete(old(substates), backend, a, target) == (substates, res);
        return;
      }
      assert MarkDelete(old(substates), backend, a, target) == (ZeroAndDelete(substates, backend, a), Ok(()));
      ZeroAndMarkDeleted(a);
    }

    /** The end of `mark_delete`: zero the balance of `a` in its top copy and
        record `a` in the deletions of the current substate. */
    method ZeroAndMarkDeleted(a: Address)
      requires Valid()
      modifies this
      ensures Valid() && substates == ZeroAndDelete(old(substates), backend, a)
      ensures callGraph == old(callGraph)
    {
      ghost var s0 := substates;
      var acc := AccountMut(a);
      var zeroed := acc.(basic := acc.basic.(balance := 0));
      substates := SetAccount(substates, a, zeroed);
      ghost var cleared := substates;
      assert ZeroAndDelete(s0, backend, a) == AddDeleted(cleared, a);
      var n := |substates|;
      var current := substates[n - 1];
      substates := WithTop(substates, current.(deleted := current.deleted + {a}));
      assert substates == AddDeleted(cleared, a);
    }

    // -------------------------------------------------------------------
    // Entering call and create frames
    // -------------------------------------------------------------------

    /** The gas limit of a new call or create frame and its charge to the
        current frame, as `create_inner` and `call_inner` both compute them:
        what the caller asked for, capped by the gas left, of which only all
        but one 64th counts when EIP-150 is in force. */
    method ChargeFrameGas(targetGas: Option<nat>, takeL64: bool) returns (gasLimit: nat, res: Result<()>)
      requires Valid()
      modifies this
      ensures Valid() && callGraph == old(callGraph)
      ensures gasLimit == CallGasLimit(Gas(Top(old(substates)).meter), targetGas, takeL64, config)
      ensures (substates, res) == Charge(old(substates), gasLimit)
    {
      var n := |substates|;
      var afterGas := Gas(substates[n - 1].meter);
      if takeL64 && config.callL64AfterGas {
        afterGas := L64(afterGas);
      }
      var target := targetGas.GetOr(afterGas);
      gasLimit := Min(afterGas, target);
      var top := substates[n - 1];
      var (m, charged) := RecordCost(top.meter, gasLimit);
      substates := WithTop(substates, top.(meter := m));
      res := charged;
    }

    /** The first half of the collision check of `create_inner`: the code
        of `address`, loaded from the backend into the top frame's copy of the
        account when it is not known yet. */
    method LoadCode(address: Address) returns (code: seq<byte>)
      requires Valid()
      modifies this
      ensures Valid() && callGraph == old(callGraph)
      ensures code == CodeOf(old(substates), backend, address)
      ensures substates == SetAccount(old(substates), address, Visible(old(substates), backend, address).(code := Some(code)))
    {
      ghost var before := substates;
      ghost var visible := Visible(before, backend, address);
      TouchIsSet(before, backend, address);
      var acc := AccountMut(address);
      assert acc == visible;
      assert substates == SetAccount(before, address, visible);
      if acc.code.Some? {
        code := acc.code.value;
        assert visible.(code := Some(code)) == visible;
      } else {
        code := KnowBackendCode(address);
        SetAccountTwice(before, address, visible, visible.(code := Some(code)));
      }
    }

    /** The code of an account whose top copy does not know it yet comes from
        the backend and is recorded in that copy. */
    method KnowBackendCode(address: Address) returns (code: seq<byte>)
      requires Valid() && address in Top(substates).state
      modifies this
      ensures Valid() && callGraph == old(callGraph)
      ensures code == backend.code(address)
      ensures substates == SetAccount(old(substates), address, Top(old(substates)).state[address].(code := Some(code)))
    {
      code := backend.code(address);
      ghost var touched := substates;
      assert Touch(touched, backend, address) == touched;
      var acc := AccountMut(address);
      assert substates == touched;
      substates := SetAccount(substates, address, acc.(code := Some(code)));
    }

    /** The collision check of `create_inner` (EIP-684), run in the new frame:
        the frame fails when the target address already has code or a
        non-zero nonce; otherwise the account gets empty storage that reads
        as zero, and its code is known to be empty. */
    method CheckCollision(address: Address) returns (collided: bool)
      requires Valid() && |substates| > 1
      modifies this
      ensures Valid() && callGraph == old(callGraph)
      ensures collided <==>
                CodeOf(old(substates), backend, address) != [] || NonceOf(old(substates), backend, address) > 0
      ensures collided ==> substates == Exit(old(substates), Failed).0
      ensures !collided ==>
                substates == SetAccount(old(substates), address,
                                        Visible(old(substates), backend, address).(code := Some([]), storage := map[],
                                                                                   resetStorage := true))
    {
      ghost var before := substates;
      ghost var visible := Visible(before, backend, address);
      var code := LoadCode(address);
      SetAccountView(before, backend, address, visible.(code := Some(code)), address);
      if |code| != 0 {
        ExitFailedKeepsOnlyLogs(substates, before);
        var _ := ExitSubstate(Failed);
        return true;
      }
      var nonce := Nonce(address);
      if nonce > 0 {
        ExitFailedKeepsOnlyLogs(substates, before);
        var _ := ExitSubstate(Failed);
        return true;
      }
      ResetStorage(address);
      SetAccountTwice(before, address, visible.(code := Some([])), visible.(code := Some([]), storage := map[],
                                                                            resetStorage := true));
      return false;
    }

    /** The end of the collision check: the account's storage is reset. */
    method ResetStorage(address: Address)
      requires Valid()
      modifies this
      ensures Valid() && callGraph == old(callGraph)
      ensures substates == SetAccount(old(substates), address,
                                      Visible(old(substates), backend, address).(storage := map[], resetStorage := true))
    {
      ghost var before := substates;
      var acc := AccountMut(address);
      TouchThenSet(before, backend, address, acc.(resetStorage := true));
      substates := SetAccount(substates, address, acc.(resetStorage := true));
      ghost var reset := substates;
      acc := AccountMut(address);
      TouchThenSet(reset, backend, address, acc.(storage := map[]));
      SetAccountTwice(before, address, acc, acc.(storage := map[]));
      substates := SetAccount(substates, address, acc.(storage := map[]));
    }

    /** The run of the interpreter on the top frame, as far as this model
        keeps it: the gas it spent is charged to the frame's meter, which
        fails if the frame had less. */
    method Run(execution: Execution)
      requires Valid()
      modifies this
      ensures Valid() && callGraph == old(callGraph)
      ensures substates == Charge(old(substates), execution.spent).0
    {
      var n := |substates|;
      var top := substates[n - 1];
      var (m, _) := RecordCost(top.meter, execution.spent);
      substates := WithTop(substates, top.(meter := m));
    }

    /** The end of `create_inner`, after the interpreter has run the init
        code: a returned code over the size limit or a failed code deposit
        fails the frame; otherwise the frame is left as succeeded and the code
        is installed at the new address. An error or a fatal end fails the
        frame, a revert reverts it and hands back the returned data. */
    method FinishCreate(address: Address, execution: Execution)
      returns (reason: ExitReason, created: Option<Address>, output: seq<byte>)
      requires Valid() && |substates| > 1
      modifies this
      ensures Valid() && |substates| == |old(substates)| - 1 && callGraph == old(callGraph)
      ensures reason == CreateReason(config, Top(old(substates)).meter, old(substates)[|old(substates)| - 2].meter, execution)
      ensures created == if reason.Succeed? then Some(address) else None
      ensures output == if reason.Revert? then execution.returned else []
      ensures substates == CreateEndStack(old(substates), backend, config, address, execution)
      ensures created.Some? ==> CodeOf(substates, backend, address) == execution.returned
    {
      ghost var s0 := substates;
      match execution.reason {
        case Succeed(_) =>
          reason, created := StoreCode(address, execution);
          output := [];
          if created.Some? {
            CreatedCodeInstalled(s0, backend, config, address, execution, address);
          }
        case Error(e) =>
          substates := FailTop(substates);
          var _ := ExitSubstate(Failed);
          reason, created, output := Error(e), None, [];
        case Revert =>
          var _ := ExitSubstate(Reverted);
          reason, created, output := Revert, None, execution.returned;
        case Fatal(e) =>
          substates := FailTop(substates);
          var _ := ExitSubstate(Failed);
          reason, created, output := Fatal(e), None, [];
      }
    }

    /** The end of a successful init code run: a returned code over the size
        limit fails the frame; otherwise the code deposit is charged. */
    method StoreCode(address: Address, execution: Execution) returns (reason: ExitReason, created: Option<Address>)
      requires Valid() && |substates| > 1 && execution.reason.Succeed?
      modifies this
      ensures Valid() && |substates| == |old(substates)| - 1 && callGraph == old(callGraph)
      ensures reason == CreateReason(config, Top(old(substates)).meter, old(substates)[|old(substates)| - 2].meter, execution)
      ensures created == if reason.Succeed? then Some(address) else None
      ensures substates == CreateEndStack(old(substates), backend, config, address, execution)
    {
      if OverCodeLimit(config, execution.returned) {
        substates := FailTop(substates);
        var _ := ExitSubstate(Failed);
        reason, created := Error(CreateContractLimit), None;
      } else {
        reason, created := DepositCode(address, execution);
      }
    }

    /** A returned code within the size limit: the deposit of 200 gas per byte
        is charged, failing the frame if it cannot be paid; otherwise the frame
        is left as succeeded and the code installed at the new address. */
    method DepositCode(address: Address, execution: Execution) returns (reason: ExitReason, created: Option<Address>)
      requires Valid() && |substates| > 1 && execution.reason.Succeed? && !OverCodeLimit(config, execution.returned)
      modifies this
      ensures Valid() && |substates| == |old(substates)| - 1 && callGraph == old(callGraph)
      ensures reason == CreateReason(config, Top(old(substates)).meter, old(substates)[|old(substates)| - 2].meter, execution)
      ensures created == if reason.Succeed? then Some(address) else None
      ensures substates == CreateEndStack(old(substates), backend, config, address, execution)
    {
      ghost var s0 := substates;
      DepositPath(s0, backend, config, address, execution);
      var returned := execution.returned;
      var n := |substates|;
      var top := substates[n - 1];
      var (m, deposit) := RecordDeposit(top.meter, |returned|);
      substates := WithTop(substates, top.(meter := m));
      assert (substates, deposit) == Charge(s0, 200 * |returned|);
      if deposit.Err? {
        var _ := ExitSubstate(Failed);
        reason, created := Error(deposit.error), None;
      } else {
        var exited := InstallCode(address, returned);
        if exited.Err? {
          reason, created := Error(exited.error), None;
        } else {
          reason, created := execution.reason, Some(address);
        }
      }
    }

    /** The frame of a creation left as succeeded and the created code
        installed at `address` in the creator's frame, whether or not the
        creator's frame could take the unspent gas back. */
    method InstallCode(address: Address, code: seq<byte>) returns (res: Result<()>)
      requires Valid() && |substates| > 1
      modifies this
      ensures Valid() && callGraph == old(callGraph)
      ensures var exited := Exit(old(substates), Succeeded);
              && res == exited.1
              && substates == SetAccount(exited.0, address, Visible(exited.0, backend, address).(code := Some(code)))
    {
      res := ExitSubstate(Succeeded);
      ghost var exited := substates;
      var acc := AccountMut(address);
      TouchThenSet(exited, backend, address, acc.(code := Some(code)));
      substates := SetAccount(substates, address, acc.(code := Some(code)));
    }

    /** `create_inner`: creates a contract at the address `scheme` derives.
        Before a frame is entered, the creation fails when the current frame
        is deeper than the call stack limit, when the caller cannot pay
        `value`, or when the current frame cannot pay the new frame's gas
        limit; these leave the stack as it was (the last one with the meter
        charged and failed). Otherwise the caller's nonce is bumped, the new
        frame is entered, and the creation fails with CreateCollision when
        the address already has code or a non-zero nonce. */
    method CreateInner(caller: Address, scheme: CreateScheme, value: nat, initCode: seq<byte>,
                       targetGas: Option<nat>, takeL64: bool, execution: Execution)
      returns (reason: ExitReason, created: Option<Address>, output: seq<byte>)
      requires Valid()
      modifies this
      ensures Valid() && |substates| == |old(substates)| && callGraph == old(callGraph)
      ensures TooDeep(old(substates), config) ==>
                reason == Error(CallTooDeep) && created.None? && output == [] && substates == old(substates)
      ensures !TooDeep(old(substates), config) && BalanceOf(old(substates), backend, caller) < value ==>
                reason == Error(OutOfFund) && created.None? && output == [] && substates == old(substates)
      ensures var charged := Charge(old(substates), CallGasLimit(Gas(Top(old(substates)).meter), targetGas, takeL64, config));
              !TooDeep(old(substates), config) && BalanceOf(old(substates), backend, caller) >= value && charged.1.Err? ==>
                reason == Error(OutOfGas) && created.None? && output == [] && substates == charged.0
      ensures var charged := Charge(old(substates), CallGasLimit(Gas(Top(old(substates)).meter), targetGas, takeL64, config));
              var target := CreateAddress(old(substates), backend, hasher, scheme);
              !TooDeep(old(substates), config) && BalanceOf(old(substates), backend, caller) >= value && charged.1.Ok? &&
              (target == caller || CodeOf(old(substates), backend, target) != [] || NonceOf(old(substates), backend, target) > 0) ==>
                reason == Error(CreateCollision) && created.None? && output == []
      ensures created.Some? ==>
                && reason.Succeed? && reason == execution.reason
                && created.value == CreateAddress(old(substates), backend, hasher, scheme)
                && CodeOf(substates, backend, created.value) == execution.returned
      ensures reason.Succeed? ==> created.Some?
      ensures output == if reason.Revert? then execution.returned else []
      ensures reason.Revert? ==> execution.reason.Revert?
      ensures created == if reason.Succeed? then Some(CreateAddress(old(substates), backend, hasher, scheme)) else None
      ensures var gasLimit := CallGasLimit(Gas(Top(old(substates)).meter), targetGas, takeL64, config);
              var charged := Charge(old(substates), gasLimit);
              var target := CreateAddress(old(substates), backend, hasher, scheme);
              !TooDeep(old(substates), config) && BalanceOf(old(substates), backend, caller) >= value && charged.1.Ok? ==>
                && (Collides(old(substates), backend, caller, target) ==> substates == CallerBumped(charged.0, backend, caller))
                && (!Collides(old(substates), backend, caller, target) ==>
                      var entered := CreateEntered(charged.0, backend, caller, target, gasLimit);
                      var funded := CreateFunded(entered, backend, config, caller, target, value).0;
                      var child := RecordCost(New(gasLimit), execution.spent).0;
                      && reason == CreateReason(config, child, Top(charged.0).meter, execution)
                      && substates == CreateEndStack(Charge(funded, execution.spent).0, backend, config, target, execution)
                      && (reason.Succeed? <==>
                            && execution.reason.Succeed? && !OverCodeLimit(config, execution.returned)
                            && RecordDeposit(child, |execution.returned|).1.Ok?))
    {
      ghost var s0 := substates;
      var depth := substates[|substates| - 1].depth;
      if depth.Some? && depth.value > config.callStackLimit {
        assert TooDeep(s0, config);
        return Error(CallTooDeep), None, [];
      }
      var balance := Balance(caller);
      if balance < value {
        assert !TooDeep(s0, config) && BalanceOf(s0, backend, caller) < value;
        return Error(OutOfFund), None, [];
      }
      assert substates == s0 && !TooDeep(s0, config) && BalanceOf(s0, backend, caller) >= value;
      reason, created, output := CreateWithGas(caller, scheme, value, initCode, targetGas, takeL64, execution);
    }

    /** The part of `create_inner` from charging the new frame's gas limit
        on: when it is paid, the target address is derived and the frame
        created there. */
    method CreateWithGas(caller: Address, scheme: CreateScheme, value: nat, initCode: seq<byte>,
                         targetGas: Option<nat>, takeL64: bool, execution: Execution)
      returns (reason: ExitReason, created: Option<Address>, output: seq<byte>)
      requires Valid()
      modifies this
      ensures Valid() && |substates| == |old(substates)| && callGraph == old(callGraph)
      ensures output == if reason.Revert? then execution.returned else []
      ensures reason.Revert? ==> execution.reason.Revert?
      ensures created == if reason.Succeed? then Some(CreateAddress(old(substates), backend, hasher, scheme)) else None
      ensures created.Some? ==> reason == execution.reason && CodeOf(substates, backend, created.value) == execution.returned
      ensures var gasLimit := CallGasLimit(Gas(Top(old(substates)).meter), targetGas, takeL64, config);
              var charged := Charge(old(substates), gasLimit);
              var target := CreateAddress(old(substates), backend, hasher, scheme);
              && (charged.1.Err? ==> reason == Error(OutOfGas) && substates == charged.0)
              && (charged.1.Ok? && Collides(old(substates), backend, caller, target) ==>
                    reason == Error(CreateCollision) && substates == CallerBumped(charged.0, backend, caller))
              && (charged.1.Ok? && !Collides(old(substates), backend, caller, target) &&
                  BalanceOf(old(substates), backend, caller) >= value ==>
                    var entered := CreateEntered(charged.0, backend, caller, target, gasLimit);
                    var funded := CreateFunded(entered, backend, config, caller, target, value).0;
                    var child := RecordCost(New(gasLimit), execution.spent).0;
                    && reason == CreateReason(config, child, Top(charged.0).meter, execution)
                    && substates == CreateEndStack(Charge(funded, execution.spent).0, backend, config, target, execution)
                    && (reason.Succeed? <==>
                          && execution.reason.Succeed? && !OverCodeLimit(config, execution.returned)
                          && RecordDeposit(child, |execution.returned|).1.Ok?))
    {
      ghost var s0 := substates;
      var gasLimit, charged := ChargeFrameGas(targetGas, takeL64);
      if charged.Err? {
        return Error(charged.error), None, [];
      }
      ghost var s1 := substates;
      assert WithTop(s0, Top(s1)) == s1;
      var address := CreateAddressFor(scheme);
      if scheme.Legacy? {
        SameTopKeepsView(s0, Top(s1), scheme.caller);
      }
      SameTopKeepsView(s0, Top(s1), address);
      SameTopKeepsView(s0, Top(s1), caller);
      assert BalanceOf(s1, backend, caller) == BalanceOf(s0, backend, caller);
      assert !Top(s1).meter.failed;
      assert address == CreateAddress(s0, backend, hasher, scheme);
      assert CodeOf(s1, backend, address) == CodeOf(s0, backend, address);
      assert NonceOf(s1, backend, address) == NonceOf(s0, backend, address);
      reason, created, output := CreateFrame(caller, address, value, initCode, gasLimit, execution);
    }

    /** The part of `create_inner` after the target address is known: bumps
        the caller's nonce, enters the new frame with `gasLimit`, checks for
        a collision, moves `value`, bumps the new account's nonce when the
        configuration asks for it, runs the init code and finishes. A
        collision leaves only the caller's nonce bumped. */
    method CreateFrame(caller: Address, address: Address, value: nat, initCode: seq<byte>, gasLimit: nat,
                       execution: Execution)
      returns (reason: ExitReason, created: Option<Address>, output: seq<byte>)
      requires Valid()
      modifies this
      ensures Valid() && |substates| == |old(substates)| && callGraph == old(callGraph)
      ensures address == caller || CodeOf(old(substates), backend, address) != [] ||
              NonceOf(old(substates), backend, address) > 0 ==>
                reason == Error(CreateCollision) && created.None? && output == []
      ensures created.Some? ==>
                && created.value == address && reason.Succeed? && reason == execution.reason
                && CodeOf(substates, backend, address) == execution.returned
      ensures reason.Succeed? ==> created.Some?
      ensures output == if reason.Revert? then execution.returned else []
      ensures reason.Revert? ==> execution.reason.Revert?
      ensures created == if reason.Succeed? then Some(address) else None
      ensures Collides(old(substates), backend, caller, address) ==> substates == CallerBumped(old(substates), backend, caller)
      ensures var entered := CreateEntered(old(substates), backend, caller, address, gasLimit);
              var funded := CreateFunded(entered, backend, config, caller, address, value);
              !Collides(old(substates), backend, caller, address) ==>
                && (BalanceOf(old(substates), backend, caller) < value ==>
                      reason == Error(OutOfFund) && substates == Exit(funded.0, Reverted).0)
                && (BalanceOf(old(substates), backend, caller) >= value ==>
                      && reason == CreateReason(config, RecordCost(New(gasLimit), execution.spent).0,
                                                Top(old(substates)).meter, execution)
                      && substates == CreateEndStack(Charge(funded.0, execution.spent).0, backend, config, address, execution))
    {
      ghost var s0 := substates;
      var collided := EnterCreate(caller, address, gasLimit);
      if collided {
        reason, created, output := Error(CreateCollision), None, [];
      } else {
        ghost var entered := substates;
        CreateEnteredView(s0, backend, caller, address, gasLimit, 0, caller);
        CreateFundedOutcome(entered, backend, config, caller, address, value);
        assert BalanceOf(entered, backend, caller) == BalanceOf(s0, backend, caller);
        assert entered[|entered| - 2].meter == Top(s0).meter;
        assert Top(entered).meter == New(gasLimit);
        reason, created, output := FundCreate(caller, address, value, execution);
      }
    }

    /** The start of a creation's frame: the caller's nonce is bumped, the
        frame is entered and the collision check runs in it; a collision
        leaves the frame again as failed. */
    method EnterCreate(caller: Address, address: Address, gasLimit: nat) returns (collided: bool)
      requires Valid()
      modifies this
      ensures Valid() && callGraph == old(callGraph)
      ensures collided <==> Collides(old(substates), backend, caller, address)
      ensures collided ==> substates == CallerBumped(old(substates), backend, caller)
      ensures !collided ==> substates == CreateEntered(old(substates), backend, caller, address, gasLimit)
    {
      ghost var s0 := substates;
      var account := AccountMut(caller);
      var bumped := BumpNonce(account);
      TouchThenSet(s0, backend, caller, bumped);
      substates := SetAccount(substates, caller, bumped);
      ghost var s1 := substates;
      assert s1 == CallerBumped(s0, backend, caller);
      EnterSubstate(gasLimit, false);
      ghost var s2 := substates;
      SetThenEnterView(s0, backend, caller, bumped, gasLimit, false, address);
      assert address == caller ==> NonceOf(s2, backend, address) > 0;
      collided := CheckCollision(address);
      if collided {
        EnterThenFailRestores(s1, gasLimit, false);
      }
    }

    /** The rest of a creation's frame once the collision check passed: the
        value is moved (the frame reverts if it cannot be), the new
        account's nonce is bumped when the configuration asks for it, the
        init code runs and the creation finishes. */
    method FundCreate(caller: Address, address: Address, value: nat, execution: Execution)
      returns (reason: ExitReason, created: Option<Address>, output: seq<byte>)
      requires Valid() && |substates| > 1
      modifies this
      ensures Valid() && |substates| == |old(substates)| - 1 && callGraph == old(callGraph)
      ensures created == if reason.Succeed? then Some(address) else None
      ensures output == if reason.Revert? then execution.returned else []
      ensures reason.Revert? ==> execution.reason.Revert?
      ensures created.Some? ==> reason == execution.reason && CodeOf(substates, backend, address) == execution.returned
      ensures var funded := CreateFunded(old(substates), backend, config, caller, address, value);
              && (funded.1.Err? ==> reason == Error(OutOfFund) && substates == Exit(funded.0, Reverted).0)
              && (funded.1.Ok? ==>
                    && reason == CreateReason(config, RecordCost(Top(old(substates)).meter, execution.spent).0,
                                              old(substates)[|old(substates)| - 2].meter, execution)
                    && substates == CreateEndStack(Charge(funded.0, execution.spent).0, backend, config, address, execution))
    {
      ghost var s0 := substates;
      var moved := PayCreate(caller, address, value);
      ghost var funded := substates;
      assert (funded, moved) == CreateFunded(s0, backend, config, caller, address, value);
      if moved.Err? {
        var _ := ExitSubstate(Reverted);
        assert substates == Exit(funded, Reverted).0;
        return Error(moved.error), None, [];
      }
      assert funded[|s0| - 2] == s0[|s0| - 2];
      assert Top(funded).meter == Top(s0).meter;
      reason, created, output := RunCreate(address, execution);
      if created.Some? {
        CreatedCodeInstalled(Charge(funded, execution.spent).0, backend, config, address, execution, address);
      }
    }

    /** The init code's run in a funded creation frame and the creation's
        end, by the gas it spent and how it ended. */
    method RunCreate(address: Address, execution: Execution)
      returns (reason: ExitReason, created: Option<Address>, output: seq<byte>)
      requires Valid() && |substates| > 1
      modifies this
      ensures Valid() && |substates| == |old(substates)| - 1 && callGraph == old(callGraph)
      ensures created == if reason.Succeed? then Some(address) else None
      ensures output == if reason.Revert? then execution.returned else []
      ensures reason == CreateReason(config, RecordCost(Top(old(substates)).meter, execution.spent).0,
                                     old(substates)[|old(substates)| - 2].meter, execution)
      ensures substates == CreateEndStack(Charge(old(substates), execution.spent).0, backend, config, address, execution)
    {
      ChargeKeepsCreateReason(substates, config, execution);
      Run(execution);
      reason, created, output := FinishCreate(address, execution);
    }

    /** The value of a creation moved to the new account and, when the
        configuration asks for it, the new account's nonce bumped. */
    method PayCreate(caller: Address, address: Address, value: nat) returns (res: Result<()>)
      requires Valid()
      modifies this
      ensures Valid() && callGraph == old(callGraph)
      ensures (substates, res) == CreateFunded(old(substates), backend, config, caller, address, value)
    {
      ghost var s0 := substates;
      var t := Transfer(caller, address, value);
      res := TransferValue(t);
      ghost var paid := substates;
      assert (paid, res) == ApplyTransfer(s0, backend, t);
      if res.Ok? && config.createIncreaseNonce {
        var account := AccountMut(address);
        assert account == Visible(paid, backend, address);
        TouchThenSet(paid, backend, address, BumpNonce(account));
        substates := SetAccount(substates, address, BumpNonce(account));
        assert substates == SetAccount(paid, address, BumpNonce(Visible(paid, backend, address)));
        assert CreateFunded(s0, backend, config, caller, address, value) == (substates, Ok(()));
      } else {
        assert CreateFunded(s0, backend, config, caller, address, value) == (paid, res);
      }
    }

    /** `call_inner`: calls `codeAddress` in a new frame. A frame is entered
        only when the current frame can pay its gas limit, which the stipend
        then raises for a call that moves value. The new frame is left as
        reverted at once when it is deeper than the call stack limit or when
        the value cannot be paid. Otherwise the precompile at `codeAddress`
        answers, if there is one, or the interpreter runs the code, and only
        then is the call recorded in the call graph, with the gas it used. */
    method CallInner(codeAddress: Address, transfer: Option<Transfer>, input: seq<byte>, targetGas: Option<nat>,
                     isStatic: bool, takeL64: bool, takeStipend: bool, context: Context,
                     precompiled: Option<PrecompileOutcome>, execution: Execution)
      returns (reason: ExitReason, output: seq<byte>)
      requires Valid() && Gas(Top(substates).meter) <= USIZE_MAX
      modifies this
      ensures Valid() && |substates| == |old(substates)|
      ensures var charged := Charge(old(substates), CallGasLimit(Gas(Top(old(substates)).meter), targetGas, takeL64, config));
              charged.1.Err? ==>
                reason == Error(OutOfGas) && output == [] && substates == charged.0 && callGraph == old(callGraph)
      ensures var charged := Charge(old(substates), CallGasLimit(Gas(Top(old(substates)).meter), targetGas, takeL64, config));
              charged.1.Ok? && ChildDepth(old(substates)) > config.callStackLimit ==>
                reason == Error(CallTooDeep) && output == [] && callGraph == old(callGraph)
      ensures var charged := Charge(old(substates), CallGasLimit(Gas(Top(old(substates)).meter), targetGas, takeL64, config));
              charged.1.Ok? && ChildDepth(old(substates)) <= config.callStackLimit &&
              transfer.Some? && BalanceOf(old(substates), backend, transfer.value.source) < transfer.value.value ==>
                reason == Error(OutOfFund) && output == [] && callGraph == old(callGraph)
      ensures CallOpens(old(substates), backend, config, targetGas, takeL64, transfer) && precompiled.Some? ==>
                && callGraph == old(callGraph)
                && (precompiled.value.PrecompileSucceed? ==>
                      reason == Succeed(precompiled.value.succeed) && output == precompiled.value.output)
                && (precompiled.value.PrecompileError? ==> reason == Error(precompiled.value.error) && output == [])
      ensures CallOpens(old(substates), backend, config, targetGas, takeL64, transfer) && precompiled.None? ==>
                var gasLimit := StipendedLimit(CallGasLimit(Gas(Top(old(substates)).meter), targetGas, takeL64, config),
                                               transfer, takeStipend, config);
                && reason == execution.reason
                && output == (if reason.Succeed? || reason.Revert? then execution.returned else [])
                && callGraph ==
                     old(callGraph) + [InternalTransaction(context.caller, context.address, Min(execution.spent, gasLimit))]
      ensures var gasLimit := CallGasLimit(Gas(Top(old(substates)).meter), targetGas, takeL64, config);
              var charged := Charge(old(substates), gasLimit);
              charged.1.Ok? ==>
                substates == CallStack(charged.0, backend, config, StipendedLimit(gasLimit, transfer, takeStipend, config),
                                       isStatic, transfer, context, precompiled, execution)
    {
      ghost var s0 := substates;
      var gasLimit, charged := ChargeCallGas(transfer, targetGas, takeL64, takeStipend);
      if charged.Err? {
        return Error(charged.error), [];
      }
      reason, output := CallCharged(s0, CallGasLimit(Gas(Top(s0).meter), targetGas, takeL64, config), gasLimit,
                                    isStatic, transfer, context, precompiled, execution);
    }

    /** The rest of a call once the caller's frame `caller` has been charged
        `cost` for it: the outcomes of `OpenCall`, stated for the stack as it
        was before the charge. */
    method CallCharged(ghost caller: seq<Substate>, ghost cost: nat, gasLimit: nat, isStatic: bool,
                       transfer: Option<Transfer>, context: Context, precompiled: Option<PrecompileOutcome>,
                       execution: Execution)
      returns (reason: ExitReason, output: seq<byte>)
      requires Valid() && |caller| >= 1 && substates == Charge(caller, cost).0
      modifies this
      ensures Valid() && |substates| == |caller|
      ensures ChildDepth(caller) > config.callStackLimit ==>
                reason == Error(CallTooDeep) && output == [] && callGraph == old(callGraph)
      ensures ChildDepth(caller) <= config.callStackLimit && transfer.Some? &&
              BalanceOf(caller, backend, transfer.value.source) < transfer.value.value ==>
                reason == Error(OutOfFund) && output == [] && callGraph == old(callGraph)
      ensures CallRuns(caller, backend, config, transfer) && precompiled.Some? ==>
                && callGraph == old(callGraph)
                && (precompiled.value.PrecompileSucceed? ==>
                      reason == Succeed(precompiled.value.succeed) && output == precompiled.value.output)
                && (precompiled.value.PrecompileError? ==> reason == Error(precompiled.value.error) && output == [])
      ensures CallRuns(caller, backend, config, transfer) && precompiled.None? ==>
                && reason == execution.reason
                && output == (if reason.Succeed? || reason.Revert? then execution.returned else [])
                && callGraph ==
                     old(callGraph) + [InternalTransaction(context.caller, context.address, Min(execution.spent, gasLimit))]
      ensures substates == CallStack(old(substates), backend, config, gasLimit, isStatic, transfer, context, precompiled, execution)
    {
      ChargeKeepsCallChecks(caller, cost, backend, config, transfer);
      reason, output := OpenCall(gasLimit, isStatic, transfer, context, precompiled, execution);
    }

    /** The gas of a call frame: its limit is charged to the current frame,
        then raised by the stipend for a call that moves value. */
    method ChargeCallGas(transfer: Option<Transfer>, targetGas: Option<nat>, takeL64: bool, takeStipend: bool)
      returns (gasLimit: nat, res: Result<()>)
      requires Valid() && Gas(Top(substates).meter) <= USIZE_MAX
      modifies this
      ensures Valid() && callGraph == old(callGraph)
      ensures var charged := CallGasLimit(Gas(Top(old(substates)).meter), targetGas, takeL64, config);
              && (substates, res) == Charge(old(substates), charged)
              && gasLimit == StipendedLimit(charged, transfer, takeStipend, config)
    {
      gasLimit, res := ChargeFrameGas(targetGas, takeL64);
      if transfer.Some? && takeStipend && transfer.value.value != 0 {
        gasLimit := SaturatingAdd(gasLimit, config.callStipend);
      }
    }

    /** Entering the frame of a call: the new substate, the callee's account
        copied up, the depth check and the value transfer. A frame that is
        too deep or cannot be paid for is left again as reverted. */
    method EnterCall(gasLimit: nat, isStatic: bool, transfer: Option<Transfer>, context: Context)
      returns (res: Result<()>)
      requires Valid()
      modifies this
      ensures Valid() && callGraph == old(callGraph)
      ensures res.Err? ==> |substates| == |old(substates)|
      ensures res.Ok? ==> |substates| == |old(substates)| + 1 && Top(substates).meter == New(gasLimit)
      ensures res == Err(CallTooDeep) <==> ChildDepth(old(substates)) > config.callStackLimit
      ensures res == Err(OutOfFund) <==>
                && ChildDepth(old(substates)) <= config.callStackLimit
                && transfer.Some? && BalanceOf(old(substates), backend, transfer.value.source) < transfer.value.value
      ensures res.Err? ==> res == Err(CallTooDeep) || res == Err(OutOfFund)
      ensures var entered := CallEntered(old(substates), backend, gasLimit, isStatic, context.address);
              var paid := CallPaid(entered, backend, transfer);
              && (res == Err(CallTooDeep) ==> substates == Exit(entered, Reverted).0)
              && (res == Err(OutOfFund) ==> substates == Exit(paid.0, Reverted).0)
              && (res.Ok? ==> substates == paid.0 && paid.1 == Ok(()))
    {
      ghost var s1 := substates;
      EnterCallFrame(gasLimit, isStatic, context.address);
      ghost var entered := substates;
      if transfer.Some? {
        CallEnteredView(s1, backend, gasLimit, isStatic, context.address, transfer.value.source);
      }
      var depth := substates[|substates| - 1].depth;
      assert depth == Some(ChildDepth(s1));
      if depth.Some? && depth.value > config.callStackLimit {
        var _ := ExitSubstate(Reverted);
        return Err(CallTooDeep);
      }
      if transfer.Some? {
        res := TransferValue(transfer.value);
        assert (substates, res) == CallPaid(entered, backend, transfer);
        if res.Err? {
          var _ := ExitSubstate(Reverted);
          return;
        }
      } else {
        res := Ok(());
      }
    }

    /** The new frame of a call, with the callee's account copied up. */
    method EnterCallFrame(gasLimit: nat, isStatic: bool, callee: Address)
      requires Valid()
      modifies this
      ensures Valid() && callGraph == old(callGraph)
      ensures substates == CallEntered(old(substates), backend, gasLimit, isStatic, callee)
    {
      EnterSubstate(gasLimit, isStatic);
      var _ := AccountMut(callee);
    }

    /** The part of `call_inner` from entering the new frame with `gasLimit`:
        the callee's account is copied up, the frame is left as reverted when
        it is too deep or when the value cannot be paid, and otherwise the
        call goes ahead. */
    method OpenCall(gasLimit: nat, isStatic: bool, transfer: Option<Transfer>, context: Context,
                    precompiled: Option<PrecompileOutcome>, execution: Execution)
      returns (reason: ExitReason, output: seq<byte>)
      requires Valid()
      modifies this
      ensures Valid() && |substates| == |old(substates)|
      ensures ChildDepth(old(substates)) > config.callStackLimit ==>
                reason == Error(CallTooDeep) && output == [] && callGraph == old(callGraph)
      ensures ChildDepth(old(substates)) <= config.callStackLimit && transfer.Some? &&
              BalanceOf(old(substates), backend, transfer.value.source) < transfer.value.value ==>
                reason == Error(OutOfFund) && output == [] && callGraph == old(callGraph)
      ensures CallRuns(old(substates), backend, config, transfer) ==>
                && (precompiled.Some? ==> callGraph == old(callGraph))
                && (precompiled.Some? && precompiled.value.PrecompileSucceed? ==>
                      reason == Succeed(precompiled.value.succeed) && output == precompiled.value.output)
                && (precompiled.Some? && precompiled.value.PrecompileError? ==>
                      reason == Error(precompiled.value.error) && output == [])
                && (precompiled.None? ==>
                      && reason == execution.reason
                      && output == (if reason.Succeed? || reason.Revert? then execution.returned else [])
                      && callGraph ==
                           old(callGraph) + [InternalTransaction(context.caller, context.address, Min(execution.spent, gasLimit))])
      ensures substates == CallStack(old(substates), backend, config, gasLimit, isStatic, transfer, context, precompiled, execution)
    {
      ghost var s0 := substates;
      var entered := EnterCall(gasLimit, isStatic, transfer, context);
      ghost var runs := CallRuns(s0, backend, config, transfer);
      if entered.Err? {
        assert !runs;
        CallStackWhenRefused(s0, backend, config, gasLimit, isStatic, transfer, context, precompiled, execution);
        reason, output := Error(entered.error), [];
      } else {
        assert runs;
        CallStackWhenRuns(s0, backend, config, gasLimit, isStatic, transfer, context, precompiled, execution);
        reason, output := FinishCall(gasLimit, context, precompiled, execution);
      }
    }

    /** The end of `call_inner`, in the entered frame: a precompile's answer,
        or the interpreter's run followed by the call graph entry and the
        exit of the frame by how the run ended. */
    method FinishCall(gasLimit: nat, context: Context, precompiled: Option<PrecompileOutcome>, execution: Execution)
      returns (reason: ExitReason, output: seq<byte>)
      requires Valid() && |substates| > 1 && Top(substates).meter == New(gasLimit)
      modifies this
      ensures Valid() && |substates| == |old(substates)| - 1
      ensures precompiled.Some? ==> callGraph == old(callGraph)
      ensures precompiled.Some? && precompiled.value.PrecompileSucceed? ==>
                && reason == Succeed(precompiled.value.succeed) && output == precompiled.value.output
                && substates == Exit(Charge(old(substates), precompiled.value.cost).0, Succeeded).0
      ensures precompiled.Some? && precompiled.value.PrecompileError? ==>
                reason == Error(precompiled.value.error) && output == [] && substates == Exit(old(substates), Failed).0
      ensures precompiled.None? ==>
                && reason == execution.reason
                && output == (if reason.Succeed? || reason.Revert? then execution.returned else [])
                && callGraph ==
                     old(callGraph) + [InternalTransaction(context.caller, context.address, Min(execution.spent, gasLimit))]
      ensures precompiled.None? ==> substates == LeaveFrame(Charge(old(substates), execution.spent).0, execution.reason)
      ensures substates == CallEnd(old(substates), precompiled, execution)
    {
      if precompiled.Some? {
        reason, output := Precompiled(precompiled.value);
        return;
      }
      reason, output := RunCall(gasLimit, context, execution);
    }

    /** The interpreter's run in a call frame: the gas it spent is charged,
        the call is recorded with the gas it used, and the frame is left by
        how the run ended. */
    method RunCall(gasLimit: nat, context: Context, execution: Execution)
      returns (reason: ExitReason, output: seq<byte>)
      requires Valid() && |substates| > 1 && Top(substates).meter == New(gasLimit)
      modifies this
      ensures Valid() && |substates| == |old(substates)| - 1
      ensures reason == execution.reason
      ensures output == (if reason.Succeed? || reason.Revert? then execution.returned else [])
      ensures callGraph ==
                old(callGraph) + [InternalTransaction(context.caller, context.address, Min(execution.spent, gasLimit))]
      ensures substates == LeaveFrame(Charge(old(substates), execution.spent).0, execution.reason)
    {
      Run(execution);
      assert Top(substates).meter == RecordCost(New(gasLimit), execution.spent).0;
      var currentGas := Gas(substates[|substates| - 1].meter);
      assert gasLimit - currentGas == Min(execution.spent, gasLimit);
      var call := InternalTransaction(context.caller, context.address, gasLimit - currentGas);
      callGraph := callGraph + [call];
      reason, output := ExitCall(execution);
    }

    /** A precompile's answer ends the call frame: on success its cost is
        charged and the frame is left as succeeded, on error as failed. */
    method Precompiled(outcome: PrecompileOutcome) returns (reason: ExitReason, output: seq<byte>)
      requires Valid() && |substates| > 1
      modifies this
      ensures Valid() && |substates| == |old(substates)| - 1 && callGraph == old(callGraph)
      ensures outcome.PrecompileSucceed? ==>
                && reason == Succeed(outcome.succeed) && output == outcome.output
                && substates == Exit(Charge(old(substates), outcome.cost).0, Succeeded).0
      ensures outcome.PrecompileError? ==>
                reason == Error(outcome.error) && output == [] && substates == Exit(old(substates), Failed).0
    {
      match outcome {
        case PrecompileSucceed(s, out, cost) =>
          var n := |substates|;
          var top := substates[n - 1];
          var (m, _) := RecordCost(top.meter, cost);
          substates := WithTop(substates, top.(meter := m));
          var _ := ExitSubstate(Succeeded);
          return Succeed(s), out;
        case PrecompileError(e) =>
          var _ := ExitSubstate(Failed);
          return Error(e), [];
      }
    }

    /** Leaves the call frame by how the interpreter's run ended: success
        and revert hand back the returned data; a fatal end also fails the
        frame's meter. */
    method ExitCall(execution: Execution) returns (reason: ExitReason, output: seq<byte>)
      requires Valid() && |substates| > 1
      modifies this
      ensures Valid() && |substates| == |old(substates)| - 1 && callGraph == old(callGraph)
      ensures reason == execution.reason
      ensures output == if reason.Succeed? || reason.Revert? then execution.returned else []
      ensures substates == LeaveFrame(old(substates), execution.reason)
    {
      match execution.reason {
        case Succeed(s) =>
          var _ := ExitSubstate(Succeeded);
          return Succeed(s), execution.returned;
        case Error(e) =>
          var _ := ExitSubstate(Failed);
          return Error(e), [];
        case Revert =>
          var _ := ExitSubstate(Reverted);
          return Revert, execution.returned;
        case Fatal(e) =>
          substates := FailTop(substates);
          var _ := ExitSubstate(Failed);
          return Fatal(e), [];
      }
    }

    // -------------------------------------------------------------------
    // Final state
    // -------------------------------------------------------------------

    /** `deconstruct`: turns the transaction's frame into the changes to
        apply: a Modify for every touched account that is not deleted, in
        ascending address order, then a Delete for every deleted address, in
        ascending order; no address gets both. Also hands back the logs and
        the call graph. */
    method Deconstruct() returns (applies: seq<Apply>, logs: seq<Log>, calls: seq<InternalTransaction>)
      requires Valid() && |substates| == 1
      ensures var state, deleted := substates[0].state, substates[0].deleted;
              && (forall i, j :: 0 <= i < j < |applies| && applies[j].Modify? ==> applies[i].Modify?)
              && (forall i, j :: 0 <= i < j < |applies| && applies[i].Modify? == applies[j].Modify? ==>
                    applies[i].address < applies[j].address)
              && (forall i :: 0 <= i < |applies| && applies[i].Modify? ==>
                    && applies[i].address in state
                    && applies[i].address !in deleted
                    && applies[i] == ModifyOf(applies[i].address, state[applies[i].address]))
              && (forall i :: 0 <= i < |applies| && applies[i].Delete? ==> applies[i].address in deleted)
              && (forall x :: x in state && x !in deleted ==> ModifyOf(x, state[x]) in applies)
              && (forall x :: x in deleted ==> Delete(x) in applies)
              && (forall i, j :: 0 <= i < |applies| && 0 <= j < |applies| && applies[i].Modify? && applies[j].Delete? ==>
                    applies[i].address != applies[j].address)
      ensures logs == substates[0].logs && calls == callGraph
    {
      var current := substates[0];
      var modified := ModifyApplies(current.state, current.deleted);
      var deletes := DeleteApplies(current.deleted);
      applies := modified + deletes;
      logs := current.logs;
      calls := callGraph;
    }
  }
}
