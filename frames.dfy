/**
 * What `call_inner` and `create_inner` do to the stack of substates once the
 * new frame is entered, as functions of the stack they start from and of how
 * the callee ran. The executor's methods for them are proved to leave
 * exactly these stacks; the lemmas here say what a caller sees afterwards.
 */
module Frames {
  import opened EvmTypes
  import opened Gasometer
  import opened Journal
  import opened JournalLemmas

  /** How a frame is left once the interpreter has ended it: success merges
      it, an error fails it, a revert reverts it, and a fatal end spends all
      of its gas first. */
  function LeaveFrame(layers: seq<Substate>, reason: ExitReason): (r: seq<Substate>)
    requires |layers| > 1
    ensures |r| == |layers| - 1 && r[..|r| - 1] == layers[..|layers| - 2]
    ensures WellNested(layers) ==> WellNested(r)
  {
    match reason
    case Succeed(_) => Exit(layers, Succeeded).0
    case Error(_) => Exit(layers, Failed).0
    case Revert => Exit(layers, Reverted).0
    case Fatal(_) => Exit(FailTop(layers), Failed).0
  }

  /** Leaving a frame any way but by success forgets its accounts and
      deletions; leaving it by success keeps every lookup as it was. */
  lemma LeaveFrameView(layers: seq<Substate>, reason: ExitReason, b: Address)
    requires |layers| > 1
    ensures reason.Succeed? ==>
              && FindAccount(LeaveFrame(layers, reason), b) == FindAccount(layers, b)
              && IsDeleted(LeaveFrame(layers, reason), b) == IsDeleted(layers, b)
    ensures !reason.Succeed? ==>
              && FindAccount(LeaveFrame(layers, reason), b) == FindAccount(layers[..|layers| - 1], b)
              && IsDeleted(LeaveFrame(layers, reason), b) == IsDeleted(layers[..|layers| - 1], b)
  {
    match reason
    case Succeed(_) => ExitSucceededKeepsView(layers, b);
    case Error(_) => ExitDiscardDropsChild(layers, Failed, b);
    case Revert => ExitDiscardDropsChild(layers, Reverted, b);
    case Fatal(_) =>
      var failed := FailTop(layers);
      ExitDiscardDropsChild(failed, Failed, b);
      assert failed[..|failed| - 1] == layers[..|layers| - 1];
  }

  // ---------------------------------------------------------------------
  // Calls
  // ---------------------------------------------------------------------

  /** The stack once the callee's frame is entered with `gasLimit` and the
      callee's account is copied up into it. */
  function CallEntered(layers: seq<Substate>, backend: Backend, gasLimit: nat, isStatic: bool,
                       callee: Address): (r: seq<Substate>)
    requires |layers| >= 1
    ensures |r| == |layers| + 1 && r[..|layers|] == layers
    ensures Top(r).meter == New(gasLimit)
    ensures WellNested(layers) ==> WellNested(r)
  {
    var entered := Enter(layers, gasLimit, isStatic);
    var touched := Touch(entered, backend, callee);
    assert touched[..|layers|] == entered[..|layers|];
    touched
  }

  /** The callee's new frame sees every account as the caller did. */
  lemma CallEnteredView(layers: seq<Substate>, backend: Backend, gasLimit: nat, isStatic: bool,
                        callee: Address, b: Address)
    requires |layers| >= 1
    ensures Visible(CallEntered(layers, backend, gasLimit, isStatic, callee), backend, b) == Visible(layers, backend, b)
    ensures IsDeleted(CallEntered(layers, backend, gasLimit, isStatic, callee), b) == IsDeleted(layers, b)
  {
    var entered := Enter(layers, gasLimit, isStatic);
    EnterKeepsView(layers, gasLimit, isStatic, b);
    TouchKeepsView(entered, backend, callee, b);
  }

  /** The call's value, if any, paid within the callee's frame. */
  function CallPaid(entered: seq<Substate>, backend: Backend, transfer: Option<Transfer>): (r: (seq<Substate>, Result<()>))
    requires |entered| >= 1
    ensures |r.0| == |entered| && r.0[..|entered| - 1] == entered[..|entered| - 1]
    ensures Top(r.0).meter == Top(entered).meter
    ensures WellNested(entered) ==> WellNested(r.0)
  {
    if transfer.Some? then
      TransferKeepsMeter(entered, backend, transfer.value);
      ApplyTransfer(entered, backend, transfer.value)
    else (entered, Ok(()))
  }

  /** Paying a call's value fails exactly when the payer cannot afford it. */
  lemma CallPaidOutcome(entered: seq<Substate>, backend: Backend, transfer: Option<Transfer>)
    requires |entered| >= 1
    ensures CallPaid(entered, backend, transfer).1 ==
              if transfer.Some? && BalanceOf(entered, backend, transfer.value.source) < transfer.value.value
              then Err(OutOfFund) else Ok(())
  {
    if transfer.Some? {
      TransferOutcome(entered, backend, transfer.value);
    }
  }

  /** The stack `call_inner` leaves, from entering the callee's frame with
      `gasLimit` on: a frame deeper than the call stack limit, or one whose
      value cannot be paid, is left as reverted at once; otherwise the
      precompile's answer or the interpreter's run ends it. */
  function CallStack(layers: seq<Substate>, backend: Backend, config: Config, gasLimit: nat, isStatic: bool,
                     transfer: Option<Transfer>, context: Context, precompiled: Option<PrecompileOutcome>,
                     execution: Execution): (r: seq<Substate>)
    requires |layers| >= 1
    ensures |r| == |layers| && r[..|r| - 1] == layers[..|layers| - 1]
  {
    var entered := CallEntered(layers, backend, gasLimit, isStatic, context.address);
    assert entered[..|layers| - 1] == layers[..|layers| - 1];
    if ChildDepth(layers) > config.callStackLimit then Exit(entered, Reverted).0
    else
      var paid := CallPaid(entered, backend, transfer);
      assert paid.0[..|layers| - 1] == layers[..|layers| - 1];
      CallAfterPayment(paid, precompiled, execution)
  }

  /** How a call frame goes on once its value is paid: it is left as
      reverted if the payment failed, and otherwise ended as `CallEnd` says. */
  function CallAfterPayment(paid: (seq<Substate>, Result<()>), precompiled: Option<PrecompileOutcome>,
                            execution: Execution): (r: seq<Substate>)
    requires |paid.0| > 1
    ensures |r| == |paid.0| - 1 && r[..|r| - 1] == paid.0[..|paid.0| - 2]
  {
    if paid.1.Err? then Exit(paid.0, Reverted).0
    else CallEnd(paid.0, precompiled, execution)
  }

  /** How a call frame whose value has been paid is ended: by the
      precompile's answer, charging its cost on success, or by the
      interpreter's run, charging the gas it spent. */
  function CallEnd(paid: seq<Substate>, precompiled: Option<PrecompileOutcome>, execution: Execution): (r: seq<Substate>)
    requires |paid| > 1
    ensures |r| == |paid| - 1 && r[..|r| - 1] == paid[..|paid| - 2]
  {
    match precompiled
    case Some(PrecompileSucceed(_, _, cost)) => Exit(Charge(paid, cost).0, Succeeded).0
    case Some(PrecompileError(_)) => Exit(paid, Failed).0
    case None => LeaveFrame(Charge(paid, execution.spent).0, execution.reason)
  }

  /** The call got as far as its callee: within the call stack limit and
      its value, if any, paid. */
  predicate CallRuns(layers: seq<Substate>, backend: Backend, config: Config, transfer: Option<Transfer>)
    requires |layers| >= 1
  {
    && ChildDepth(layers) <= config.callStackLimit
    && (transfer.Some? ==> BalanceOf(layers, backend, transfer.value.source) >= transfer.value.value)
  }

  /** A call that gets to its callee pays its value and is then ended as
      `CallEnd` says. */
  lemma CallStackWhenRuns(layers: seq<Substate>, backend: Backend, config: Config, gasLimit: nat, isStatic: bool,
                          transfer: Option<Transfer>, context: Context, precompiled: Option<PrecompileOutcome>,
                          execution: Execution)
    requires |layers| >= 1 && CallRuns(layers, backend, config, transfer)
    ensures var paid := CallPaid(CallEntered(layers, backend, gasLimit, isStatic, context.address), backend, transfer);
            && paid.1 == Ok(())
            && CallStack(layers, backend, config, gasLimit, isStatic, transfer, context, precompiled, execution) ==
                 CallEnd(paid.0, precompiled, execution)
  {
    var entered := CallEntered(layers, backend, gasLimit, isStatic, context.address);
    var paid := CallPaid(entered, backend, transfer);
    CallPaidOutcome(entered, backend, transfer);
    if transfer.Some? {
      CallEnteredView(layers, backend, gasLimit, isStatic, context.address, transfer.value.source);
    }
    assert paid.1 == Ok(());
    assert CallStack(layers, backend, config, gasLimit, isStatic, transfer, context, precompiled, execution) ==
           CallAfterPayment(paid, precompiled, execution);
  }

  /** A call that is too deep leaves the callee's frame as reverted at once;
      one whose value cannot be paid does so after the failed payment. */
  lemma CallStackWhenRefused(layers: seq<Substate>, backend: Backend, config: Config, gasLimit: nat, isStatic: bool,
                             transfer: Option<Transfer>, context: Context, precompiled: Option<PrecompileOutcome>,
                             execution: Execution)
    requires |layers| >= 1 && !CallRuns(layers, backend, config, transfer)
    ensures var entered := CallEntered(layers, backend, gasLimit, isStatic, context.address);
            var paid := CallPaid(entered, backend, transfer);
            CallStack(layers, backend, config, gasLimit, isStatic, transfer, context, precompiled, execution) ==
              if ChildDepth(layers) > config.callStackLimit then Exit(entered, Reverted).0 else Exit(paid.0, Reverted).0
  {
    var entered := CallEntered(layers, backend, gasLimit, isStatic, context.address);
    CallPaidOutcome(entered, backend, transfer);
    if transfer.Some? {
      CallEnteredView(layers, backend, gasLimit, isStatic, context.address, transfer.value.source);
    }
  }

  /** Charging the caller's frame for the call's gas changes neither the
      depth of the callee's frame nor the payer's balance, so neither check
      of the call. */
  lemma ChargeKeepsCallChecks(layers: seq<Substate>, cost: nat, backend: Backend, config: Config,
                              transfer: Option<Transfer>)
    requires |layers| >= 1
    ensures var charged := Charge(layers, cost).0;
            && ChildDepth(charged) == ChildDepth(layers)
            && (transfer.Some? ==>
                  BalanceOf(charged, backend, transfer.value.source) == BalanceOf(layers, backend, transfer.value.source))
            && (CallRuns(charged, backend, config, transfer) <==> CallRuns(layers, backend, config, transfer))
  {
    var charged := Charge(layers, cost).0;
    assert WithTop(layers, Top(charged)) == charged;
    if transfer.Some? {
      SameTopKeepsView(layers, Top(charged), transfer.value.source);
    }
  }

  /** The callee ended its frame successfully. */
  predicate CallSucceeds(precompiled: Option<PrecompileOutcome>, execution: Execution) {
    if precompiled.Some? then precompiled.value.PrecompileSucceed? else execution.reason.Succeed?
  }

  /** Entering the callee's frame and paying the value change nothing the
      caller sees but the two balances of the transfer. */
  lemma CallPaidView(layers: seq<Substate>, backend: Backend, gasLimit: nat, isStatic: bool,
                     transfer: Option<Transfer>, context: Context, b: Address)
    requires |layers| >= 1
    ensures var paid := CallPaid(CallEntered(layers, backend, gasLimit, isStatic, context.address), backend, transfer);
            && paid.1 ==
                 (if transfer.Some? && BalanceOf(layers, backend, transfer.value.source) < transfer.value.value
                  then Err(OutOfFund) else Ok(()))
            && (transfer.None? || paid.1.Err? ==> Visible(paid.0, backend, b) == Visible(layers, backend, b))
            && (transfer.Some? && paid.1.Ok? && transfer.value.source != transfer.value.target ==>
                  && BalanceOf(paid.0, backend, transfer.value.source) ==
                       BalanceOf(layers, backend, transfer.value.source) - transfer.value.value
                  && BalanceOf(paid.0, backend, transfer.value.target) ==
                       BalanceOf(layers, backend, transfer.value.target) + transfer.value.value)
            && (transfer.Some? && b != transfer.value.source && b != transfer.value.target ==>
                  Visible(paid.0, backend, b) == Visible(layers, backend, b))
  {
    var touched := CallEntered(layers, backend, gasLimit, isStatic, context.address);
    CallEnteredView(layers, backend, gasLimit, isStatic, context.address, b);
    if transfer.Some? {
      var t := transfer.value;
      CallEnteredView(layers, backend, gasLimit, isStatic, context.address, t.source);
      CallEnteredView(layers, backend, gasLimit, isStatic, context.address, t.target);
      TransferEffect(touched, backend, t, b);
    }
  }

  /** A call that does not get to its callee, or whose callee does not
      succeed, leaves every account and every deletion as it was before the
      call: all of its frame is forgotten, the transfer included. */
  lemma UnsuccessfulCallForgotten(layers: seq<Substate>, backend: Backend, config: Config, gasLimit: nat,
                                  isStatic: bool, transfer: Option<Transfer>, context: Context,
                                  precompiled: Option<PrecompileOutcome>, execution: Execution, b: Address)
    requires |layers| >= 1
    requires !CallRuns(layers, backend, config, transfer) || !CallSucceeds(precompiled, execution)
    ensures var r := CallStack(layers, backend, config, gasLimit, isStatic, transfer, context, precompiled, execution);
            FindAccount(r, b) == FindAccount(layers, b) && IsDeleted(r, b) == IsDeleted(layers, b)
  {
    if !CallRuns(layers, backend, config, transfer) {
      RefusedCallForgotten(layers, backend, config, gasLimit, isStatic, transfer, context, precompiled, execution, b);
    } else {
      FailedCalleeForgotten(layers, backend, config, gasLimit, isStatic, transfer, context, precompiled, execution, b);
    }
  }

  /** A call refused for its depth or its value is forgotten. */
  lemma RefusedCallForgotten(layers: seq<Substate>, backend: Backend, config: Config, gasLimit: nat,
                             isStatic: bool, transfer: Option<Transfer>, context: Context,
                             precompiled: Option<PrecompileOutcome>, execution: Execution, b: Address)
    requires |layers| >= 1 && !CallRuns(layers, backend, config, transfer)
    ensures var r := CallStack(layers, backend, config, gasLimit, isStatic, transfer, context, precompiled, execution);
            FindAccount(r, b) == FindAccount(layers, b) && IsDeleted(r, b) == IsDeleted(layers, b)
  {
    var n := |layers|;
    var entered := CallEntered(layers, backend, gasLimit, isStatic, context.address);
    CallStackWhenRefused(layers, backend, config, gasLimit, isStatic, transfer, context, precompiled, execution);
    if ChildDepth(layers) > config.callStackLimit {
      assert entered[..n] == layers;
      ExitDiscardDropsChild(entered, Reverted, b);
    } else {
      var paid := CallPaid(entered, backend, transfer).0;
      assert paid[..n] == layers;
      ExitDiscardDropsChild(paid, Reverted, b);
    }
  }

  /** A call whose callee ran but did not succeed is forgotten: the
      precompile's error, or the run's, leaves the frame without keeping it. */
  lemma FailedCalleeForgotten(layers: seq<Substate>, backend: Backend, config: Config, gasLimit: nat,
                              isStatic: bool, transfer: Option<Transfer>, context: Context,
                              precompiled: Option<PrecompileOutcome>, execution: Execution, b: Address)
    requires |layers| >= 1 && CallRuns(layers, backend, config, transfer) && !CallSucceeds(precompiled, execution)
    ensures var r := CallStack(layers, backend, config, gasLimit, isStatic, transfer, context, precompiled, execution);
            FindAccount(r, b) == FindAccount(layers, b) && IsDeleted(r, b) == IsDeleted(layers, b)
  {
    var entered := CallEntered(layers, backend, gasLimit, isStatic, context.address);
    var paid := CallPaid(entered, backend, transfer).0;
    assert paid[..|paid| - 1] == entered[..|entered| - 1] == layers;
    CallStackWhenRuns(layers, backend, config, gasLimit, isStatic, transfer, context, precompiled, execution);
    FailedEndForgotten(paid, precompiled, execution, b);
  }

  /** Ending a paid frame by a precompile's error or an unsuccessful run
      makes every lookup read as it did below that frame. */
  lemma FailedEndForgotten(paid: seq<Substate>, precompiled: Option<PrecompileOutcome>, execution: Execution,
                           b: Address)
    requires |paid| > 1 && !CallSucceeds(precompiled, execution)
    ensures var r := CallEnd(paid, precompiled, execution);
            FindAccount(r, b) == FindAccount(paid[..|paid| - 1], b) && IsDeleted(r, b) == IsDeleted(paid[..|paid| - 1], b)
  {
    if precompiled.Some? {
      ExitDiscardDropsChild(paid, Failed, b);
    } else {
      var ran := Charge(paid, execution.spent).0;
      assert ran[..|ran| - 1] == paid[..|paid| - 1];
      LeaveFrameView(ran, execution.reason, b);
    }
  }



  /** A call whose callee succeeds keeps what it did: the caller sees every
      account as the callee's frame last saw it, so the value has moved from
      the payer to the payee and no other account changed unless the callee
      changed it. */
  lemma SuccessfulCallKept(layers: seq<Substate>, backend: Backend, config: Config, gasLimit: nat,
                           isStatic: bool, transfer: Option<Transfer>, context: Context,
                           precompiled: Option<PrecompileOutcome>, execution: Execution, b: Address)
    requires |layers| >= 1
    requires CallRuns(layers, backend, config, transfer) && CallSucceeds(precompiled, execution)
    ensures var r := CallStack(layers, backend, config, gasLimit, isStatic, transfer, context, precompiled, execution);
            var paid := CallPaid(CallEntered(layers, backend, gasLimit, isStatic, context.address), backend, transfer).0;
            FindAccount(r, b) == FindAccount(paid, b) && IsDeleted(r, b) == IsDeleted(paid, b)
  {
    CallStackWhenRuns(layers, backend, config, gasLimit, isStatic, transfer, context, precompiled, execution);
    var entered := CallEntered(layers, backend, gasLimit, isStatic, context.address);
    var paid := CallPaid(entered, backend, transfer).0;
    var cost := if precompiled.Some? then precompiled.value.cost else execution.spent;
    var charged := Charge(paid, cost).0;
    assert CallEnd(paid, precompiled, execution) == Exit(charged, Succeeded).0;
    assert charged == WithTop(paid, Top(charged));
    SameTopKeepsView(paid, Top(charged), b);
    ExitSucceededKeepsView(charged, b);
  }

  // ---------------------------------------------------------------------
  // Creates
  // ---------------------------------------------------------------------

  /** `acc` with its nonce one higher. */
  function BumpNonce(acc: Account): Account {
    acc.(basic := acc.basic.(nonce := acc.basic.nonce + 1))
  }

  /** The code a creation returned is longer than the configured limit
      (EIP-170). */
  predicate OverCodeLimit(config: Config, code: seq<byte>) {
    config.createContractLimit.Some? && |code| > config.createContractLimit.value
  }

  /** The target of a creation is taken (EIP-684): it has code or a nonce,
      or it is the creator, whose nonce is bumped before the check. */
  predicate Collides(layers: seq<Substate>, backend: Backend, caller: Address, address: Address) {
    address == caller || CodeOf(layers, backend, address) != [] || NonceOf(layers, backend, address) > 0
  }

  /** The stack once the creator's nonce is bumped, in the creator's frame. */
  function CallerBumped(layers: seq<Substate>, backend: Backend, caller: Address): (r: seq<Substate>)
    requires |layers| >= 1
    ensures |r| == |layers| && r[..|r| - 1] == layers[..|layers| - 1]
    ensures Top(r).meter == Top(layers).meter
    ensures NonceOf(r, backend, caller) == NonceOf(layers, backend, caller) + 1
    ensures WellNested(layers) ==> WellNested(r)
  {
    var bumped := BumpNonce(Visible(layers, backend, caller));
    SetAccountView(layers, backend, caller, bumped, caller);
    SetAccount(layers, caller, bumped)
  }

  /** Once the creator's nonce is bumped, its next CREATE targets the
      address hashed from the nonce one higher. */
  lemma NextCreateAddress(layers: seq<Substate>, backend: Backend, hasher: Hasher, caller: Address)
    requires |layers| >= 1
    ensures CreateAddress(CallerBumped(layers, backend, caller), backend, hasher, Legacy(caller)) ==
            hasher.legacy(caller, NonceOf(layers, backend, caller) + 1)
  {
  }

  /** The new frame of a creation that passed the collision check: entered
      with `gasLimit` above the bumped creator, with the target's code known
      to be empty and its storage reset. */
  function CreateEntered(layers: seq<Substate>, backend: Backend, caller: Address, address: Address,
                         gasLimit: nat): (r: seq<Substate>)
    requires |layers| >= 1
    ensures |r| == |layers| + 1 && r[..|layers|] == CallerBumped(layers, backend, caller)
    ensures Top(r).meter == New(gasLimit)
    ensures WellNested(layers) ==> WellNested(r)
  {
    var entered := Enter(CallerBumped(layers, backend, caller), gasLimit, false);
    var reset := Visible(entered, backend, address).(code := Some([]), storage := map[], resetStorage := true);
    var r := SetAccount(entered, address, reset);
    assert r[..|layers|] == entered[..|layers|];
    r
  }

  /** The value moved from the creator to the new account, in the new frame,
      and then, when the configuration asks for it, the new account's nonce
      bumped. */
  function CreateFunded(entered: seq<Substate>, backend: Backend, config: Config, caller: Address,
                        address: Address, value: nat): (r: (seq<Substate>, Result<()>))
    requires |entered| >= 1
    ensures |r.0| == |entered| && r.0[..|entered| - 1] == entered[..|entered| - 1]
    ensures Top(r.0).meter == Top(entered).meter
    ensures WellNested(entered) ==> WellNested(r.0)
  {
    var t := Transfer(caller, address, value);
    TransferKeepsMeter(entered, backend, t);
    var paid := ApplyTransfer(entered, backend, t);
    if paid.1.Err? || !config.createIncreaseNonce then paid
    else (SetAccount(paid.0, address, BumpNonce(Visible(paid.0, backend, address))), Ok(()))
  }

  /** Funding a new contract fails exactly when the creator cannot afford
      the endowment. */
  lemma CreateFundedOutcome(entered: seq<Substate>, backend: Backend, config: Config, caller: Address,
                            address: Address, value: nat)
    requires |entered| >= 1
    ensures CreateFunded(entered, backend, config, caller, address, value).1 ==
              if BalanceOf(entered, backend, caller) < value then Err(OutOfFund) else Ok(())
  {
    TransferOutcome(entered, backend, Transfer(caller, address, value));
  }

  /** The reason a creation ends with once its init code has run, given the
      new frame's meter with the run charged (`child`) and the creator's
      meter (`parent`): a successful run succeeds unless the returned code is
      over the size limit, its deposit cannot be paid, or the creator's
      frame cannot take the unspent gas back; any other end passes through. */
  function CreateReason(config: Config, child: Meter, parent: Meter, execution: Execution): (r: ExitReason)
    ensures r.Succeed? <==>
              && execution.reason.Succeed? && !OverCodeLimit(config, execution.returned)
              && RecordDeposit(child, |execution.returned|).1.Ok? && !parent.failed
    ensures r.Succeed? || !execution.reason.Succeed? ==> r == execution.reason
    ensures execution.reason.Succeed? && !r.Succeed? ==> r == Error(CreateContractLimit) || r == Error(OutOfGas)
  {
    match execution.reason
    case Succeed(s) =>
      if OverCodeLimit(config, execution.returned) then Error(CreateContractLimit)
      else if RecordDeposit(child, |execution.returned|).1.Err? || parent.failed then Error(OutOfGas)
      else Succeed(s)
    case _ => execution.reason
  }

  /** How a creation ends does not depend on when the gas its run spent is
      charged: charging it to the frame first gives the same answer. */
  lemma ChargeKeepsCreateReason(layers: seq<Substate>, config: Config, execution: Execution)
    requires |layers| > 1
    ensures var ran := Charge(layers, execution.spent).0;
            CreateReason(config, Top(ran).meter, ran[|ran| - 2].meter, execution) ==
            CreateReason(config, RecordCost(Top(layers).meter, execution.spent).0, layers[|layers| - 2].meter, execution)
  {
    var ran := Charge(layers, execution.spent).0;
    assert ran[|ran| - 2] == layers[|layers| - 2];
  }

  /** The stack the end of a creation leaves, from the new frame with the
      init code's run charged: a successful run within the size limit pays
      the deposit, leaves the frame as succeeded and installs the returned
      code at `address` in the creator's frame; a run over the limit, a
      deposit that cannot be paid, an error or a fatal end fail the frame;
      a revert reverts it. */
  function CreateEndStack(layers: seq<Substate>, backend: Backend, config: Config, address: Address,
                          execution: Execution): (r: seq<Substate>)
    requires |layers| > 1
    ensures |r| == |layers| - 1 && r[..|r| - 1] == layers[..|layers| - 2]
    ensures WellNested(layers) ==> WellNested(r)
  {
    match execution.reason
    case Succeed(_) =>
      if OverCodeLimit(config, execution.returned) then Exit(FailTop(layers), Failed).0
      else
        var deposited := Charge(layers, 200 * |execution.returned|);
        assert deposited.0[..|layers| - 2] == layers[..|layers| - 2];
        if deposited.1.Err? then Exit(deposited.0, Failed).0
        else
          var exited := Exit(deposited.0, Succeeded).0;
          assert exited[..|exited| - 1] == layers[..|layers| - 2];
          SetAccount(exited, address, Visible(exited, backend, address).(code := Some(execution.returned)))
    case Revert => Exit(layers, Reverted).0
    case _ => Exit(FailTop(layers), Failed).0
  }

  /** A successful run within the size limit: if the deposit cannot be paid
      the frame fails with `OutOfGas`; otherwise the frame is left as
      succeeded, the code installed, and the run's own reason kept unless the
      creator's frame has already run out of gas. */
  lemma DepositPath(layers: seq<Substate>, backend: Backend, config: Config, address: Address, execution: Execution)
    requires |layers| > 1 && execution.reason.Succeed? && !OverCodeLimit(config, execution.returned)
    ensures var deposited := Charge(layers, 200 * |execution.returned|);
            var exited := Exit(deposited.0, Succeeded);
            var reason := CreateReason(config, Top(layers).meter, layers[|layers| - 2].meter, execution);
            var r := CreateEndStack(layers, backend, config, address, execution);
            && (deposited.1.Err? ==> reason == Error(OutOfGas) && r == Exit(deposited.0, Failed).0)
            && (deposited.1.Ok? ==>
                  && reason == (if exited.1.Err? then Error(OutOfGas) else execution.reason)
                  && r == SetAccount(exited.0, address, Visible(exited.0, backend, address).(code := Some(execution.returned))))
  {
    var deposited := Charge(layers, 200 * |execution.returned|);
    assert deposited.0[|layers| - 2] == layers[|layers| - 2];
    ExitGasAccounting(deposited.0, Succeeded);
  }

  /** In the new frame of a creation the target reads as an account with no
      code and with every storage slot zero, the creator's nonce is one
      higher, and every other account reads as before. */
  lemma CreateEnteredView(layers: seq<Substate>, backend: Backend, caller: Address, address: Address,
                          gasLimit: nat, index: Word, b: Address)
    requires |layers| >= 1 && address != caller
    ensures var r := CreateEntered(layers, backend, caller, address, gasLimit);
            && CodeOf(r, backend, address) == [] && StorageOf(r, backend, address, index) == 0
            && NonceOf(r, backend, address) == NonceOf(layers, backend, address)
            && BalanceOf(r, backend, address) == BalanceOf(layers, backend, address)
            && NonceOf(r, backend, caller) == NonceOf(layers, backend, caller) + 1
            && BalanceOf(r, backend, caller) == BalanceOf(layers, backend, caller)
            && (b != caller && b != address ==> Visible(r, backend, b) == Visible(layers, backend, b))
  {
    var bumped := BumpNonce(Visible(layers, backend, caller));
    var entered := Enter(CallerBumped(layers, backend, caller), gasLimit, false);
    var reset := Visible(entered, backend, address).(code := Some([]), storage := map[], resetStorage := true);
    SetThenEnterView(layers, backend, caller, bumped, gasLimit, false, address);
    SetThenEnterView(layers, backend, caller, bumped, gasLimit, false, caller);
    SetThenEnterView(layers, backend, caller, bumped, gasLimit, false, b);
    SetAccountView(entered, backend, address, reset, address);
    SetAccountView(entered, backend, address, reset, caller);
    SetAccountView(entered, backend, address, reset, b);
  }

  /** A creation whose run succeeded within the size limit and paid its
      deposit has the returned code at its address; every other account
      reads as the new frame last saw it. */
  lemma CreatedCodeInstalled(layers: seq<Substate>, backend: Backend, config: Config, address: Address,
                             execution: Execution, b: Address)
    requires |layers| > 1
    requires execution.reason.Succeed? && !OverCodeLimit(config, execution.returned)
    requires RecordDeposit(Top(layers).meter, |execution.returned|).1.Ok?
    ensures var r := CreateEndStack(layers, backend, config, address, execution);
            && CodeOf(r, backend, address) == execution.returned
            && (b != address ==> Visible(r, backend, b) == Visible(layers, backend, b))
            && IsDeleted(r, b) == IsDeleted(layers, b)
  {
    var deposited := Charge(layers, 200 * |execution.returned|).0;
    var exited := Exit(deposited, Succeeded).0;
    var installed := Visible(exited, backend, address).(code := Some(execution.returned));
    assert deposited == WithTop(layers, Top(deposited));
    SameTopKeepsView(layers, Top(deposited), b);
    ExitSucceededKeepsView(deposited, b);
    SetAccountView(exited, backend, address, installed, b);
    SetAccountView(exited, backend, address, installed, address);
  }

  /** A creation that does not succeed forgets everything its frame did,
      provided the creator's frame has not failed (it cannot have: it paid
      for the new frame). */
  lemma FailedCreateForgotten(layers: seq<Substate>, backend: Backend, config: Config, address: Address,
                              execution: Execution, b: Address)
    requires |layers| > 1 && !layers[|layers| - 2].meter.failed
    requires !CreateReason(config, Top(layers).meter, layers[|layers| - 2].meter, execution).Succeed?
    ensures var r := CreateEndStack(layers, backend, config, address, execution);
            FindAccount(r, b) == FindAccount(layers[..|layers| - 1], b) && IsDeleted(r, b) == IsDeleted(layers[..|layers| - 1], b)
  {
    var n := |layers|;
    var r := CreateEndStack(layers, backend, config, address, execution);
    if execution.reason.Revert? {
      ExitDiscardDropsChild(layers, Reverted, b);
    } else if execution.reason.Succeed? && !OverCodeLimit(config, execution.returned) {
      var deposited := Charge(layers, 200 * |execution.returned|).0;
      assert r == Exit(deposited, Failed).0;
      assert deposited[..n - 1] == layers[..n - 1];
      ExitDiscardDropsChild(deposited, Failed, b);
    } else {
      var failed := FailTop(layers);
      assert r == Exit(failed, Failed).0;
      assert failed[..n - 1] == layers[..n - 1];
      ExitDiscardDropsChild(failed, Failed, b);
    }
  }
}
