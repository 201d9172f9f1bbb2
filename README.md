# EVM stack executor: journaled state

A Dafny model of the journaled state of the EVM stack executor
(`modules/evm/src/executor/stack.rs`).

The executor keeps a stack of substates while a transaction runs, one per
call or create frame, with the transaction's own frame at the bottom. Each
substate holds:

- the accounts the frame has touched: basic info, code if known, cached
  storage slots, and a reset-storage flag;
- the addresses it marked for deletion;
- the logs it emitted;
- a static flag, a depth and a gas meter.

Reads search the stack from the top down and fall back to the backend.
Writes first copy the visible account into the top substate (copy-on-write).
Leaving a frame merges its substate into the parent's on success. On revert
or failure the frame's accounts and deletions are dropped.

The model has seven modules:

- `EvmTypes` (`types.dfy`): accounts, logs, applies, exit reasons, the
  backend, the hashers and the configuration, as values.
- `Gasometer` (`gasometer.dfy`): the gas meter a substate carries, kept
  abstract. It has a limit, used gas, a refund and a failed state.
- `GasRules` (`gas_rules.dfy`): the gas arithmetic done by the executor
  itself. This covers the refund cap of `used_gas`, `l64`, the gas limit of
  a new frame, and the saturating call stipend.
- `Journal` (`journal.dfy`): the stack as a `seq<Substate>`, with every
  lookup and every single-step transition as a function. It also holds
  `WellNested`, the shape every reachable stack has: one root frame, and
  above it one frame per nested call whose depth counts from zero. Static
  mode stays set in every frame above a static one.
- `JournalLemmas` (`journal_lemmas.dfy`): what those lookups and
  transitions promise.
  - A lookup reads the topmost cached copy, or the backend.
  - Copying an account up is invisible.
  - Balance moves are exact and conserve value.
  - A storage write reads back.
  - A successful exit keeps what the child did; a reverted or failed exit
    forgets its accounts and deletions.
- `Frames` (`frames.dfy`): the stacks `call_inner` and `create_inner`
  leave, as functions of the stack they start from and of how the callee
  ran, with the reason a creation ends with. Its lemmas say what the
  caller sees afterwards: an unsuccessful call or creation is forgotten, a
  successful one is kept, and a created contract has the returned code.
- `Executor` (`executor.dfy`): the `StackExecutor` class.
  - Its `substates` and `callGraph` fields are updated in place by methods.
  - Each single-step method is proved to leave the stack the matching
    `Journal` function computes.
  - The methods for `create_inner` and `call_inner` are split into their
    steps. Each step is proved to leave the stack a `Frames` function
    computes, and states its exit reason, output and call graph directly.
    They go as far as the interpreter. What the interpreter does is an
    input: how it ended, what it returned and the gas it spent.
  - The lookups are top-down loops, proved equal to the `Journal` lookups.
  - `deconstruct` is two loops over the final frame, proved to produce the
    sorted Modify/Delete list.

`exit_substate` appends the child's logs to the parent's whatever the exit
kind. So logs emitted by a reverted or failed frame are kept, and `Exit`
states this (its `logs` ensures).

## Model

| member | source | states |
|---|---|---|
| Executor.StackExecutor.constructor | modules/evm/src/executor/stack.rs:68-91 | The new executor holds exactly one frame: the root substate with a fresh meter for the gas limit, no accounts, no deletions, no logs, not static, no depth. The call graph is empty and the stack is well nested. |
| Journal.Enter | modules/evm/src/executor/stack.rs:93-114 | Pushes exactly one substate and leaves the layers below unchanged. The new frame has no accounts, no deletions and no logs, and a fresh meter for the given gas limit. It is static if asked to be or if its parent is. Its depth is 0 above the root frame and one more than its parent's otherwise. A well-nested stack stays well nested. |
| JournalLemmas.StaticIsSticky | modules/evm/src/executor/stack.rs:105 | In a well-nested stack, every frame above a static frame is static. |
| JournalLemmas.DepthCounts | modules/evm/src/executor/stack.rs:106-109 | In a well-nested stack the root has no depth and frame i above it has depth i-1. |
| JournalLemmas.TooDeepCountsFrames | modules/evm/src/executor/stack.rs:439-446 | In a well-nested stack, the depth check of a create fires exactly when the stack holds more than the call stack limit plus two frames. It never fires in the transaction's own frame. |
| Executor.StackExecutor.EnterSubstate | modules/evm/src/executor/stack.rs:93-114 | The new stack is `Enter` of the old one; the call graph is unchanged; well-nestedness is kept. |
| JournalLemmas.EnterKeepsView | modules/evm/src/executor/stack.rs:93-114 | A freshly entered frame sees every account and deletion exactly as its parent did. |
| Journal.Exit | modules/evm/src/executor/stack.rs:117-144 | Pops exactly one substate and leaves the layers below the parent unchanged. The parent's logs become its own logs followed by the child's, whatever the exit kind. The parent keeps its depth and static flag, and well-nestedness is kept. |
| Executor.StackExecutor.ExitSubstate | modules/evm/src/executor/stack.rs:117-144 | The new stack and the result are `Exit` of the old stack; the call graph is unchanged. |
| JournalLemmas.ExitSucceededKeepsView | modules/evm/src/executor/stack.rs:131-135 | After a successful exit the parent's accounts are its own overridden by the child's, and its deleted set is the union of both. So every account and deletion reads exactly as it did while the child was on top. |
| JournalLemmas.ExitDiscardDropsChild | modules/evm/src/executor/stack.rs:137-140 | After a reverted or failed exit, lookups see what they saw before the frame was entered. The parent's accounts and deletions are as they were. |
| JournalLemmas.EnterThenFailRestores | modules/evm/src/executor/stack.rs:93-144 | Entering a frame and leaving it at once as failed gives back exactly the original stack, with Ok. |
| JournalLemmas.ExitGasAccounting | modules/evm/src/executor/stack.rs:130-141 | A failed exit leaves the parent's meter as it was. A revert gives back the child's unspent gas and no refund. A success also adds the child's refund. The bookkeeping fails only if the parent's meter had failed. |
| JournalLemmas.ExitFailedKeepsOnlyLogs | modules/evm/src/executor/stack.rs:121-141 | A failed exit keeps nothing of the child but its logs. Two stacks that agree below the top and on the top's logs are left identically. |
| Journal.FindAccountTopmost | modules/evm/src/executor/stack.rs:319-327 | The top-down search finds nothing exactly when no layer holds the address. Otherwise it returns the account held by the topmost layer that holds it. |
| JournalLemmas.LookupReadsTopmostCopy | modules/evm/src/executor/stack.rs:319-327 | Every lookup of an address (account, nonce, balance, code, storage slot, original slot) reads the copy held by the topmost layer holding one. Code not yet known reads from the backend. A slot the copy lacks reads zero after a storage reset and from the backend otherwise. The original slot is zero after a reset and the backend's otherwise. |
| JournalLemmas.LookupFallsBackToBackend | modules/evm/src/executor/stack.rs:789-811 | When no layer holds the address, its nonce, balance, code, storage and original storage all read from the backend. |
| Executor.StackExecutor.GetAccount | modules/evm/src/executor/stack.rs:319-327 | The loop from the top layer down returns `FindAccount` of the stack. |
| Executor.StackExecutor.Nonce | modules/evm/src/executor/stack.rs:358-366 | Returns the nonce of the topmost cached copy of the account, or the backend's nonce when no layer holds it. |
| Executor.StackExecutor.Balance | modules/evm/src/executor/stack.rs:735-743 | Returns the balance of the topmost cached copy of the account, or the backend's balance. |
| Executor.StackExecutor.Code | modules/evm/src/executor/stack.rs:783-787 | Returns the cached code of the topmost copy when it is known, the backend's code otherwise. |
| Executor.StackExecutor.Storage | modules/evm/src/executor/stack.rs:789-802 | Returns the slot as the topmost cached copy holds it. A slot it lacks reads as zero after a storage reset; without a reset, or with no cached copy, the backend's slot is returned. |
| Executor.StackExecutor.OriginalStorage | modules/evm/src/executor/stack.rs:804-811 | Returns zero when the visible account's storage was reset, the backend's slot otherwise. |
| Journal.IsDeletedSomeLayer | modules/evm/src/executor/stack.rs:846-854 | An address is deleted exactly when some layer's deleted set holds it. |
| Executor.StackExecutor.Deleted | modules/evm/src/executor/stack.rs:846-854 | The loop from the top layer down returns `IsDeleted` of the stack. |
| Executor.StackExecutor.CreateAddressFor | modules/evm/src/executor/stack.rs:394-415 | Returns `CreateAddress` of the stack for the scheme. CREATE2 hashes the caller, salt and code hash. CREATE hashes the caller with the caller's current nonce, read through the stack. A fixed address is returned as is. |
| JournalLemmas.CreateAddressInputs | modules/evm/src/executor/stack.rs:394-415 | The address a creation targets depends only on its scheme, and for a CREATE also on the caller's current nonce. Two stacks that agree on that nonce give the same address. |
| Frames.NextCreateAddress | modules/evm/src/executor/stack.rs:467-468 | Once the creator's nonce is bumped, its next CREATE hashes the nonce one higher. |
| Journal.Touch | modules/evm/src/executor/stack.rs:330-355 | Afterwards the top layer holds the address, with the previously visible account: the topmost cached copy, or a fresh account from the backend's basic info with no code, no storage and no reset. Every lower layer is unchanged. |
| Executor.StackExecutor.AccountMut | modules/evm/src/executor/stack.rs:330-355 | The new stack is `Touch` of the old one, and the account handed back is the top layer's copy. |
| JournalLemmas.TouchKeepsView | modules/evm/src/executor/stack.rs:330-355 | Copying an account up changes nothing any lookup sees. |
| JournalLemmas.TouchIsSet | modules/evm/src/executor/stack.rs:330-355 | Copying up is the same as writing the visible account into the top layer. |
| JournalLemmas.TouchThenSet | modules/evm/src/executor/stack.rs:330-355 | Copying an account up before overwriting it in the top layer makes no difference. |
| JournalLemmas.SetAccountKeepsFrame | modules/evm/src/executor/stack.rs:330-355 | A write of one account changes only that account of the top layer: its other accounts, deletions, logs, gas meter, static flag and depth stay. |
| JournalLemmas.SetAccountView | modules/evm/src/executor/stack.rs:330-355 | A write to the top layer reads back for that address and changes no other address's account or any deletion. |
| JournalLemmas.WithdrawEffect | modules/evm/src/executor/stack.rs:369-377 | Withdraw fails, with OutOfFund, exactly when the visible balance is below the amount, and then nothing visible changes. Otherwise the account loses exactly the amount and no other account changes. |
| JournalLemmas.WithdrawKeepsFrame | modules/evm/src/executor/stack.rs:369-377 | Whether it fails or not, a withdrawal changes only the accounts of the top layer: its deletions, logs, gas meter, static flag and depth stay. |
| Journal.Withdraw | modules/evm/src/executor/stack.rs:369-377 | Only the top layer changes, whether the withdrawal fails or not, and a well-nested stack stays well nested. |
| Executor.StackExecutor.Withdraw | modules/evm/src/executor/stack.rs:369-377 | The new stack and the result are `Journal.Withdraw` of the old stack. |
| JournalLemmas.DepositEffect | modules/evm/src/executor/stack.rs:380-383 | The account gains exactly the amount and no other account changes. |
| JournalLemmas.DepositKeepsFrame | modules/evm/src/executor/stack.rs:380-383 | A deposit changes only the accounts of the top layer: its deletions, logs, gas meter, static flag and depth stay. |
| Journal.Deposit | modules/evm/src/executor/stack.rs:380-383 | Only the top layer changes, and a well-nested stack stays well nested. |
| Executor.StackExecutor.Deposit | modules/evm/src/executor/stack.rs:380-383 | The new stack is `Journal.Deposit` of the old one. |
| JournalLemmas.TransferEffect | modules/evm/src/executor/stack.rs:386-391 | A transfer fails exactly when the source cannot pay; then no deposit is made and nothing visible changes. Otherwise, between distinct accounts, the source loses and the target gains exactly the value. The source and the target keep everything but their balances. A transfer to oneself changes nothing visible. No other account, no nonce and no deletion changes. |
| Journal.ApplyTransfer | modules/evm/src/executor/stack.rs:386-391 | Only the top layer changes, whether the transfer fails or not, and a well-nested stack stays well nested. |
| JournalLemmas.TransferOutcome | modules/evm/src/executor/stack.rs:386-391 | The result is OutOfFund exactly when the source's visible balance is below the value, and Ok otherwise. |
| JournalLemmas.TransferConservesBalance | modules/evm/src/executor/stack.rs:386-391 | The sum of the source's and the target's balances is the same after a transfer. |
| JournalLemmas.TransferKeepsFrame | modules/evm/src/executor/stack.rs:386-391 | Whether it fails or not, a transfer changes only the accounts of the top layer: its deletions, logs, gas meter, static flag and depth stay. |
| JournalLemmas.TransferKeepsMeter | modules/evm/src/executor/stack.rs:386-391 | A transfer does not touch the top frame's gas meter. |
| JournalLemmas.RevertedTransferForgotten | modules/evm/src/executor/stack.rs:386-391 | A transfer made in a frame that then reverts leaves every account as it was before the frame was entered. |
| Executor.StackExecutor.TransferValue | modules/evm/src/executor/stack.rs:386-391 | The new stack and the result are `ApplyTransfer` of the old stack. |
| JournalLemmas.SetStorageEffect | modules/evm/src/executor/stack.rs:856-860 | The written slot reads back the value. No other slot, no original value, no balance or nonce, no code and no deletion changes. |
| JournalLemmas.SetStorageKeepsFrame | modules/evm/src/executor/stack.rs:856-860 | A storage write changes only the accounts of the top layer: its deletions, logs, gas meter, static flag and depth stay. |
| Journal.SetStorage | modules/evm/src/executor/stack.rs:856-860 | Only the top layer changes, and a well-nested stack stays well nested. |
| Executor.StackExecutor.SetStorageSlot | modules/evm/src/executor/stack.rs:856-860 | The new stack is `SetStorage` of the old one, and the result is Ok. |
| Journal.AppendLog | modules/evm/src/executor/stack.rs:862-870 | The new log is added at the end of the top layer's logs. Nothing else in the top layer changes, nor any layer below, and a well-nested stack stays well nested. |
| Executor.StackExecutor.EmitLog | modules/evm/src/executor/stack.rs:862-870 | The new stack is `AppendLog` of the old one with the log of this address, topics and data, and the result is Ok. |
| JournalLemmas.MarkDeleteView | modules/evm/src/executor/stack.rs:872-887 | Marking for deletion never fails. Afterwards the account reads as before but with zero balance, the target (if different) reads as before with the account's former balance added, every other account reads as before, and only the account is newly deleted. |
| JournalLemmas.ZeroAndDeleteView | modules/evm/src/executor/stack.rs:879-885 | Zeroing the balance and marking the account deleted leaves it otherwise as it was, changes no other account, and adds only that account to the deletions. |
| JournalLemmas.MarkDeleteEffect | modules/evm/src/executor/stack.rs:872-887 | Marking for deletion never fails. The account is left with zero balance and is marked deleted; its nonce, code and storage stay. A different target gains its former balance; with itself as target, that balance is burnt. No other account, no nonce and no other deletion changes. |
| JournalLemmas.MarkDeleteKeepsFrame | modules/evm/src/executor/stack.rs:872-887 | Marking for deletion changes only the accounts of the top layer and adds the account to its deletions: its logs, gas meter, static flag and depth stay. |
| Journal.MarkDelete | modules/evm/src/executor/stack.rs:872-887 | Only the top layer changes, and a well-nested stack stays well nested. |
| Executor.StackExecutor.MarkDeleted | modules/evm/src/executor/stack.rs:872-887 | The new stack and the result are `MarkDelete` of the old stack. |
| Executor.StackExecutor.ZeroAndMarkDeleted | modules/evm/src/executor/stack.rs:879-885 | The new stack is `ZeroAndDelete` of the old one: the account's top copy has zero balance and the account joins the top layer's deletions. |
| GasRules.AsUsize | modules/evm/src/executor/stack.rs:266-267 | The `as usize` cast of the signed refund keeps values in range and maps a negative value to at least 2^63. |
| GasRules.UsedGas | modules/evm/src/executor/stack.rs:260-268 | The gas charged lies between `total - total/2` and `total`. A zero refund gives exactly `total`, and a refund up to half of the total is subtracted in full. A larger refund, or a negative one (which wraps), is capped at `total/2`. |
| Executor.StackExecutor.UsedGas | modules/evm/src/executor/stack.rs:260-268 | The same bounds and cases, stated for the meter of the current frame: a zero refund gives the total used, a refund up to half is subtracted, and a larger or a negative (wrapped) refund is capped at half. |
| GasRules.L64 | modules/evm/src/executor/stack.rs:435-437 | `gas - gas/64` is the ceiling of 63/64 of the gas: `63*gas <= 64*r < 63*gas + 64`, and never more than `gas`. |
| GasRules.CallGasLimit | modules/evm/src/executor/stack.rs:452-460 | The gas that may be handed on is all the available gas, or its `l64` when EIP-150 applies and the caller asks for it. The limit is that gas when no target is given. A target within that gas is granted exactly; a larger one gets that gas. So the limit never exceeds the available gas or the target, and with EIP-150 it stays below 63/64 of the available gas plus one. |
| GasRules.SaturatingAdd | modules/evm/src/executor/stack.rs:626-630 | The sum, unless it exceeds `usize::MAX`, in which case the result is `usize::MAX`. |
| GasRules.StipendedLimit | modules/evm/src/executor/stack.rs:626-630 | The limit changes only for a value-moving call that takes the stipend. It then grows by exactly the stipend, or becomes `usize::MAX` when that sum would overflow. The result is never below the limit, above the limit plus the stipend, or above `usize::MAX`. |
| Journal.Charge | modules/evm/src/executor/stack.rs:461-465 | Charging the top frame succeeds exactly when its meter has not failed and has room for the cost. Otherwise the result is OutOfGas and the meter is failed. Only the top meter changes. |
| Executor.StackExecutor.ChargeFrameGas | modules/evm/src/executor/stack.rs:452-465 | Returns `CallGasLimit` of the gas left and charges it to the current frame, as `Charge`. |
| Journal.ChildDepth | modules/evm/src/executor/stack.rs:106-109 | The depth a frame entered from the top frame gets. In a well-nested stack it is the number of frames below the new frame, minus one. |
| Executor.StackExecutor.KnowBackendCode | modules/evm/src/executor/stack.rs:478-480 | For an account whose top copy does not know its code, returns the backend's code and records it in that copy; nothing else changes. |
| Executor.StackExecutor.LoadCode | modules/evm/src/executor/stack.rs:473-481 | Returns the code the stack sees for the address. The top layer now holds the visible account with that code recorded as known. |
| Executor.StackExecutor.CheckCollision | modules/evm/src/executor/stack.rs:472-494 | Reports a collision exactly when the address already has code or a non-zero nonce, and then the frame has been left as failed. Otherwise the top layer holds the account with empty known code, no cached storage and storage reset. |
| Executor.StackExecutor.ResetStorage | modules/evm/src/executor/stack.rs:493-494 | The top layer holds the visible account with its storage reset and emptied. |
| Executor.StackExecutor.Run | modules/evm/src/executor/stack.rs:526 | The interpreter's gas is charged to the top frame, as `Charge`. |
| Frames.CreateReason | modules/evm/src/executor/stack.rs:529-581 | A creation succeeds exactly when its run succeeded, the returned code is within the size limit, the deposit can be paid from the new frame's meter and the creator's frame has not failed; it then keeps the run's reason. A successful run that fails one of these ends with CreateContractLimit or OutOfGas. Any other end passes through unchanged. |
| Frames.CreateEndStack | modules/evm/src/executor/stack.rs:529-581 | Pops the new frame and leaves the layers below the creator's frame unchanged. A well-nested stack stays well nested. |
| Frames.DepositPath | modules/evm/src/executor/stack.rs:544-559 | For a successful run within the size limit: a deposit that cannot be paid leaves the frame as failed with OutOfGas. Otherwise the frame is left as succeeded and the returned code is installed at the address, even when the exit's gas bookkeeping fails. The reason is then OutOfGas exactly when that bookkeeping fails. |
| Frames.CreatedCodeInstalled | modules/evm/src/executor/stack.rs:549-553 | A creation whose run succeeded within the size limit and paid its deposit has the returned code at its address. Every other account reads as the new frame last saw it, and no deletion changes. |
| Frames.FailedCreateForgotten | modules/evm/src/executor/stack.rs:529-581 | A creation that does not succeed, from a creator's frame that has not failed, leaves every account and deletion as it was before its frame was entered. |
| Executor.StackExecutor.FinishCreate | modules/evm/src/executor/stack.rs:528-581 | The reason is `CreateReason` of the new frame's and the creator's meters, and the new stack is `CreateEndStack` of the old one. An address is created exactly when that reason is success, and the address then has the returned code. Only a revert hands back output, the returned data. |
| Executor.StackExecutor.StoreCode | modules/evm/src/executor/stack.rs:530-560 | For a successful run: the reason is `CreateReason` and the new stack is `CreateEndStack`. An address is created exactly when the reason is success. |
| Executor.StackExecutor.DepositCode | modules/evm/src/executor/stack.rs:544-559 | For a successful run within the size limit: the reason is `CreateReason`, the new stack is `CreateEndStack`, and an address is created exactly when the reason is success. |
| Executor.StackExecutor.InstallCode | modules/evm/src/executor/stack.rs:550-552 | The frame is left as succeeded, and the result is that exit's. The code is then installed at the address in the creator's frame, whether the exit's bookkeeping failed or not. |
| Executor.StackExecutor.CreateInner | modules/evm/src/executor/stack.rs:417-582 | The checks come in order: depth (CallTooDeep), the caller's balance (OutOfFund), then the charge for the frame's gas (OutOfGas). The first two leave the stack as it was; the third leaves it charged. Next, a target that is the caller or already has code or a non-zero nonce gives CreateCollision, with only the caller's nonce bumped. Otherwise the reason is `CreateReason` of a run in a fresh frame, and the stack is `CreateEndStack` of the entered, funded and charged stack. The create succeeds exactly when the run succeeded within the size limit and could pay its deposit. A created address is the one `create_address` derives from the stack before the call, and it then has the returned code. Only a revert hands back output. |
| Executor.StackExecutor.CreateWithGas | modules/evm/src/executor/stack.rs:452-581 | After the depth and balance checks: a charge that fails gives OutOfGas with the stack charged, and a collision gives CreateCollision with only the caller's nonce bumped. Otherwise the reason is `CreateReason` and the stack `CreateEndStack`, as in `CreateInner`. |
| Executor.StackExecutor.CreateFrame | modules/evm/src/executor/stack.rs:466-581 | With the frame's gas already charged: a collision gives CreateCollision, with only the caller's nonce bumped. Otherwise, a caller short of the value gives OutOfFund, with the entered frame left as reverted. Otherwise the reason is `CreateReason` and the stack is `CreateEndStack` of the funded and charged frame. A created address has the returned code, and only a revert hands back output. |
| Frames.CallerBumped | modules/evm/src/executor/stack.rs:467-468 | Only the top layer changes and its meter is untouched. The creator's nonce is exactly one higher, and a well-nested stack stays well nested. |
| Frames.CreateEntered | modules/evm/src/executor/stack.rs:470-495 | One frame more, above the stack with the creator's nonce bumped, with a fresh meter for the gas limit. A well-nested stack stays well nested. |
| Frames.CreateEnteredView | modules/evm/src/executor/stack.rs:468-495 | In the new frame the target reads as an account with no code, every storage slot zero, and its old nonce and balance. The creator's nonce is one higher and its balance unchanged. Every other account reads as before. |
| Executor.StackExecutor.EnterCreate | modules/evm/src/executor/stack.rs:467-495 | A collision is reported exactly when the target is the caller or has code or a non-zero nonce. Then the stack has only the caller's nonce bumped; otherwise it is `CreateEntered`. |
| Frames.CreateFunded | modules/evm/src/executor/stack.rs:502-517 | Only the top layer changes and its meter is untouched. A well-nested stack stays well nested. |
| Frames.CreateFundedOutcome | modules/evm/src/executor/stack.rs:507-513 | Funding a creation fails with OutOfFund exactly when the creator's balance is below the value. |
| Executor.StackExecutor.PayCreate | modules/evm/src/executor/stack.rs:502-517 | The new stack and the result are `CreateFunded` of the old stack. |
| Executor.StackExecutor.FundCreate | modules/evm/src/executor/stack.rs:502-581 | If funding fails: OutOfFund, with the frame left as reverted. Otherwise the reason is `CreateReason` of the charged meter, and the stack is `CreateEndStack` of the funded and charged stack. A created address has the returned code, and only a revert hands back output. |
| Executor.StackExecutor.RunCreate | modules/evm/src/executor/stack.rs:519-581 | The run's gas is charged and the frame ended. The reason is `CreateReason` of the charged meter, and the stack is `CreateEndStack` of the charged stack. An address is created exactly when the reason is success, and only a revert hands back output. |
| Executor.StackExecutor.CallInner | modules/evm/src/executor/stack.rs:584-726 | If the frame's gas cannot be charged: OutOfGas, with the stack charged. Next, a child deeper than the limit gives CallTooDeep, and a payer short of the value gives OutOfFund; in both the call graph is unchanged. Past these checks, a precompile's answer is returned and no call is recorded. Otherwise the run's exit reason and output are returned, and the call graph gains exactly one entry with the gas used: the gas spent, at most the stipended gas limit. Once the charge succeeded, the new stack is `CallStack` of the charged stack with the stipended gas limit. |
| Executor.StackExecutor.ChargeCallGas | modules/evm/src/executor/stack.rs:608-630 | Charges `CallGasLimit` of the gas left to the current frame, as `Charge`, and returns the stipended limit. |
| Frames.CallEntered | modules/evm/src/executor/stack.rs:634-635 | One frame more, with a fresh meter for the gas limit, and the caller's layers unchanged. A well-nested stack stays well nested. |
| Frames.CallEnteredView | modules/evm/src/executor/stack.rs:634-635 | The callee's new frame sees every account and deletion as the caller did. |
| Executor.StackExecutor.EnterCallFrame | modules/evm/src/executor/stack.rs:634-635 | The new stack is `CallEntered` of the old one. |
| Frames.CallPaid | modules/evm/src/executor/stack.rs:647-655 | Only the top layer changes, and its meter is untouched. A well-nested stack stays well nested. |
| Frames.CallPaidOutcome | modules/evm/src/executor/stack.rs:647-655 | Paying fails with OutOfFund exactly when there is a value to pay and the payer's balance is below it; otherwise it is Ok. |
| Frames.CallPaidView | modules/evm/src/executor/stack.rs:632-655 | Entering and paying fails exactly when the payer is short, and then no account reads differently. Otherwise the payer loses and the payee gains exactly the value, and no other account reads differently. |
| Frames.CallStack | modules/evm/src/executor/stack.rs:632-724 | The stack is left exactly as high as before the call, and every frame below the caller's is unchanged: the callee's frame is popped however the call ends. |
| Frames.CallAfterPayment | modules/evm/src/executor/stack.rs:647-724 | The callee's frame is popped whether or not the payment succeeded, and every frame below the caller's is unchanged. |
| Frames.CallEnd | modules/evm/src/executor/stack.rs:657-724 | The callee's frame is popped, whether a precompile or the run ended it, and every frame below the caller's is unchanged. |
| Frames.UnsuccessfulCallForgotten | modules/evm/src/executor/stack.rs:637-724 | A call that is too deep, cannot pay its value, or whose callee does not succeed leaves every account and every deletion as before the call, the transfer included. |
| Frames.ChargeKeepsCallChecks | modules/evm/src/executor/stack.rs:619-645 | Charging the caller's frame for the callee's gas changes neither the child's depth, nor the payer's balance, nor whether the call goes past the depth and balance checks. |
| Frames.CallStackWhenRuns | modules/evm/src/executor/stack.rs:647-724 | When the call passes the depth and balance checks, the payment into the callee's frame succeeds and the stack the call leaves is `CallEnd` of the paid stack. |
| Frames.CallStackWhenRefused | modules/evm/src/executor/stack.rs:637-655 | A call refused for depth leaves the entered stack with the callee's frame reverted; a call refused for funds leaves the stack after the failed payment with that frame reverted. |
| Frames.RefusedCallForgotten | modules/evm/src/executor/stack.rs:637-655 | A call refused for depth or funds leaves every account and every deletion as before the call. |
| Frames.FailedCalleeForgotten | modules/evm/src/executor/stack.rs:657-724 | A call that runs but whose callee does not succeed leaves every account and every deletion as before the call, the paid value included. |
| Frames.FailedEndForgotten | modules/evm/src/executor/stack.rs:657-724 | When the callee does not succeed, the callee's frame is dropped at the end of the call: every account and deletion is as in the frames below it. |
| Frames.SuccessfulCallKept | modules/evm/src/executor/stack.rs:657-724 | A call whose callee succeeds leaves every account and deletion as the callee's frame had them once the value was paid. |
| Frames.LeaveFrame | modules/evm/src/executor/stack.rs:704-724 | Pops exactly the top frame and leaves the layers below its parent unchanged. A well-nested stack stays well nested. |
| Frames.LeaveFrameView | modules/evm/src/executor/stack.rs:704-724 | Leaving by success keeps every lookup and deletion as the child saw them. Leaving by error, revert or fatal end makes them read as before the frame was entered. |
| Executor.StackExecutor.EnterCall | modules/evm/src/executor/stack.rs:632-655 | Entering fails with CallTooDeep exactly when the child is deeper than the limit. It fails with OutOfFund exactly when the child is within the limit and the payer is short of the value. CallTooDeep leaves the entered frame popped as reverted, and OutOfFund does the same after the failed payment. On success the stack is the entered frame with the value paid, one frame more, with a fresh meter for the gas limit. |
| Executor.StackExecutor.CallCharged | modules/evm/src/executor/stack.rs:637-724 | Once the caller's frame has been charged, the depth and balance checks read the stack from before the charge: CallTooDeep and OutOfFund as there, a precompile's answer, or the run's reason and output with exactly one call recorded; the new stack is `CallStack` of the charged stack. |
| Executor.StackExecutor.OpenCall | modules/evm/src/executor/stack.rs:632-724 | The same outcomes as `CallInner` once the frame's gas is charged, for a given frame gas limit. The new stack is `CallStack` of the old one. |
| Executor.StackExecutor.FinishCall | modules/evm/src/executor/stack.rs:657-724 | A precompile's success charges its cost and exits as succeeded, and its error exits as failed; neither records a call. Otherwise the run's gas is charged and one call is recorded with `min(spent, gas limit)` used. The frame exits by the run's reason (a fatal end also fails the meter), and output is handed back only on success or revert. The new stack is `CallEnd` of the paid stack. |
| Executor.StackExecutor.RunCall | modules/evm/src/executor/stack.rs:674-724 | The run's gas is charged and one call is recorded, with `min(spent, gas limit)` used. The frame is left as `LeaveFrame` says for the run's reason. That reason is returned, with output only on success or revert. |
| Executor.StackExecutor.Precompiled | modules/evm/src/executor/stack.rs:657-672 | Success charges the precompile's cost and exits as succeeded with its output. Error exits as failed with no output. The call graph is unchanged. |
| Executor.StackExecutor.ExitCall | modules/evm/src/executor/stack.rs:704-724 | The frame is left as succeeded, failed, reverted, or failed with its meter failed (fatal), by the run's reason. That reason is returned, with the returned data only on success or revert. |
| Executor.ModifyApplies | modules/evm/src/executor/stack.rs:294-306 | One Modify per account of the final frame that is not deleted, each carrying that account's fields, in strictly ascending address order, and nothing else. |
| Executor.DeleteApplies | modules/evm/src/executor/stack.rs:308-310 | One Delete per deleted address, in strictly ascending order, and nothing else. |
| Executor.StackExecutor.Deconstruct | modules/evm/src/executor/stack.rs:282-316 | Requires exactly one frame. All Modifies come first, each for a touched account that is not deleted and carrying its fields; then the Deletes, one per deleted address. Each part is in strictly ascending address order and covers its set exactly, and no address gets both. The logs and the call graph are handed back. |

## Left out

- The interpreter (`execute`, `Runtime`) is not part of this model. A run is an input `Execution`: its exit reason, the data it returned and the gas it spent. The spent gas is charged to the frame in one step. Whatever the interpreter itself does to the stack during the run (nested calls, storage writes) is not modelled.
- Precompiles are an input `Option<PrecompileOutcome>`: the answer of the precompile at the code address, if there is one.
- Keccak-256 and RLP in `create_address` are the two functions of a `Hasher` input. Only the case split on the scheme, and the nonce the CREATE address depends on, are modelled.
- The gasometer is foreign code and is kept abstract (`Gasometer`). In particular, its `record_stipend` giving back more than was used is modelled as clamping at zero; this is not taken from its source. `record_opcode` and the opcode costs are not modelled.
- The `Backend` is a fixed input: basic info, code and storage per address. `exists`, `code_size`, `code_hash`, `gas_left` and the block-information getters of the handler only read the backend or the stack, and are not modelled.
- `transact_create`, `transact_create2`, `transact_call`, `fee`, `gas`, `create`, `call` and `pre_validate` are transaction- and handler-level wrappers around the modelled operations, and are not modelled.
- `call_inner` reads the code of the code address to hand it to the interpreter. The interpreter is an input, so that read is left out.
- Balances and nonces are unbounded: a U256 overflow on `+=` is not modelled.
- Executor.StackExecutor.CallInner: requires the gas left in the current frame to fit in a usize, as every gas amount of the executor does; the saturating stipend is stated under that bound.
- `log::debug` calls have no effect and are left out.
