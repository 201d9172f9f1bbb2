/**
 * What the journal promises its readers: copying an account up is invisible,
 * balance moves are exact and conserve value, storage writes are read back,
 * a successful frame exit keeps everything the child did, a reverted or
 * failed exit forgets it, and static mode is sticky.
 */
module JournalLemmas {
  import opened EvmTypes
  import opened Gasometer
  import opened Journal

  /** `acc` with its balance replaced. */
  function WithBalance(acc: Account, balance: nat): Account {
    acc.(basic := acc.basic.(balance := balance))
  }

  // ---------------------------------------------------------------------
  // Layer management
  // ---------------------------------------------------------------------

  /** Every frame above a static frame is static. */
  lemma {:induction false} StaticIsSticky(layers: seq<Substate>, i: nat, j: nat)
    requires WellNested(layers) && i <= j < |layers| && layers[i].isStatic
    ensures layers[j].isStatic
    decreases |layers|
  {
    var n := |layers|;
    if n > 1 {
      var below := layers[..n - 1];
      if j < n - 1 {
        StaticIsSticky(below, i, j);
      } else if i < j {
        StaticIsSticky(below, i, j - 1);
      }
    }
  }

  /** The root frame has no depth and frame `i` above it has depth `i - 1`,
      so the depth of the top frame is the number of calls in progress. */
  lemma {:induction false} DepthCounts(layers: seq<Substate>, i: nat)
    requires WellNested(layers) && i < |layers|
    ensures layers[i].depth == if i == 0 then None else Some(i - 1)
    decreases |layers|
  {
    var n := |layers|;
    if i < n - 1 {
      DepthCounts(layers[..n - 1], i);
    }
  }

  /** The top frame is too deep exactly when the calls in progress, the
      frames above the root, number more than one over the call stack
      limit; the transaction's own frame is never too deep. */
  lemma TooDeepCountsFrames(layers: seq<Substate>, config: Config)
    requires WellNested(layers) && |layers| >= 1
    ensures TooDeep(layers, config) <==> |layers| - 2 > config.callStackLimit
  {
    DepthCounts(layers, |layers| - 1);
  }

  // ---------------------------------------------------------------------
  // Lookups
  // ---------------------------------------------------------------------

  /** Every lookup of `a` reads the copy held by the topmost layer that
      holds one. */
  lemma LookupReadsTopmostCopy(layers: seq<Substate>, backend: Backend, a: Address, index: Word, i: int)
    requires HoldsTopmost(layers, a, i)
    ensures var acc := layers[i].state[a];
            && Visible(layers, backend, a) == acc
            && NonceOf(layers, backend, a) == acc.basic.nonce
            && BalanceOf(layers, backend, a) == acc.basic.balance
            && CodeOf(layers, backend, a) == acc.code.GetOr(backend.code(a))
            && StorageOf(layers, backend, a, index) ==
                 (if index in acc.storage then acc.storage[index] else if acc.resetStorage then 0
                  else backend.storage(a, index))
            && OriginalStorageOf(layers, backend, a, index) == (if acc.resetStorage then 0 else backend.storage(a, index))
  {
    FindAccountTopmost(layers, a);
    var j :| HoldsTopmost(layers, a, j) && FindAccount(layers, a).value == layers[j].state[a];
    assert j == i;
  }

  /** When no layer holds `a`, every lookup of `a` reads the backend. */
  lemma LookupFallsBackToBackend(layers: seq<Substate>, backend: Backend, a: Address, index: Word)
    requires forall i :: 0 <= i < |layers| ==> a !in layers[i].state
    ensures NonceOf(layers, backend, a) == backend.basic(a).nonce
    ensures BalanceOf(layers, backend, a) == backend.basic(a).balance
    ensures CodeOf(layers, backend, a) == backend.code(a)
    ensures StorageOf(layers, backend, a, index) == backend.storage(a, index)
    ensures OriginalStorageOf(layers, backend, a, index) == backend.storage(a, index)
  {
    FindAccountTopmost(layers, a);
  }

  /** The address a creation targets depends on nothing but its scheme and,
      for a CREATE, on the current nonce of its caller. */
  lemma CreateAddressInputs(l1: seq<Substate>, b1: Backend, l2: seq<Substate>, b2: Backend, hasher: Hasher,
                            scheme: CreateScheme)
    requires scheme.Legacy? ==> NonceOf(l1, b1, scheme.caller) == NonceOf(l2, b2, scheme.caller)
    ensures CreateAddress(l1, b1, hasher, scheme) == CreateAddress(l2, b2, hasher, scheme)
  {
  }

  /** Reading through a replaced top substate: the new top answers if it can,
      the layers below it otherwise. */
  lemma ReadThroughTop(layers: seq<Substate>, t: Substate, b: Address)
    requires |layers| >= 1
    ensures FindAccount(WithTop(layers, t), b) ==
            if b in t.state then Some(t.state[b]) else FindAccount(layers[..|layers| - 1], b)
    ensures IsDeleted(WithTop(layers, t), b) == (b in t.deleted || IsDeleted(layers[..|layers| - 1], b))
  {
    var r := WithTop(layers, t);
    assert r[..|r| - 1] == layers[..|layers| - 1];
  }

  /** Replacing the top substate by one with the same accounts and
      deletions (a gas change) changes nothing any lookup sees. */
  lemma SameTopKeepsView(layers: seq<Substate>, t: Substate, b: Address)
    requires |layers| >= 1 && t.state == Top(layers).state && t.deleted == Top(layers).deleted
    ensures FindAccount(WithTop(layers, t), b) == FindAccount(layers, b)
    ensures IsDeleted(WithTop(layers, t), b) == IsDeleted(layers, b)
  {
    ReadThroughTop(layers, t, b);
    ReadThroughTop(layers, Top(layers), b);
    assert WithTop(layers, Top(layers)) == layers;
  }

  /** A new frame sees exactly what its parent sees. */
  lemma EnterKeepsView(layers: seq<Substate>, gasLimit: nat, isStatic: bool, b: Address)
    requires |layers| >= 1
    ensures FindAccount(Enter(layers, gasLimit, isStatic), b) == FindAccount(layers, b)
    ensures IsDeleted(Enter(layers, gasLimit, isStatic), b) == IsDeleted(layers, b)
  {
    var r := Enter(layers, gasLimit, isStatic);
    assert r[..|r| - 1] == layers;
  }

  /** Leaving a frame that succeeded merges it into its parent: the child's
      accounts override the parent's and the deleted sets are united, so no
      lookup sees any change. */
  lemma ExitSucceededKeepsView(layers: seq<Substate>, b: Address)
    requires |layers| > 1
    ensures FindAccount(Exit(layers, Succeeded).0, b) == FindAccount(layers, b)
    ensures IsDeleted(Exit(layers, Succeeded).0, b) == IsDeleted(layers, b)
    ensures Top(Exit(layers, Succeeded).0).state == layers[|layers| - 2].state + Top(layers).state
    ensures Top(Exit(layers, Succeeded).0).deleted == layers[|layers| - 2].deleted + Top(layers).deleted
  {
    var n := |layers|;
    var after := Exit(layers, Succeeded).0;
    var below := layers[..n - 2];
    var parent, child := layers[n - 2], layers[n - 1];
    assert after == below + [Top(after)];
    assert Top(after).state == parent.state + child.state;
    assert Top(after).deleted == parent.deleted + child.deleted;
    assert after[..n - 2] == below;
    assert layers[..n - 1] == below + [parent];
    assert (below + [parent])[..n - 2] == below;
  }

  /** Leaving a frame that reverted or failed forgets its accounts and
      deletions: lookups see what they saw before the frame was entered, and
      the parent's own accounts and deletions are as they were. */
  lemma ExitDiscardDropsChild(layers: seq<Substate>, kind: StackExitKind, b: Address)
    requires |layers| > 1 && kind != Succeeded
    ensures FindAccount(Exit(layers, kind).0, b) == FindAccount(layers[..|layers| - 1], b)
    ensures IsDeleted(Exit(layers, kind).0, b) == IsDeleted(layers[..|layers| - 1], b)
    ensures Top(Exit(layers, kind).0).state == layers[|layers| - 2].state
    ensures Top(Exit(layers, kind).0).deleted == layers[|layers| - 2].deleted
  {
    var n := |layers|;
    var after := Exit(layers, kind).0;
    var parentStack := layers[..n - 1];
    assert after == WithTop(parentStack, Top(after));
    ReadThroughTop(parentStack, Top(after), b);
    assert parentStack[..n - 2] + [layers[n - 2]] == parentStack;
  }

  /** Entering a frame and leaving it at once as failed restores the stack
      exactly. */
  lemma EnterThenFailRestores(layers: seq<Substate>, gasLimit: nat, isStatic: bool)
    requires |layers| >= 1
    ensures Exit(Enter(layers, gasLimit, isStatic), Failed) == (layers, Ok(()))
  {
    var n := |layers|;
    var entered := Enter(layers, gasLimit, isStatic);
    var parent := layers[n - 1];
    assert entered[n].logs == [];
    assert entered[n - 1] == parent;
    assert parent.(logs := parent.logs + entered[n].logs) == parent;
    assert entered[..n - 1] == layers[..n - 1];
    assert layers[..n - 1] + [parent] == layers;
  }

  /** The gas bookkeeping of leaving a frame: failure returns nothing, revert
      returns the child's unspent gas, success also adds its refund. */
  lemma ExitGasAccounting(layers: seq<Substate>, kind: StackExitKind)
    requires |layers| > 1
    ensures var (after, res) := Exit(layers, kind);
            var parent, child := layers[|layers| - 2], Top(layers);
            && (kind == Failed ==> res.Ok? && Top(after).meter == parent.meter)
            && (kind != Failed ==> (res.Ok? <==> !parent.meter.failed))
            && (res.Err? ==> res.error == OutOfGas)
            && (kind == Reverted ==> Refunded(Top(after).meter) == Refunded(parent.meter))
            && (kind == Succeeded && !parent.meter.failed ==>
                  Refunded(Top(after).meter) == Refunded(parent.meter) + Refunded(child.meter))
            && (kind != Failed && !parent.meter.failed &&
                Gas(child.meter) <= parent.meter.used <= parent.meter.limit ==>
                  Gas(Top(after).meter) == Gas(parent.meter) + Gas(child.meter))
  {
  }

  // ---------------------------------------------------------------------
  // Copy-on-write
  // ---------------------------------------------------------------------

  /** Setting an account in the top substate: that account reads back, every
      other one reads as before. */
  lemma SetAccountView(layers: seq<Substate>, backend: Backend, a: Address, acc: Account, b: Address)
    requires |layers| >= 1
    ensures Visible(SetAccount(layers, a, acc), backend, b) ==
            if b == a then acc else Visible(layers, backend, b)
    ensures IsDeleted(SetAccount(layers, a, acc), b) == IsDeleted(layers, b)
  {
    var top := Top(layers);
    ReadThroughTop(layers, top.(state := top.state[a := acc]), b);
    ReadThroughTop(layers, top, b);
    assert WithTop(layers, top) == layers;
  }

  /** Only the last of two writes of the same account in the top substate
      counts. */
  lemma SetAccountTwice(layers: seq<Substate>, a: Address, v: Account, w: Account)
    requires |layers| >= 1
    ensures SetAccount(SetAccount(layers, a, v), a, w) == SetAccount(layers, a, w)
  {
    var n := |layers|;
    var top := Top(layers);
    var once := SetAccount(layers, a, v);
    assert Top(once).(state := Top(once).state[a := w]) == top.(state := top.state[a := w]);
  }

  /** Copying an account up is writing the visible account to the top. */
  lemma TouchIsSet(layers: seq<Substate>, backend: Backend, a: Address)
    requires |layers| >= 1
    ensures Touch(layers, backend, a) == SetAccount(layers, a, Visible(layers, backend, a))
  {
    var top := Top(layers);
    if a in top.state {
      assert HoldsTopmost(layers, a, |layers| - 1);
      assert top.(state := top.state[a := top.state[a]]) == top;
      assert WithTop(layers, top) == layers;
    }
  }

  /** Copying an account up before writing it changes nothing. */
  lemma TouchThenSet(layers: seq<Substate>, backend: Backend, a: Address, w: Account)
    requires |layers| >= 1
    ensures SetAccount(Touch(layers, backend, a), a, w) == SetAccount(layers, a, w)
  {
    var top := Top(layers);
    if a in top.state {
      assert top.(state := top.state[a := top.state[a]]) == top;
      assert WithTop(layers, top) == layers;
    } else {
      SetAccountTwice(layers, a, Visible(layers, backend, a), w);
    }
  }

  /** After writing `acc` for `a` and entering a new frame, `b` reads as
      `acc` if it is `a` and as before otherwise. */
  lemma SetThenEnterView(layers: seq<Substate>, backend: Backend, a: Address, acc: Account, gasLimit: nat,
                         isStatic: bool, b: Address)
    requires |layers| >= 1
    ensures Visible(Enter(SetAccount(layers, a, acc), gasLimit, isStatic), backend, b) ==
            if b == a then acc else Visible(layers, backend, b)
  {
    SetAccountView(layers, backend, a, acc, b);
    EnterKeepsView(SetAccount(layers, a, acc), gasLimit, isStatic, b);
  }

  /** `account_mut` changes nothing any lookup sees. */
  lemma TouchKeepsView(layers: seq<Substate>, backend: Backend, a: Address, b: Address)
    requires |layers| >= 1
    ensures Visible(Touch(layers, backend, a), backend, b) == Visible(layers, backend, b)
    ensures IsDeleted(Touch(layers, backend, a), b) == IsDeleted(layers, b)
  {
    if a !in Top(layers).state {
      SetAccountView(layers, backend, a, Visible(layers, backend, a), b);
    }
  }

  /** Marking `a` deleted in the top substate. */
  lemma AddDeletedView(layers: seq<Substate>, backend: Backend, a: Address, b: Address)
    requires |layers| >= 1
    ensures Visible(AddDeleted(layers, a), backend, b) == Visible(layers, backend, b)
    ensures IsDeleted(AddDeleted(layers, a), b) == (b == a || IsDeleted(layers, b))
  {
    var top := Top(layers);
    ReadThroughTop(layers, top.(deleted := top.deleted + {a}), b);
    ReadThroughTop(layers, top, b);
    assert WithTop(layers, top) == layers;
  }

  // ---------------------------------------------------------------------
  // Balances
  // ---------------------------------------------------------------------

  /** `withdraw` fails exactly when the balance is short, and then changes
      nothing visible; otherwise it takes exactly `value` from `a` and
      touches no other account. */
  lemma WithdrawEffect(layers: seq<Substate>, backend: Backend, a: Address, value: nat, b: Address)
    requires |layers| >= 1
    ensures var (after, res) := Withdraw(layers, backend, a, value);
            && (res.Err? <==> BalanceOf(layers, backend, a) < value)
            && (res.Err? ==> res.error == OutOfFund && Visible(after, backend, b) == Visible(layers, backend, b))
            && (res.Ok? ==>
                  Visible(after, backend, b) ==
                    (if b == a then WithBalance(Visible(layers, backend, a), BalanceOf(layers, backend, a) - value)
                     else Visible(layers, backend, b)))
            && IsDeleted(after, b) == IsDeleted(layers, b)
  {
    var visible := Visible(layers, backend, a);
    TouchIsSet(layers, backend, a);
    if visible.basic.balance >= value {
      var debited := WithBalance(visible, visible.basic.balance - value);
      SetAccountTwice(layers, a, visible, debited);
      assert Withdraw(layers, backend, a, value) == (SetAccount(layers, a, debited), Ok(()));
      SetAccountView(layers, backend, a, debited, b);
    } else {
      assert Withdraw(layers, backend, a, value) == (SetAccount(layers, a, visible), Err(OutOfFund));
      SetAccountView(layers, backend, a, visible, b);
    }
  }

  /** `deposit` adds exactly `value` to `a` and touches no other account. */
  lemma DepositEffect(layers: seq<Substate>, backend: Backend, a: Address, value: nat, b: Address)
    requires |layers| >= 1
    ensures var after := Deposit(layers, backend, a, value);
            && Visible(after, backend, b) ==
                 (if b == a then WithBalance(Visible(layers, backend, a), BalanceOf(layers, backend, a) + value)
                  else Visible(layers, backend, b))
            && IsDeleted(after, b) == IsDeleted(layers, b)
  {
    var touched := Touch(layers, backend, a);
    TouchKeepsView(layers, backend, a, b);
    TouchKeepsView(layers, backend, a, a);
    var acc := Top(touched).state[a];
    SetAccountView(touched, backend, a, WithBalance(acc, acc.basic.balance + value), b);
  }

  /** `transfer` fails exactly when the source cannot pay, and then no
      deposit is made and nothing visible changes. Otherwise the source loses
      and the target gains exactly the value; a transfer to oneself changes
      nothing; no other account, no nonce and no deletion changes. */
  lemma TransferEffect(layers: seq<Substate>, backend: Backend, t: Transfer, b: Address)
    requires |layers| >= 1
    ensures var (after, res) := ApplyTransfer(layers, backend, t);
            && (res.Err? <==> BalanceOf(layers, backend, t.source) < t.value)
            && (res.Err? ==> res.error == OutOfFund && Visible(after, backend, b) == Visible(layers, backend, b))
            && (res.Ok? && t.source != t.target ==>
                  && BalanceOf(after, backend, t.source) == BalanceOf(layers, backend, t.source) - t.value
                  && BalanceOf(after, backend, t.target) == BalanceOf(layers, backend, t.target) + t.value
                  && Visible(after, backend, t.source) ==
                       WithBalance(Visible(layers, backend, t.source), BalanceOf(layers, backend, t.source) - t.value)
                  && Visible(after, backend, t.target) ==
                       WithBalance(Visible(layers, backend, t.target), BalanceOf(layers, backend, t.target) + t.value))
            && (t.source == t.target ==> Visible(after, backend, b) == Visible(layers, backend, b))
            && (b != t.source && b != t.target ==> Visible(after, backend, b) == Visible(layers, backend, b))
            && NonceOf(after, backend, b) == NonceOf(layers, backend, b)
            && IsDeleted(after, b) == IsDeleted(layers, b)
  {
    var (withdrawn, res) := Withdraw(layers, backend, t.source, t.value);
    WithdrawEffect(layers, backend, t.source, t.value, b);
    WithdrawEffect(layers, backend, t.source, t.value, t.source);
    WithdrawEffect(layers, backend, t.source, t.value, t.target);
    if res.Ok? {
      DepositEffect(withdrawn, backend, t.target, t.value, b);
      DepositEffect(withdrawn, backend, t.target, t.value, t.source);
      DepositEffect(withdrawn, backend, t.target, t.value, t.target);
    }
  }

  /** A transfer leaves the gas meter of the top frame alone. */
  lemma TransferKeepsMeter(layers: seq<Substate>, backend: Backend, t: Transfer)
    requires |layers| >= 1
    ensures Top(ApplyTransfer(layers, backend, t).0).meter == Top(layers).meter
  {
    var touched := Touch(layers, backend, t.source);
    var (withdrawn, res) := Withdraw(layers, backend, t.source, t.value);
    assert Top(withdrawn).meter == Top(layers).meter;
    if res.Ok? {
      var again := Touch(withdrawn, backend, t.target);
      assert Top(again).meter == Top(layers).meter;
    }
  }

  /** A transfer conserves the combined balance of its two parties. */
  lemma TransferConservesBalance(layers: seq<Substate>, backend: Backend, t: Transfer)
    requires |layers| >= 1
    ensures var after := ApplyTransfer(layers, backend, t).0;
            BalanceOf(after, backend, t.source) + BalanceOf(after, backend, t.target) ==
            BalanceOf(layers, backend, t.source) + BalanceOf(layers, backend, t.target)
  {
    TransferEffect(layers, backend, t, t.source);
    TransferEffect(layers, backend, t, t.target);
  }

  /** Whether a transfer fails depends only on the payer's balance. */
  lemma TransferOutcome(layers: seq<Substate>, backend: Backend, t: Transfer)
    requires |layers| >= 1
    ensures ApplyTransfer(layers, backend, t).1 ==
              if BalanceOf(layers, backend, t.source) < t.value then Err(OutOfFund) else Ok(())
  {
    WithdrawEffect(layers, backend, t.source, t.value, t.source);
  }

  /** A transfer made in a frame that then reverts leaves every account as it
      was before the frame was entered. */
  lemma RevertedTransferForgotten(layers: seq<Substate>, backend: Backend, gasLimit: nat, t: Transfer, b: Address)
    requires |layers| >= 1
    ensures var inner := Enter(layers, gasLimit, false);
            var moved := ApplyTransfer(inner, backend, t).0;
            Visible(Exit(moved, Reverted).0, backend, b) == Visible(layers, backend, b)
  {
    var inner := Enter(layers, gasLimit, false);
    var moved := ApplyTransfer(inner, backend, t).0;
    ExitDiscardDropsChild(moved, Reverted, b);
    assert moved[..|moved| - 1] == inner[..|inner| - 1] == layers;
  }

  // ---------------------------------------------------------------------
  // Storage and self-destruction
  // ---------------------------------------------------------------------

  /** A storage write reads back; no other slot, no original value, no
      balance, nonce or code, and no deletion changes. */
  lemma SetStorageEffect(layers: seq<Substate>, backend: Backend, a: Address, index: Word, value: Word,
                         b: Address, j: Word)
    requires |layers| >= 1
    ensures var after := SetStorage(layers, backend, a, index, value);
            && StorageOf(after, backend, b, j) ==
                 (if b == a && j == index then value else StorageOf(layers, backend, b, j))
            && OriginalStorageOf(after, backend, b, j) == OriginalStorageOf(layers, backend, b, j)
            && Visible(after, backend, b).basic == Visible(layers, backend, b).basic
            && CodeOf(after, backend, b) == CodeOf(layers, backend, b)
            && IsDeleted(after, b) == IsDeleted(layers, b)
  {
    var touched := Touch(layers, backend, a);
    TouchKeepsView(layers, backend, a, b);
    TouchKeepsView(layers, backend, a, a);
    var acc := Top(touched).state[a];
    SetAccountView(touched, backend, a, acc.(storage := acc.storage[index := value]), b);
  }

  /** What `mark_delete` leaves visible at `b`: `a` keeps everything but its
      balance, which is zero, the target gained the former balance of `a`,
      and every other account is as before; only `a` is newly deleted. */
  lemma MarkDeleteView(layers: seq<Substate>, backend: Backend, a: Address, target: Address, b: Address)
    requires |layers| >= 1
    ensures MarkDelete(layers, backend, a, target).1.Ok?
    ensures var after := MarkDelete(layers, backend, a, target).0;
            && Visible(after, backend, b) ==
                 (if b == a then WithBalance(Visible(layers, backend, a), 0)
                  else if b == target then
                    WithBalance(Visible(layers, backend, target),
                                BalanceOf(layers, backend, target) + BalanceOf(layers, backend, a))
                  else Visible(layers, backend, b))
            && IsDeleted(after, b) == (b == a || IsDeleted(layers, b))
  {
    var t := Transfer(a, target, BalanceOf(layers, backend, a));
    var (moved, res) := ApplyTransfer(layers, backend, t);
    TransferEffect(layers, backend, t, b);
    TransferEffect(layers, backend, t, a);
    assert res.Ok?;
    assert MarkDelete(layers, backend, a, target) == (ZeroAndDelete(moved, backend, a), Ok(()));
    ZeroAndDeleteView(moved, backend, a, b);
    if b == a {
      assert WithBalance(Visible(moved, backend, a), 0) == WithBalance(Visible(layers, backend, a), 0);
    } else if b == target {
      assert Visible(moved, backend, b) ==
             WithBalance(Visible(layers, backend, target), BalanceOf(layers, backend, target) + BalanceOf(layers, backend, a));
    } else {
      assert Visible(moved, backend, b) == Visible(layers, backend, b);
    }
  }

  /** The end of `mark_delete` zeroes the balance of `a`, keeps the rest of
      `a` and every other account, and adds `a` to the deletions. */
  lemma ZeroAndDeleteView(layers: seq<Substate>, backend: Backend, a: Address, b: Address)
    requires |layers| >= 1
    ensures var after := ZeroAndDelete(layers, backend, a);
            && Visible(after, backend, b) ==
                 (if b == a then WithBalance(Visible(layers, backend, a), 0) else Visible(layers, backend, b))
            && IsDeleted(after, b) == (b == a || IsDeleted(layers, b))
  {
    var touched := Touch(layers, backend, a);
    TouchKeepsView(layers, backend, a, b);
    var acc := Top(touched).state[a];
    var zeroed := SetAccount(touched, a, WithBalance(acc, 0));
    SetAccountView(touched, backend, a, WithBalance(acc, 0), b);
    AddDeletedView(zeroed, backend, a, b);
  }

  /** `mark_delete` cannot fail; afterwards `a` has no balance and is marked
      deleted but keeps its nonce, code and storage, the target got the whole
      former balance of `a` (burnt when the target is `a` itself), and nothing
      else changes. */
  lemma MarkDeleteEffect(layers: seq<Substate>, backend: Backend, a: Address, target: Address, b: Address, j: Word)
    requires |layers| >= 1
    ensures var (after, res) := MarkDelete(layers, backend, a, target);
            && res.Ok?
            && BalanceOf(after, backend, a) == 0
            && Visible(after, backend, a) == WithBalance(Visible(layers, backend, a), 0)
            && CodeOf(after, backend, a) == CodeOf(layers, backend, a)
            && StorageOf(after, backend, a, j) == StorageOf(layers, backend, a, j)
            && IsDeleted(after, a)
            && (target != a ==>
                  BalanceOf(after, backend, target) == BalanceOf(layers, backend, target) + BalanceOf(layers, backend, a))
            && (b != a && b != target ==> Visible(after, backend, b) == Visible(layers, backend, b))
            && (b != a ==> IsDeleted(after, b) == IsDeleted(layers, b))
            && NonceOf(after, backend, b) == NonceOf(layers, backend, b)
  {
    MarkDeleteView(layers, backend, a, target, a);
    MarkDeleteView(layers, backend, a, target, b);
    MarkDeleteView(layers, backend, a, target, target);
  }

  // ---------------------------------------------------------------------
  // What the account updates keep
  // ---------------------------------------------------------------------

  /** Setting an account changes only that account of the top substate: its
      other accounts, deletions, logs, meter, static flag and depth stay. */
  lemma SetAccountKeepsFrame(layers: seq<Substate>, a: Address, acc: Account)
    requires |layers| >= 1
    ensures Top(SetAccount(layers, a, acc)) == Top(layers).(state := Top(layers).state[a := acc])
  {
    var top := Top(layers);
    assert SetAccount(layers, a, acc) == WithTop(layers, top.(state := top.state[a := acc]));
  }

  /** `withdraw` changes only the accounts of the top substate. */
  lemma WithdrawKeepsFrame(layers: seq<Substate>, backend: Backend, a: Address, value: nat)
    requires |layers| >= 1
    ensures var after := Withdraw(layers, backend, a, value).0;
            Top(after) == Top(layers).(state := Top(after).state)
  {
    var touched := Touch(layers, backend, a);
    var acc := Top(touched).state[a];
    if acc.basic.balance >= value {
      SetAccountKeepsFrame(touched, a, WithBalance(acc, acc.basic.balance - value));
    }
  }

  /** `deposit` changes only the accounts of the top substate. */
  lemma DepositKeepsFrame(layers: seq<Substate>, backend: Backend, a: Address, value: nat)
    requires |layers| >= 1
    ensures var after := Deposit(layers, backend, a, value);
            Top(after) == Top(layers).(state := Top(after).state)
  {
    var touched := Touch(layers, backend, a);
    var acc := Top(touched).state[a];
    SetAccountKeepsFrame(touched, a, WithBalance(acc, acc.basic.balance + value));
  }

  /** `transfer` changes only the accounts of the top substate. */
  lemma TransferKeepsFrame(layers: seq<Substate>, backend: Backend, t: Transfer)
    requires |layers| >= 1
    ensures var after := ApplyTransfer(layers, backend, t).0;
            Top(after) == Top(layers).(state := Top(after).state)
  {
    var (withdrawn, res) := Withdraw(layers, backend, t.source, t.value);
    WithdrawKeepsFrame(layers, backend, t.source, t.value);
    if res.Ok? {
      DepositKeepsFrame(withdrawn, backend, t.target, t.value);
    }
  }

  /** `set_storage` changes only the accounts of the top substate. */
  lemma SetStorageKeepsFrame(layers: seq<Substate>, backend: Backend, a: Address, index: Word, value: Word)
    requires |layers| >= 1
    ensures var after := SetStorage(layers, backend, a, index, value);
            Top(after) == Top(layers).(state := Top(after).state)
  {
    var touched := Touch(layers, backend, a);
    var acc := Top(touched).state[a];
    SetAccountKeepsFrame(touched, a, acc.(storage := acc.storage[index := value]));
  }

  /** `mark_delete` changes only the accounts and the deletions of the top
      substate, and the deletions only by adding `a`. */
  lemma MarkDeleteKeepsFrame(layers: seq<Substate>, backend: Backend, a: Address, target: Address)
    requires |layers| >= 1
    ensures var after := MarkDelete(layers, backend, a, target).0;
            Top(after) == Top(layers).(state := Top(after).state, deleted := Top(layers).deleted + {a})
  {
    var t := Transfer(a, target, BalanceOf(layers, backend, a));
    var (moved, res) := ApplyTransfer(layers, backend, t);
    TransferEffect(layers, backend, t, a);
    TransferKeepsFrame(layers, backend, t);
    assert res.Ok?;
    var touched := Touch(moved, backend, a);
    var acc := Top(touched).state[a];
    SetAccountKeepsFrame(touched, a, WithBalance(acc, 0));
  }

  // ---------------------------------------------------------------------
  // Failed frames
  // ---------------------------------------------------------------------

  /** Leaving a failed frame keeps only its logs: two stacks that agree below
      the top and on the logs of their top frames are left the same way. */
  lemma ExitFailedKeepsOnlyLogs(l1: seq<Substate>, l2: seq<Substate>)
    requires |l1| == |l2| > 1 && l1[..|l1| - 1] == l2[..|l2| - 1] && Top(l1).logs == Top(l2).logs
    ensures Exit(l1, Failed) == Exit(l2, Failed)
  {
    var n := |l1|;
    assert l1[n - 2] == l1[..n - 1][n - 2] == l2[..n - 1][n - 2] == l2[n - 2];
  }
}
