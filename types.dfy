/**
 * Values shared by the stack executor: addresses, words, accounts, logs,
 * the final state changes handed back to the backend, the executor's
 * configuration, and the collaborators it only queries (the backend and
 * the address hashes).
 */
module EvmTypes {

  /** One byte of code, call data or log data. */
  newtype byte = x: int | 0 <= x < 256

  /** A 160-bit address (H160). Its byte order is big-endian, so ordering
      the numbers orders the addresses as a BTreeMap does. */
  type Address = nat

  /** A 256-bit word: storage keys and values (H256) and log topics. */
  type Word = nat

  datatype Option<T> = None | Some(value: T) {
    function GetOr(default: T): T {
      match this
      case Some(v) => v
      case None => default
    }
  }

  /** The errors an operation of the executor can end with. `Other` stands for
      the interpreter's own errors, which this model passes through. */
  datatype ExitError =
    | OutOfGas
    | OutOfFund
    | CallTooDeep
    | CreateCollision
    | CreateContractLimit
    | Other(reason: string)

  datatype Result<T> = Ok(value: T) | Err(error: ExitError)

  /** Basic account information kept by the backend. */
  datatype Basic = Basic(balance: nat, nonce: nat)

  /** An account as the executor caches it. `code == None` means the code is
      not known yet and must be fetched from the backend; `resetStorage` means
      the backend's storage is to be wiped before `storage` is applied. */
  datatype Account = Account(
    basic: Basic,
    code: Option<seq<byte>>,
    storage: map<Word, Word>,
    resetStorage: bool)

  datatype Log = Log(address: Address, topics: seq<Word>, data: seq<byte>)

  /** A change to apply to the backend once execution is over. */
  datatype Apply =
    | Modify(address: Address, basic: Basic, code: Option<seq<byte>>,
             storage: map<Word, Word>, resetStorage: bool)
    | Delete(address: Address)

  /** The state the executor reads through: basic information, code and
      storage of any address, as it was before the transaction. */
  datatype Backend = Backend(
    basic: Address -> Basic,
    code: Address -> seq<byte>,
    storage: (Address, Word) -> Word)

  /** The two address derivations of contract creation (Keccak-256 over the
      RLP list [caller, nonce], and over 0xff ++ caller ++ salt ++ code hash),
      taken as given functions. */
  datatype Hasher = Hasher(
    legacy: (Address, nat) -> Address,
    create2: (Address, Word, Word) -> Address)

  /** The part of the EVM configuration the executor consults. */
  datatype Config = Config(
    callStackLimit: nat,
    callL64AfterGas: bool,
    callStipend: nat,
    createIncreaseNonce: bool,
    createContractLimit: Option<nat>)

  datatype Transfer = Transfer(source: Address, target: Address, value: nat)

  datatype Context = Context(address: Address, caller: Address, apparentValue: nat)

  datatype CreateScheme =
    | Legacy(caller: Address)
    | Create2(caller: Address, codeHash: Word, salt: Word)
    | Fixed(address: Address)

  datatype StackExitKind = Succeeded | Reverted | Failed

  datatype ExitSucceed = Stopped | Returned | Suicided

  /** How a piece of EVM execution ended. */
  datatype ExitReason =
    | Succeed(succeed: ExitSucceed)
    | Error(error: ExitError)
    | Revert
    | Fatal(reason: string)

  /** One entry of the call graph recorded for every executed call. */
  datatype InternalTransaction = InternalTransaction(parent: Address, node: Address, gasUsed: nat)

  /** A run of the interpreter on a frame, which this model takes as given:
      how it ended, the data it returned and the gas it charged to the
      frame's meter. */
  datatype Execution = Execution(reason: ExitReason, returned: seq<byte>, spent: nat)

  /** What the precompile at a called address answered, if there is one:
      success with its output and cost, or an error. */
  datatype PrecompileOutcome =
    | PrecompileSucceed(succeed: ExitSucceed, output: seq<byte>, cost: nat)
    | PrecompileError(error: ExitError)
}
