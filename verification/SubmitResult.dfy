/**
 * Delivering a job's result: assembling the EIP-1559 transaction that calls
 * `deliver(jobId, receiver)` on the result contract, and reconciling the
 * stored nonce with the gateway's answer.
 *
 * Fee estimation, threshold-ECDSA signing and broadcasting through the EVM RPC
 * canister are asynchronous calls to other canisters: the model receives the
 * fee estimate and the broadcast status as inputs chosen by the caller.
 */
module ResultSubmission {
  import opened Wrappers
  import opened EthTypes
  import opened HexText
  import opened ChainState

  /** Gas limit of every result transaction. */
  const GAS_LIMIT: U256 := 5_000_000
  /** The result contract's entry point, `deliver(uint256 jobId, address receiver)`. */
  const DELIVER: string := "deliver"

  /** An ABI argument, restricted to the two kinds the relay passes. */
  datatype Token = Uint(n: U256) | AddressToken(addr: Address)

  /**
   * Target contract (as configured text), function name and arguments. The
   * ABI it is resolved against is the fixed one-function `deliver` ABI.
   */
  datatype ContractDetails = ContractDetails(contractAddress: string, functionName: string, args: seq<Token>)

  /**
   * ABI-encoded call data. The encoding is library code, so the model keeps
   * the call it denotes: the function and its arguments.
   */
  datatype CallData = AbiCall(functionName: string, args: seq<Token>)

  datatype FeeEstimates = FeeEstimates(maxFeePerGas: U256, maxPriorityFeePerGas: U256)

  datatype AccessListItem = AccessListItem(address: Address, storageKeys: seq<U256>)

  /** An unsigned type-2 (EIP-1559) transaction; `None` is an unset field. */
  datatype Eip1559TransactionRequest = Eip1559TransactionRequest(
    from: Option<Address>,
    to: Option<Address>,
    gas: Option<U256>,
    value: Option<U256>,
    data: Option<CallData>,
    nonce: Option<U256>,
    accessList: seq<AccessListItem>,
    maxPriorityFeePerGas: Option<U256>,
    maxFeePerGas: Option<U256>,
    chainId: Option<U64>)

  /** The broadcast's answer: a closed set of four outcomes. */
  datatype SendRawTransactionStatus =
    | Ok(transactionHash: Option<string>)
    | NonceTooLow
    | NonceTooHigh
    | InsufficientFunds

  /** Where the source panics instead of returning. */
  datatype SubmitError =
    | NoLogsAddress           // `get_logs_addresses()[0]` on an empty list
    | InvalidContractAddress  // `Address::from_str(..).expect(..)`
    | NonceOverflow           // `nonce += 1` past 2^256 - 1

  function CallDataOf(details: ContractDetails): CallData {
    AbiCall(details.functionName, details.args)
  }

  /**
   * The transaction-assembly step of `contract_interaction_with_value`: the
   * contract address must parse; every other field is copied from the inputs.
   */
  function AssembleTransaction(details: ContractDetails, gas: Option<U256>, chainId: U64,
                               nonce: U256, fees: FeeEstimates, value: U256)
    : (r: Result<Eip1559TransactionRequest, SubmitError>)
    ensures r.Success? <==> ParseAddress(details.contractAddress).Some?
    ensures r.Failure? ==> r.error == InvalidContractAddress
    ensures r.Success? ==>
      && r.value.to == Some(ParseAddress(details.contractAddress).value)
      && r.value.gas == gas
      && r.value.nonce == Some(nonce)
      && r.value.value == Some(value)
      && r.value.maxFeePerGas == Some(fees.maxFeePerGas)
      && r.value.maxPriorityFeePerGas == Some(fees.maxPriorityFeePerGas)
      && r.value.chainId == Some(chainId)
      && r.value.data == Some(CallDataOf(details))
      && r.value.from.None? && r.value.accessList == []
  {
    match ParseAddress(details.contractAddress)
    case None => Failure(InvalidContractAddress)
    case Some(to) =>
      Success(Eip1559TransactionRequest(
        from := None,
        to := Some(to),
        gas := gas,
        value := Some(value),
        data := Some(CallDataOf(details)),
        nonce := Some(nonce),
        accessList := [],
        maxPriorityFeePerGas := Some(fees.maxPriorityFeePerGas),
        maxFeePerGas := Some(fees.maxFeePerGas),
        chainId := Some(chainId)))
  }

  /** A contract address configured in canonical form is the transaction's target. */
  lemma AssembleTargetsConfiguredAddress(contract: Address, functionName: string, args: seq<Token>,
                                         gas: Option<U256>, chainId: U64, nonce: U256,
                                         fees: FeeEstimates, value: U256)
    ensures var r := AssembleTransaction(ContractDetails(FormatAddress(contract), functionName, args),
                                         gas, chainId, nonce, fees, value);
            r.Success? && r.value.to == Some(contract)
  {
    ParseFormatAddress(contract);
  }

  /** The call `submit_result` makes: `deliver(job_id, receiver)` on the given contract. */
  function DeliverDetails(contractAddress: string, jobId: U256, receiverAddress: Address): ContractDetails {
    ContractDetails(contractAddress, DELIVER, [Uint(jobId), AddressToken(receiverAddress)])
  }

  /**
   * Assembling the `deliver` call `submit_result` prepares, with the fixed gas
   * limit, gives the delivery transaction to the parsed contract address.
   */
  lemma AssembleDelivery(contractAddress: string, chainId: U64, nonce: U256, jobId: U256,
                         receiverAddress: Address, valueOut: U256, fees: FeeEstimates)
    ensures var r := AssembleTransaction(DeliverDetails(contractAddress, jobId, receiverAddress),
                                         Some(GAS_LIMIT), chainId, nonce, fees, valueOut);
            && (r.Success? <==> ParseAddress(contractAddress).Some?)
            && (r.Success? ==> r.value == DeliveryTransaction(ParseAddress(contractAddress).value, chainId, nonce,
                                                               jobId, receiverAddress, valueOut, fees))
  {
  }

  /**
   * What a job's result transaction is meant to be: a payable call of
   * `deliver(jobId, receiver)` on `contract`, carrying `valueOut`, with the
   * fixed gas limit, the given nonce and chain id, and the fee estimate as is.
   */
  function DeliveryTransaction(contract: Address, chainId: U64, nonce: U256, jobId: U256,
                               receiverAddress: Address, valueOut: U256, fees: FeeEstimates)
    : Eip1559TransactionRequest
  {
    Eip1559TransactionRequest(
      from := None,
      to := Some(contract),
      gas := Some(GAS_LIMIT),
      value := Some(valueOut),
      data := Some(AbiCall(DELIVER, [Uint(jobId), AddressToken(receiverAddress)])),
      nonce := Some(nonce),
      accessList := [],
      maxPriorityFeePerGas := Some(fees.maxPriorityFeePerGas),
      maxFeePerGas := Some(fees.maxFeePerGas),
      chainId := Some(chainId))
  }

  /**
   * The stored nonce once the gateway has answered `status` for a
   * transaction: one more after `Ok`, the same after any rejection.
   */
  function NonceAfter(nonce: U256, status: SendRawTransactionStatus): (r: Result<U256, SubmitError>)
    ensures status.Ok? && nonce + 1 < U256_MODULUS ==> r == Success(nonce + 1)
    ensures !status.Ok? ==> r == Success(nonce)
    ensures r.Failure? <==> status.Ok? && nonce + 1 == U256_MODULUS
  {
    match status
    case Ok(_) => if nonce + 1 < U256_MODULUS then Success(nonce + 1) else Failure(NonceOverflow)
    case NonceTooLow => Success(nonce)
    case NonceTooHigh => Success(nonce)
    case InsufficientFunds => Success(nonce)
  }

  /** The outcome of one `submit_result` call and the nonce stored after it. */
  datatype Submission = Submission(outcome: Result<Eip1559TransactionRequest, SubmitError>, nonce: U256)

  /**
   * `submit_result` as a function of the state it reads: the first logs
   * address, the RPC chain id and the stored nonce. A successful outcome is
   * the transaction that was broadcast.
   */
  function Submit(logsAddresses: seq<string>, chainId: U64, nonce: U256, jobId: U256,
                  receiverAddress: Address, valueOut: U256, fees: FeeEstimates,
                  status: SendRawTransactionStatus)
    : (s: Submission)
    ensures |logsAddresses| == 0 ==> s.outcome == Failure(NoLogsAddress)
    ensures s.outcome.Success? <==>
      |logsAddresses| > 0 && ParseAddress(logsAddresses[0]).Some? &&
      !(status.Ok? && nonce + 1 == U256_MODULUS)
    ensures s.outcome.Success? ==>
      s.outcome.value == DeliveryTransaction(ParseAddress(logsAddresses[0]).value, chainId, nonce,
                                             jobId, receiverAddress, valueOut, fees)
    ensures s.nonce == (if status.Ok? && s.outcome.Success? then nonce + 1 else nonce)
  {
    if |logsAddresses| == 0 then
      Submission(Failure(NoLogsAddress), nonce)
    else
      match ParseAddress(logsAddresses[0])
      case None => Submission(Failure(InvalidContractAddress), nonce)
      case Some(contract) =>
        match NonceAfter(nonce, status)
        case Failure(e) => Submission(Failure(e), nonce)
        case Success(next) =>
          Submission(Success(DeliveryTransaction(contract, chainId, nonce, jobId, receiverAddress, valueOut, fees)), next)
  }

  /**
   * `submit_result(job_id, receiver_address, value_out)`, one job at a time.
   *
   * The source reads the nonce before three awaits (fee estimation, signing,
   * broadcast) and increments the stored nonce after them, so two jobs in
   * flight at once can read the same nonce. The model runs one job to
   * completion before the next and does not capture that race.
   */
  method SubmitResult(st: State, jobId: U256, receiverAddress: Address, valueOut: U256,
                      fees: FeeEstimates, status: SendRawTransactionStatus)
    returns (r: Result<Eip1559TransactionRequest, SubmitError>)
    modifies st`nonce
    ensures Submission(r, st.nonce) ==
      Submit(st.logsAddresses, st.rpcChainId, old(st.nonce), jobId, receiverAddress, valueOut, fees, status)
  {
    if |st.logsAddresses| == 0 {
      return Failure(NoLogsAddress);
    }
    var contractAddress := st.logsAddresses[0];
    var nonce := st.nonce;
    var details := DeliverDetails(contractAddress, jobId, receiverAddress);
    var tx := AssembleTransaction(details, Some(GAS_LIMIT), st.rpcChainId, nonce, fees, valueOut);
    if tx.Failure? {
      return Failure(tx.error);
    }
    // signing and broadcasting happen here; `status` is the broadcast's answer
    match status {
      case Ok(_) =>
        if st.nonce + 1 < U256_MODULUS {
          st.nonce := st.nonce + 1;
          r := tx;
        } else {
          r := Failure(NonceOverflow);
        }
      case NonceTooLow =>
        r := tx;
      case NonceTooHigh =>
        r := tx;
      case InsufficientFunds =>
        r := tx;
    }
  }

  /** One `submit_result` call's inputs besides the state. */
  datatype Request = Request(jobId: U256, receiverAddress: Address, valueOut: U256,
                             fees: FeeEstimates, status: SendRawTransactionStatus)

  /** `submit_result` applied to each request in turn, each reading the nonce the previous one left. */
  function SubmitAll(logsAddresses: seq<string>, chainId: U64, nonce: U256, reqs: seq<Request>)
    : (ss: seq<Submission>)
    ensures |ss| == |reqs|
    decreases reqs
  {
    if reqs == [] then []
    else
      var q := reqs[0];
      var s := Submit(logsAddresses, chainId, nonce, q.jobId, q.receiverAddress, q.valueOut, q.fees, q.status);
      [s] + SubmitAll(logsAddresses, chainId, s.nonce, reqs[1..])
  }

  /** 1 for a request the gateway accepts, 0 otherwise. */
  function Accepted(q: Request): nat {
    if q.status.Ok? then 1 else 0
  }

  /** The number of accepted requests in `reqs`. */
  function CountOk(reqs: seq<Request>): (n: nat)
    ensures n <= |reqs|
  {
    if reqs == [] then 0 else Accepted(reqs[0]) + CountOk(reqs[1..])
  }

  lemma {:induction false} CountOkPrefix(reqs: seq<Request>, k: nat)
    requires k < |reqs|
    ensures CountOk(reqs[..k + 1]) == CountOk(reqs[..k]) + Accepted(reqs[k])
  {
    if k > 0 {
      CountOkPrefix(reqs[1..], k - 1);
      CountOkTake(reqs, k + 1);
      CountOkTake(reqs, k);
    }
  }

  /** A non-empty prefix counts its first request and then the rest of it. */
  lemma CountOkTake(reqs: seq<Request>, j: nat)
    requires 0 < j <= |reqs|
    ensures CountOk(reqs[..j]) == Accepted(reqs[0]) + CountOk(reqs[1..][..j - 1])
  {
    assert reqs[..j][1..] == reqs[1..][..j - 1];
  }

  /** The counts `SubmitAllNonces` needs, split into the first request and the rest. */
  lemma CountOkShift(reqs: seq<Request>, k: nat)
    requires k < |reqs|
    ensures CountOk(reqs) == Accepted(reqs[0]) + CountOk(reqs[1..])
    ensures CountOk(reqs[..k + 1]) == Accepted(reqs[0]) + CountOk(reqs[1..][..k])
    ensures k == 0 ==> CountOk(reqs[..k]) == 0
    ensures k > 0 ==> CountOk(reqs[..k]) == Accepted(reqs[0]) + CountOk(reqs[1..][..k - 1])
  {
    CountOkTake(reqs, k + 1);
    if k == 0 {
      assert reqs[..0] == [];
    } else {
      CountOkTake(reqs, k);
    }
  }

  /**
   * A run's first submission, to a parsable address whose nonce does not
   * overflow, is broadcast with the nonce it read, which then advances by its
   * acceptance.
   */
  lemma SubmitAllFirst(logsAddresses: seq<string>, chainId: U64, nonce: U256, reqs: seq<Request>)
    requires |logsAddresses| > 0 && ParseAddress(logsAddresses[0]).Some?
    requires |reqs| > 0 && nonce + Accepted(reqs[0]) < U256_MODULUS
    ensures var s := SubmitAll(logsAddresses, chainId, nonce, reqs)[0];
            s.outcome.Success? && s.outcome.value.nonce == Some(nonce) && s.nonce == nonce + Accepted(reqs[0])
  {
  }

  /** The rest of a run continues from the nonce its first submission left. */
  lemma SubmitAllRest(logsAddresses: seq<string>, chainId: U64, nonce: U256, reqs: seq<Request>, k: nat)
    requires |logsAddresses| > 0 && ParseAddress(logsAddresses[0]).Some?
    requires 0 < k < |reqs| && nonce + Accepted(reqs[0]) < U256_MODULUS
    ensures SubmitAll(logsAddresses, chainId, nonce, reqs)[k] ==
            SubmitAll(logsAddresses, chainId, nonce + Accepted(reqs[0]), reqs[1..])[k - 1]
  {
    SubmitAllFirst(logsAddresses, chainId, nonce, reqs);
  }

  /**
   * With a parsable contract address and no overflow, the `k`-th submission in
   * a run is broadcast with the initial nonce plus the number of earlier
   * `Ok` answers, and the run ends with the initial nonce plus all of them.
   */
  lemma {:induction false} SubmitAllNonces(logsAddresses: seq<string>, chainId: U64, nonce: U256,
                                           reqs: seq<Request>, k: nat)
    requires |logsAddresses| > 0 && ParseAddress(logsAddresses[0]).Some?
    requires nonce + CountOk(reqs) < U256_MODULUS
    requires k < |reqs|
    ensures var s := SubmitAll(logsAddresses, chainId, nonce, reqs)[k];
            s.outcome.Success? &&
            s.outcome.value.nonce == Some(nonce + CountOk(reqs[..k])) &&
            s.nonce == nonce + CountOk(reqs[..k + 1])
    decreases k
  {
    CountOkShift(reqs, k);
    if k == 0 {
      SubmitAllFirst(logsAddresses, chainId, nonce, reqs);
    } else {
      SubmitAllRest(logsAddresses, chainId, nonce, reqs, k);
      SubmitAllNonces(logsAddresses, chainId, nonce + Accepted(reqs[0]), reqs[1..], k - 1);
    }
  }

  /**
   * Within such a run, a transaction the gateway accepted carries a nonce
   * strictly below that of every later transaction, so no two accepted
   * transactions share a nonce.
   */
  lemma AcceptedNoncesIncrease(logsAddresses: seq<string>, chainId: U64, nonce: U256,
                               reqs: seq<Request>, i: nat, j: nat)
    requires |logsAddresses| > 0 && ParseAddress(logsAddresses[0]).Some?
    requires nonce + CountOk(reqs) < U256_MODULUS
    requires i < j < |reqs| && reqs[i].status.Ok?
    ensures var ss := SubmitAll(logsAddresses, chainId, nonce, reqs);
            ss[i].outcome.Success? && ss[j].outcome.Success? &&
            ss[i].outcome.value.nonce.Some? && ss[j].outcome.value.nonce.Some? &&
            ss[i].outcome.value.nonce.value < ss[j].outcome.value.nonce.value
  {
    SubmitAllNonces(logsAddresses, chainId, nonce, reqs, i);
    SubmitAllNonces(logsAddresses, chainId, nonce, reqs, j);
    CountOkPrefix(reqs, i);
    CountOkMonotone(reqs, i + 1, j);
  }

  lemma {:induction false} CountOkMonotone(reqs: seq<Request>, m: nat, n: nat)
    requires m <= n <= |reqs|
    ensures CountOk(reqs[..m]) <= CountOk(reqs[..n])
    decreases n - m
  {
    if m < n {
      CountOkMonotone(reqs, m, n - 1);
      CountOkPrefix(reqs, n - 1);
    }
  }

  /** After a run, the stored nonce has advanced by exactly the number of `Ok` answers. */
  lemma SubmitAllAdvancesByAccepted(logsAddresses: seq<string>, chainId: U64, nonce: U256, reqs: seq<Request>)
    requires |logsAddresses| > 0 && ParseAddress(logsAddresses[0]).Some?
    requires nonce + CountOk(reqs) < U256_MODULUS
    requires |reqs| > 0
    ensures SubmitAll(logsAddresses, chainId, nonce, reqs)[|reqs| - 1].nonce == nonce + CountOk(reqs)
  {
    SubmitAllNonces(logsAddresses, chainId, nonce, reqs, |reqs| - 1);
    assert reqs[..|reqs|] == reqs;
  }
}
