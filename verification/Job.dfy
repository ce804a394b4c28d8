/**
 * A relay job: decode a `NewJob` log into a `NewJobEvent`, compute the value
 * to deliver, and hand it to `submit_result`. The log's source is recorded as
 * processed before anything else happens.
 */
module JobPipeline {
  import opened Wrappers
  import opened Numerals
  import opened EthTypes
  import opened HexText
  import opened ChainState
  import opened ResultSubmission

  /** A log record as the EVM RPC canister returns it; hashes and data are hexadecimal text. */
  datatype LogEntry = LogEntry(
    address: string,
    topics: seq<string>,
    data: string,
    blockNumber: Option<nat>,
    transactionHash: Option<string>,
    transactionIndex: Option<nat>,
    blockHash: Option<string>,
    logIndex: Option<nat>,
    removed: bool)

  datatype NewJobEvent = NewJobEvent(
    fromChainId: U256,
    jobId: U256,
    transactionHash: U256,
    logIndex: U256,
    coprocessorBalance: U256,
    toChainId: U256,
    receiverAddress: Address,
    valueIn: U256)

  /** The source chain id every event is given, whatever chain the log came from. */
  const FROM_CHAIN_ID: U256 := 111

  /** The first field whose `expect`, index or addition panics, in the order the decoder reads them. */
  datatype DecodeError =
    | MissingTransactionHash
    | InvalidTransactionHash
    | MissingLogIndex
    | LogIndexTooWide        // more than 32 bytes for `U256::from_big_endian`
    | JobIdOverflow          // `transaction_hash + log_index` past 2^256 - 1
    | MissingTopic(index: nat)
    | InvalidToChainId
    | InvalidReceiverAddress
    | InvalidValueIn
    | InvalidCoprocessorBalance

  /** `to_big_endian`: writes the 32-byte big-endian encoding of `value` into `bytes`. */
  method ToBigEndian(value: U256, bytes: array<byte>)
    requires bytes.Length == 32
    modifies bytes
    ensures bytes[..] == ToDigits(value, 32, 256)
  {
    var rest: nat := value;
    var i := 0;
    while i < 32
      invariant 0 <= i <= 32
      invariant ToDigits(value, 32, 256) == ToDigits(rest, 32 - i, 256) + bytes[32 - i..]
    {
      bytes[31 - i] := rest % 256;
      rest := rest / 256;
      i := i + 1;
    }
  }

  /** The address whose 20 bytes are the low 20 bytes of `value`'s 32-byte big-endian form. */
  function AddressOf(value: U256): (a: Address)
    ensures AddressValue(a) == value % ADDRESS_MODULUS
    ensures value < ADDRESS_MODULUS ==> AddressValue(a) == value
  {
    var low: seq<nat> := ToDigits(value, 32, 256)[12..];
    DigitsSuffix(value, 32, 20, 256);
    assert low == ToDigits(value, 20, 256);
    FromToDigits(value, 20, 256);
    WidthModuli();
    assert value < ADDRESS_MODULUS ==> value % ADDRESS_MODULUS == value by {
      if value < ADDRESS_MODULUS {
        DivModUnique(value, ADDRESS_MODULUS, 0, value);
      }
    }
    low
  }

  /** `u256_to_address`: encode into a zeroed 32-byte buffer, then keep bytes 12 to 31. */
  method U256ToAddress(value: U256) returns (a: Address)
    ensures a == AddressOf(value)
    ensures AddressValue(a) == value % ADDRESS_MODULUS
  {
    var bytes := new byte[32](_ => 0);
    ToBigEndian(value, bytes);
    a := bytes[12..];
  }

  /** Two addresses that denote the same number are the same address. */
  lemma AddressValueInjective(a: Address, b: Address)
    requires AddressValue(a) == AddressValue(b)
    ensures a == b
  {
    ToFromDigits(a, 256);
    ToFromDigits(b, 256);
  }

  /** The high 12 bytes are discarded unchecked: values equal modulo 2^160 give one address. */
  lemma AddressOfIgnoresHighBytes(v: U256, w: U256)
    requires v % ADDRESS_MODULUS == w % ADDRESS_MODULUS
    ensures AddressOf(v) == AddressOf(w)
  {
    AddressValueInjective(AddressOf(v), AddressOf(w));
  }

  /** An address widened to a 256-bit word truncates back to itself. */
  lemma AddressOfAddressValue(a: Address)
    ensures AddressOf(AddressValue(a)) == a
  {
    AddressValueInjective(AddressOf(AddressValue(a)), a);
  }

  /** `U256::from_big_endian(&log_index.to_bytes_be())`: more than 32 bytes panics. */
  function LogIndexToU256(logIndex: nat): Result<U256, DecodeError> {
    if logIndex < U256_MODULUS then Success(logIndex) else Failure(LogIndexTooWide)
  }

  /** `U256` addition, which panics rather than wraps. */
  function CheckedAdd(x: U256, y: U256): Option<U256> {
    if x + y < U256_MODULUS then Some(x + y) else None
  }

  function Topic(entry: LogEntry, i: nat): Result<string, DecodeError> {
    if i < |entry.topics| then Success(entry.topics[i]) else Failure(MissingTopic(i))
  }

  /** The conditions under which every step of the decoder succeeds. */
  predicate WellFormedJobLog(entry: LogEntry) {
    && entry.transactionHash.Some?
    && ParseU256(entry.transactionHash.value).Some?
    && entry.logIndex.Some?
    && entry.logIndex.value < U256_MODULUS
    && ParseU256(entry.transactionHash.value).value + entry.logIndex.value < U256_MODULUS
    && |entry.topics| >= 4
    && ParseU256(entry.topics[1]).Some?
    && ParseU256(entry.topics[2]).Some?
    && ParseU256(entry.topics[3]).Some?
    && ParseU256(entry.data).Some?
  }

  /**
   * `NewJobEvent::from(entry)`. The decoder trusts that the log is a `NewJob`
   * event: it checks neither the emitting address nor the signature topic.
   */
  function DecodeNewJob(entry: LogEntry): (r: Result<NewJobEvent, DecodeError>)
    ensures r.Success? <==> WellFormedJobLog(entry)
    ensures entry.transactionHash.None? ==> r == Failure(MissingTransactionHash)
    ensures (entry.transactionHash.Some? && ParseU256(entry.transactionHash.value).None?) ==>
      r == Failure(InvalidTransactionHash)
    ensures (entry.transactionHash.Some? && ParseU256(entry.transactionHash.value).Some? &&
             entry.logIndex.None?) ==> r == Failure(MissingLogIndex)
    ensures r.Success? ==>
      var ev := r.value;
      && ev.fromChainId == FROM_CHAIN_ID
      && Some(ev.transactionHash) == ParseU256(entry.transactionHash.value)
      && Some(ev.logIndex as nat) == entry.logIndex
      && ev.jobId == ev.transactionHash + ev.logIndex
      && Some(ev.toChainId) == ParseU256(entry.topics[1])
      && ev.receiverAddress == AddressOf(ParseU256(entry.topics[2]).value)
      && Some(ev.valueIn) == ParseU256(entry.topics[3])
      && Some(ev.coprocessorBalance) == ParseU256(entry.data)
  {
    var hashText :- entry.transactionHash.ToResult(MissingTransactionHash);
    var transactionHash :- ParseU256(hashText).ToResult(InvalidTransactionHash);
    var index :- entry.logIndex.ToResult(MissingLogIndex);
    var logIndex :- LogIndexToU256(index);
    var jobId :- CheckedAdd(transactionHash, logIndex).ToResult(JobIdOverflow);
    var chainText :- Topic(entry, 1);
    var toChainId :- ParseU256(chainText).ToResult(InvalidToChainId);
    var receiverText :- Topic(entry, 2);
    var receiverWord :- ParseU256(receiverText).ToResult(InvalidReceiverAddress);
    var valueText :- Topic(entry, 3);
    var valueIn :- ParseU256(valueText).ToResult(InvalidValueIn);
    var coprocessorBalance :- ParseU256(entry.data).ToResult(InvalidCoprocessorBalance);
    Success(NewJobEvent(
      fromChainId := FROM_CHAIN_ID,
      jobId := jobId,
      transactionHash := transactionHash,
      logIndex := logIndex,
      coprocessorBalance := coprocessorBalance,
      toChainId := toChainId,
      receiverAddress := AddressOf(receiverWord),
      valueIn := valueIn))
  }

  /**
   * The log a `NewJob` emission of `ev` produces: each indexed field a
   * 32-byte topic, the receiver left-padded, the balance as data.
   */
  function EncodeNewJob(ev: NewJobEvent, signatureTopic: string, contract: string): LogEntry {
    LogEntry(
      address := contract,
      topics := [signatureTopic, FormatU256(ev.toChainId), FormatU256(AddressValue(ev.receiverAddress)),
                 FormatU256(ev.valueIn)],
      data := FormatU256(ev.coprocessorBalance),
      blockNumber := None,
      transactionHash := Some(FormatU256(ev.transactionHash)),
      transactionIndex := None,
      blockHash := None,
      logIndex := Some(ev.logIndex),
      removed := false)
  }

  /** Every field of an encoded event parses back to the value it was written from. */
  lemma EncodeNewJobParses(ev: NewJobEvent, signatureTopic: string, contract: string)
    ensures ParseU256(EncodeNewJob(ev, signatureTopic, contract).transactionHash.value) == Some(ev.transactionHash)
    ensures ParseU256(EncodeNewJob(ev, signatureTopic, contract).topics[1]) == Some(ev.toChainId)
    ensures ParseU256(EncodeNewJob(ev, signatureTopic, contract).topics[3]) == Some(ev.valueIn)
    ensures ParseU256(EncodeNewJob(ev, signatureTopic, contract).data) == Some(ev.coprocessorBalance)
  {
    ParseFormatU256(ev.transactionHash);
    ParseFormatU256(ev.toChainId);
    ParseFormatU256(ev.valueIn);
    ParseFormatU256(ev.coprocessorBalance);
  }

  /** The receiver topic parses back to the address widened to a word. */
  lemma EncodeReceiverParses(ev: NewJobEvent, signatureTopic: string, contract: string)
    ensures ParseU256(EncodeNewJob(ev, signatureTopic, contract).topics[2]) == Some(AddressValue(ev.receiverAddress))
  {
    ParseFormatU256(AddressValue(ev.receiverAddress));
  }

  /**
   * A log whose fields parse to those of `ev`, with `ev`'s ids the ones the
   * decoder derives, decodes to `ev`.
   */
  lemma DecodeParsedFields(entry: LogEntry, ev: NewJobEvent)
    requires ev.fromChainId == FROM_CHAIN_ID
    requires ev.jobId == ev.transactionHash + ev.logIndex
    requires entry.transactionHash.Some? && ParseU256(entry.transactionHash.value) == Some(ev.transactionHash)
    requires entry.logIndex == Some(ev.logIndex as nat)
    requires |entry.topics| >= 4
    requires ParseU256(entry.topics[1]) == Some(ev.toChainId)
    requires ParseU256(entry.topics[2]) == Some(AddressValue(ev.receiverAddress))
    requires ParseU256(entry.topics[3]) == Some(ev.valueIn)
    requires ParseU256(entry.data) == Some(ev.coprocessorBalance)
    ensures DecodeNewJob(entry) == Success(ev)
  {
    AddressOfAddressValue(ev.receiverAddress);
  }

  /** Decoding the log of an event gives the event back, when its ids are those the decoder derives. */
  lemma DecodeEncodeNewJob(ev: NewJobEvent, signatureTopic: string, contract: string)
    requires ev.fromChainId == FROM_CHAIN_ID
    requires ev.jobId == ev.transactionHash + ev.logIndex
    ensures DecodeNewJob(EncodeNewJob(ev, signatureTopic, contract)) == Success(ev)
  {
    EncodeNewJobParses(ev, signatureTopic, contract);
    EncodeReceiverParses(ev, signatureTopic, contract);
    DecodeParsedFields(EncodeNewJob(ev, signatureTopic, contract), ev);
  }

  /**
   * Decoding reads only the transaction hash, the log index, topics 1 to 3 and
   * the data: the emitter, the signature topic and the block fields are ignored.
   */
  lemma DecodeIgnoresOtherFields(entry: LogEntry, address: string, signatureTopic: string,
                                 blockNumber: Option<nat>, transactionIndex: Option<nat>,
                                 blockHash: Option<string>, removed: bool)
    requires |entry.topics| > 0
    ensures DecodeNewJob(entry.(address := address, topics := [signatureTopic] + entry.topics[1..],
                                blockNumber := blockNumber, transactionIndex := transactionIndex,
                                blockHash := blockHash, removed := removed))
         == DecodeNewJob(entry)
  {
  }

  /** The placeholder outcome policy: half the input value, rounded down. */
  function HalveValue(valueIn: U256): (valueOut: U256)
    ensures 2 * valueOut <= valueIn < 2 * valueOut + 2
  {
    valueIn / 2
  }

  datatype JobError = DecodeFailed(decodeError: DecodeError) | SubmitFailed(event: NewJobEvent, submitError: SubmitError)

  /** A job that reached the gateway: the event, the value delivered and the transaction broadcast. */
  datatype JobReport = JobReport(event: NewJobEvent, valueOut: U256, tx: Eip1559TransactionRequest)

  /** The outcome of one job and the nonce stored after it. */
  datatype JobRun = JobRun(outcome: Result<JobReport, JobError>, nonce: U256)

  /**
   * `job` as a function of the state it reads. The decoded `to_chain_id` is
   * not passed on: the submission goes to the configured RPC chain.
   */
  function RunJob(entry: LogEntry, logsAddresses: seq<string>, chainId: U64, nonce: U256,
                  fees: FeeEstimates, status: SendRawTransactionStatus)
    : (run: JobRun)
    ensures DecodeNewJob(entry).Failure? ==>
      run == JobRun(Failure(DecodeFailed(DecodeNewJob(entry).error)), nonce)
    ensures run.outcome.Success? <==>
      DecodeNewJob(entry).Success? && |logsAddresses| > 0 && ParseAddress(logsAddresses[0]).Some? &&
      !(status.Ok? && nonce + 1 == U256_MODULUS)
    ensures run.nonce == (if status.Ok? && run.outcome.Success? then nonce + 1 else nonce)
    ensures run.outcome.Success? ==>
      var rep := run.outcome.value;
      && DecodeNewJob(entry) == Success(rep.event)
      && 2 * rep.valueOut <= rep.event.valueIn < 2 * rep.valueOut + 2
      && |logsAddresses| > 0 && ParseAddress(logsAddresses[0]).Some?
      && rep.tx == DeliveryTransaction(ParseAddress(logsAddresses[0]).value, chainId, nonce,
                                       rep.event.jobId, rep.event.receiverAddress, rep.valueOut, fees)
  {
    match DecodeNewJob(entry)
    case Failure(e) => JobRun(Failure(DecodeFailed(e)), nonce)
    case Success(ev) =>
      var valueOut := HalveValue(ev.valueIn);
      var s := Submit(logsAddresses, chainId, nonce, ev.jobId, ev.receiverAddress, valueOut, fees, status);
      assert s.outcome.Success? ==> |logsAddresses| > 0 && ParseAddress(logsAddresses[0]).Some?;
      match s.outcome
      case Failure(e) => JobRun(Failure(SubmitFailed(ev, e)), s.nonce)
      case Success(tx) => JobRun(Success(JobReport(ev, valueOut, tx)), s.nonce)
  }

  /** Two logs whose events differ only in `to_chain_id` lead to the same transaction and nonce. */
  lemma RunJobIgnoresToChainId(e1: LogEntry, e2: LogEntry, logsAddresses: seq<string>, chainId: U64,
                               nonce: U256, fees: FeeEstimates, status: SendRawTransactionStatus)
    requires DecodeNewJob(e1).Success? && DecodeNewJob(e2).Success?
    requires DecodeNewJob(e1).value.(toChainId := 0) == DecodeNewJob(e2).value.(toChainId := 0)
    ensures var r1 := RunJob(e1, logsAddresses, chainId, nonce, fees, status);
            var r2 := RunJob(e2, logsAddresses, chainId, nonce, fees, status);
            && r1.nonce == r2.nonce
            && r1.outcome.Success? == r2.outcome.Success?
            && (r1.outcome.Success? ==> r1.outcome.value.tx == r2.outcome.value.tx)
  {
    var ev1, ev2 := DecodeNewJob(e1).value, DecodeNewJob(e2).value;
    assert ev1.jobId == ev2.jobId && ev1.receiverAddress == ev2.receiverAddress && ev1.valueIn == ev2.valueIn;
  }

  /**
   * `job(event_source, event)`: record the source as processed, decode,
   * halve the input value and submit the result. The source stays recorded
   * whatever happens after it.
   */
  method Job(st: State, eventSource: LogSource, event: LogEntry,
             fees: FeeEstimates, status: SendRawTransactionStatus)
    returns (r: Result<JobReport, JobError>)
    modifies st`processedLogs, st`nonce
    ensures st.processedLogs == old(st.processedLogs) + {eventSource}
    ensures JobRun(r, st.nonce) == RunJob(event, st.logsAddresses, st.rpcChainId, old(st.nonce), fees, status)
  {
    st.RecordProcessedLog(eventSource);
    var decoded := DecodeNewJob(event);
    if decoded.Failure? {
      return Failure(DecodeFailed(decoded.error));
    }
    var ev := decoded.value;
    var valueOut := HalveValue(ev.valueIn);
    var sent := SubmitResult(st, ev.jobId, ev.receiverAddress, valueOut, fees, status);
    if sent.Failure? {
      return Failure(SubmitFailed(ev, sent.error));
    }
    r := Success(JobReport(ev, valueOut, sent.value));
  }
}
