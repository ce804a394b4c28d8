# Relay core of the chain-fusion job canister, in Dafny

The canister watches a source-chain contract for `NewJob` logs. For each log
it runs a job with these steps:

1. It records the log's source as processed.
2. It decodes the log into a `NewJobEvent`.
3. It computes the value to deliver, which is half the input value.
4. It sends an EIP-1559 transaction calling `deliver(jobId, receiver)` on the
   result contract, carrying that value.

The canister keeps the nonce of its signing account in global state. Only a
broadcast the gateway answers with `Ok` advances it, and by exactly one.

The model has these modules:

- `Wrappers`: `Option` and `Result`.
- `Numerals`: positional digits in any base, with their round trips and bounds.
- `EthTypes`: `U256`, `U64`, `byte` and the 20-byte `Address`.
- `HexText`: the hexadecimal text the relay parses, which is log topics, log
  data, transaction hashes and the configured contract address. Each parser
  comes with a formatter it inverts.
- `ChainState`: a `State` class standing for the canister's global state. It
  holds the logs addresses, the RPC chain id, the nonce and the set of
  processed log sources.
- `ResultSubmission`: transaction assembly and `submit_result`.
- `JobPipeline`: `u256_to_address`, the `NewJobEvent` decoder and `job`.

The source panics in several places: an `expect` on a missing or invalid
field, an index past the end of a list, and `U256` addition that overflows.
Each of these becomes a `Failure` value naming the step that failed.

The asynchronous calls to other canisters are fee estimation, threshold-ECDSA
signing and broadcasting. They are not modelled. The caller supplies the fee
estimate and the broadcast status as inputs, which may be any of the four
statuses.

`U256::from_str_radix(_, 16)` accepts this syntax in the model: an optional `0x`,
then at most 64 hexadecimal digits of either case, where an empty digit string
reads as zero. `Address::from_str` accepts an optional `0x`, then exactly 40
hexadecimal digits. Both are library parsers, so this syntax is a modelling
choice. What the model proves about them is that they are partial, that they
stay within bounds, that digits of either case read as the number they denote,
and that they invert the canonical formatters.

The two core files disagree on one call. `canisters/chain_fusion/src/job.rs:28`
passes `to_chain_id` as a second argument, but
`canisters/chain_fusion/src/job/submit_result.rs:56` takes only `job_id`,
`receiver_address` and `value_out`. The model follows the callee's
three-parameter signature. `to_chain_id` is decoded but not consumed, and the
transaction goes to the chain of the configured RPC services
(`JobPipeline.RunJobIgnoresToChainId`).

## Model

| member | source | states |
|---|---|---|
| JobPipeline.ToBigEndian | canisters/chain_fusion/src/job.rs:61-62 | the 32-byte buffer holds the big-endian digits of the value, most significant byte first |
| JobPipeline.AddressOf | canisters/chain_fusion/src/job.rs:59-69 | the address made of bytes 12 to 31 of the 32-byte encoding, read as a number, is the value mod 2^160; a value below 2^160 is kept unchanged |
| JobPipeline.U256ToAddress | canisters/chain_fusion/src/job.rs:59-69 | the address cut from the in-place encoded buffer is `AddressOf(value)`, whose number is the value mod 2^160 |
| JobPipeline.AddressValueInjective | canisters/chain_fusion/src/job.rs:66-68 | two 20-byte addresses with the same numeric value are the same address |
| JobPipeline.AddressOfIgnoresHighBytes | canisters/chain_fusion/src/job.rs:62-66 | values that agree modulo 2^160 (differing only in the discarded top 96 bits) map to the same address |
| JobPipeline.AddressOfAddressValue | canisters/chain_fusion/src/job.rs:59-69 | an address widened to a word and truncated again is the same address |
| JobPipeline.DecodeNewJob | canisters/chain_fusion/src/job.rs:71-87 | decoding succeeds if and only if every field is present and parses and the job id does not overflow; a missing or invalid transaction hash and a missing log index give their own errors; on success `from_chain_id` is 111, the hash and index are stored unchanged (a log index wider than 32 bytes fails, job.rs:77), `job_id` is their sum and a sum past 2^256 - 1 fails rather than wrapping (job.rs:78), `to_chain_id`, `value_in` and `coprocessor_balance` are the base-16 values of topics 1 and 3 and the data, and the receiver is topic 2 truncated to an address |
| JobPipeline.EncodeNewJobParses | canisters/chain_fusion/src/job.rs:76-83 | each numeric field written as a 64-digit topic, hash or data string parses back to itself |
| JobPipeline.EncodeReceiverParses | canisters/chain_fusion/src/job.rs:80 | a receiver written left-padded into a topic parses back to its numeric value |
| JobPipeline.DecodeParsedFields | canisters/chain_fusion/src/job.rs:71-87 | a log whose fields parse to those of an event with `from_chain_id` 111 and `job_id = hash + index` decodes to that very event |
| JobPipeline.DecodeEncodeNewJob | canisters/chain_fusion/src/job.rs:71-87 | decoding the log emitted for an event returns the event, for every event whose ids are the ones the decoder derives |
| JobPipeline.DecodeIgnoresOtherFields | canisters/chain_fusion/src/job.rs:17-19 | the decoder checks neither the emitting address nor the signature topic (topic 0) nor the block fields: changing them never changes the decoded event or error |
| JobPipeline.HalveValue | canisters/chain_fusion/src/job.rs:24 | the value out is the floor of half the value in: `2*out <= in < 2*out + 2`, so never more than the input |
| JobPipeline.RunJob | canisters/chain_fusion/src/job.rs:15-30 | a decode failure ends the job with that error and the nonce untouched; otherwise the job succeeds exactly when the contract address parses and the nonce does not overflow, the nonce advances by one exactly on an accepted broadcast, and the transaction is the `deliver` call for the decoded job id and receiver with half the input value |
| JobPipeline.RunJobIgnoresToChainId | canisters/chain_fusion/src/job.rs:28 | two logs whose events differ only in `to_chain_id` give the same transaction and the same nonce |
| JobPipeline.Job | canisters/chain_fusion/src/job.rs:15-30 | the log source joins the processed set before anything else, whatever happens next, and the outcome and the stored nonce are those `RunJob` gives for the old nonce |
| ChainState.State.RecordProcessedLog | canisters/chain_fusion/src/job.rs:16 | the processed set becomes the old set plus the source, and recording a source twice changes nothing |
| ResultSubmission.AssembleTransaction | canisters/chain_fusion/src/job/submit_result.rs:31-47 | assembly succeeds exactly when the contract address parses, and otherwise fails with `InvalidContractAddress`; on success `to` is the parsed address, `gas` the gas passed in, `nonce` the nonce passed in, `value` the value, the fee pair exactly the estimate, `chain_id` the RPC chain id, the data the call of the contract details, `from` unset and the access list empty |
| ResultSubmission.AssembleDelivery | canisters/chain_fusion/src/job/submit_result.rs:90-110 | assembling the `deliver` details with gas 5,000,000 succeeds exactly when the address parses, and gives the delivery transaction to that address |
| ResultSubmission.AssembleTargetsConfiguredAddress | canisters/chain_fusion/src/job/submit_result.rs:33-37 | a contract address configured in its canonical `0x` form is the transaction's `to` field |
| ResultSubmission.NonceAfter | canisters/chain_fusion/src/job/submit_result.rs:113-130 | `Ok` advances the nonce by exactly one; `NonceTooLow`, `NonceTooHigh` and `InsufficientFunds` leave it unchanged; the only failure is `Ok` with the nonce already at 2^256 - 1 |
| ResultSubmission.Submit | canisters/chain_fusion/src/job/submit_result.rs:56-131 | with no logs address the call fails; it succeeds exactly when the first logs address parses and no nonce overflow occurs; the transaction sent is `deliver(job_id, receiver)`, arguments in that order (submit_result.rs:90-95), to that address with `value_out`, gas 5,000,000, the nonce read from state, the RPC chain id and the fee pair unmodified; the stored nonce is one more exactly when the status is `Ok` and the call succeeds |
| ResultSubmission.SubmitResult | canisters/chain_fusion/src/job/submit_result.rs:56-131 | changes only the stored nonce, and returns the transaction and leaves the nonce exactly as `Submit` says for the nonce read at the start |
| ResultSubmission.SubmitAll | canisters/chain_fusion/src/job/submit_result.rs:56-131 | one submission per request |
| ResultSubmission.SubmitAllFirst | canisters/chain_fusion/src/job/submit_result.rs:59-61 | the first submission of a run broadcasts with the nonce read from state and leaves it advanced by one exactly when accepted |
| ResultSubmission.SubmitAllRest | canisters/chain_fusion/src/job/submit_result.rs:61-118 | with a parsable address and no overflow, the rest of a run continues from the nonce its first submission left: the initial nonce plus one exactly when that submission was accepted |
| ResultSubmission.SubmitAllNonces | canisters/chain_fusion/src/job/submit_result.rs:61-119 | in a run of submissions, the k-th transaction carries the initial nonce plus the number of earlier `Ok` answers, and the stored nonce after it adds its own |
| ResultSubmission.AcceptedNoncesIncrease | canisters/chain_fusion/src/job/submit_result.rs:114-120 | an accepted transaction's nonce is strictly below that of every later transaction in the run, so no two accepted transactions share a nonce |
| ResultSubmission.SubmitAllAdvancesByAccepted | canisters/chain_fusion/src/job/submit_result.rs:114-130 | after N accepted broadcasts, in any mix with rejected ones, the stored nonce is the initial value plus N |
| HexText.ReadHex | canisters/chain_fusion/src/job.rs:76 | a digit string is read exactly when every character is a hexadecimal digit, and its value is below 16 to the power of its length |
| HexText.ParseU256 | canisters/chain_fusion/src/job.rs:76 | a `U256` is parsed exactly when the text after an optional `0x` has at most 64 hexadecimal digits |
| HexText.ReadHexValue | canisters/chain_fusion/src/job.rs:76 | a string of hexadecimal digits of either case, of any length, reads as the number its digit values denote |
| HexText.ParseU256Value | canisters/chain_fusion/src/job.rs:79-83 | a parsed `U256` is the number denoted by the digits after the optional `0x`, whatever their case |
| HexText.ReadHexDigits | canisters/chain_fusion/src/job.rs:79-83 | reading written digits gives back the number they denote |
| HexText.ParseFormatU256 | canisters/chain_fusion/src/job.rs:79-83 | every `U256` written as `0x` and 64 lower-case digits parses back to itself |
| HexText.ParseAddress | canisters/chain_fusion/src/job/submit_result.rs:34-35 | an address is parsed exactly when the text after an optional `0x` is 40 hexadecimal digits |
| HexText.PairsValue | canisters/chain_fusion/src/job/submit_result.rs:34-35 | grouping hexadecimal digits in pairs into bytes keeps the number they denote |
| HexText.ParseAddressValue | canisters/chain_fusion/src/job/submit_result.rs:34-35 | a parsed address, read as a number, is the number its 40 digits denote, whatever their case (so a checksummed address parses to its value) |
| HexText.ParseFormatAddress | canisters/chain_fusion/src/job/submit_result.rs:34-35 | every address written as `0x` and 40 lower-case digits parses back to itself |

The model does not state a separate lemma that decoding is deterministic.
Dafny functions are deterministic by construction, so equal logs give equal
events.

## Left out

- Fee estimation (`estimate_transaction_fees`), threshold-ECDSA signing and the broadcast through the EVM RPC canister are asynchronous calls into code that is not part of this model. The fee pair and the broadcast status are inputs chosen by the caller.
- ABI encoding (`get_function`, `get_data`) and the parsing of the ABI JSON text are library code. Call data is kept as the function name and argument list it encodes.
- `println!` logging and the `Debug` implementation of `NewJobEvent` produce output only.
- The thread-local `read_state`/`mutate_state` cells are replaced by a `State` object passed to the core. `state.rs` is not part of this model, so `record_processed_log` is modelled as set insertion.
- `rpc_services` and `rpc_services.chain_id()` are reduced to the chain id they yield (`State.rpcChainId`). `key_id`, the empty derivation path and the `EVM_RPC` handle only feed signing and broadcasting.
- Concurrency is not modelled. `submit_result` reads the nonce before three awaits and increments it after them, so two jobs in flight can read the same nonce. The model runs one job to completion before the next, and the nonce lemmas are about such sequential runs.
- JobPipeline.Job: a panic (trap) on the Internet Computer rolls back the state changes made in the same message. The model keeps the source's order instead, so the log source stays recorded even when decoding then fails.
- ResultSubmission.SubmitResult: `s.nonce += 1` on a nonce of 2^256 - 1 panics in the source. The model reports `NonceOverflow` and leaves the nonce unchanged.
- `U256::from_big_endian` of the log index's bytes is modelled by its value: it is accepted when below 2^256 and fails otherwise. Byte-level handling of `Nat` is not modelled.
- The exact syntax `U256::from_str_radix` and `Address::from_str` accept is library behaviour. The model uses the syntax described above.
