/**
 * The part of the canister's global state that the relay core reads and
 * writes. The thread-local `read_state`/`mutate_state` cells become one
 * `State` object handed to the core.
 */
module ChainState {
  import opened EthTypes

  /** Identity of a source log record, the key of the processed-log set. */
  datatype LogSource = LogSource(transactionHash: string, logIndex: nat)

  class State {
    /** Addresses of the contracts whose logs are scraped; the first one also receives results. */
    var logsAddresses: seq<string>
    /** Chain id of the configured RPC services (`rpc_services.chain_id()`). */
    var rpcChainId: U64
    /** Nonce of the canister's signing account for the next transaction. */
    var nonce: U256
    /** Log sources whose job has been started. */
    var processedLogs: set<LogSource>

    /** `record_processed_log`: the source joins the processed set; recording it again changes nothing. */
    method RecordProcessedLog(source: LogSource)
      modifies this`processedLogs
      ensures processedLogs == old(processedLogs) + {source}
      ensures source in processedLogs && old(processedLogs) <= processedLogs
      ensures source in old(processedLogs) ==> processedLogs == old(processedLogs)
    {
      processedLogs := processedLogs + {source};
    }
  }
}
