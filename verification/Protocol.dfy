/** Ledger metadata and the errors of the client protocol (folio-core/src/protocol.rs, error.rs). */
module Protocol {
  type NodeId = string

  datatype Option<+T> = None | Some(value: T)

  datatype LedgerState = Open | InRecovery | Closed | Deleted

  datatype Fragment = Fragment(firstEntry: nat, ensemble: seq<NodeId>, writeQuorum: nat, ackQuorum: nat)

  datatype LedgerMeta = LedgerMeta(
    id: nat,
    state: LedgerState,
    fragments: seq<Fragment>,
    lastEntry: Option<nat>,
    lastAddConfirmed: nat,
    updatedAt: nat,
    version: int)

  datatype Error =
    | LedgerNotFound
    | EntryNotFound
    | NodeUnavailable
    | LedgerFenced
    | QuorumNotMet(required: nat, received: nat)
    | StateConflict(expected: LedgerState, found: LedgerState)
    | CasConflict
    | InvalidFragment
    | MetadataError

  datatype Result<+T> = Ok(value: T) | Err(error: Error)

  datatype LedgerOptions = LedgerOptions(ensembleSize: nat, writeQuorum: nat, ackQuorum: nat)

  /** `LedgerOptions::validate`. */
  predicate ValidOptions(o: LedgerOptions) {
    0 < o.ensembleSize && 0 < o.ackQuorum <= o.writeQuorum <= o.ensembleSize
  }
}
