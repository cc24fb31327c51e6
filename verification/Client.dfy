/** Creating a ledger through the client (folio-ledger/src/client.rs). */
module Client {
  import opened Words
  import opened Protocol
  import opened Metadata
  import opened Ledger
  import opened QuorumLog

  /** No node holds anything of the ledger. */
  ghost predicate Empty(nodes: Nodes) {
    forall n <- nodes :: nodes[n].log == map[] && nodes[n].lac == 0
  }

  /** The whole system just after the ledger was created. */
  ghost function Fresh(h: Handle, nodes: Nodes): Sys {
    Sys(nodes, {}, h, Stored(h.fragments, h.version), [], None, false)
  }

  /** A handle opened on a new record starts a log: what the theorems on whole runs ask of their first state
      holds, with the quorums asked for, if and only if the write quorum fits a byte and the ensemble is of
      distinct nodes and no smaller than that quorum. */
  lemma NewLedgerStartsLog(m: LedgerMeta, o: LedgerOptions, ensemble: seq<NodeId>, nodes: Nodes)
    requires ValidOptions(o) && NewLedger(m, o, ensemble) && Empty(nodes)
    ensures var f := m.fragments[0];
            (Created(Fresh(HandleOf(m), nodes)) && f.writeQuorum == o.writeQuorum && f.ackQuorum == o.ackQuorum)
            <==> o.writeQuorum <= 255 && Distinct(ensemble) && o.writeQuorum <= |ensemble|
  {
    hide Distinct;
  }

  /** Quorums of 256 pass validation and are stored as 0: whatever the environment does, the first append to such
      a ledger is acknowledged and no node holds anything of it. */
  lemma WideQuorumsAckNothing(m: LedgerMeta, ensemble: seq<NodeId>, store: Stored, nodes: Nodes, data: Bytes,
                              env: AppendEnv)
    requires var o := LedgerOptions(256, 256, 256);
             NewLedger(m, o, ensemble) && m.fragments == FirstFragment(o, ensemble)
    ensures ValidOptions(LedgerOptions(256, 256, 256))
    ensures var out := Append(HandleOf(m), store, nodes, data, env);
            out.result == Some(Ok(0)) && out.nodes == nodes
  {
    hide ChangeFragment;
    assert WriteSet(m.fragments[0]) == [];
  }

  /** `create_ledger`. */
  method CreateLedger(store: InMemoryMetadataStore, options: LedgerOptions, ensemble: seq<NodeId>, now: nat)
    returns (r: Result<LedgerHandle>)
    requires store.Valid()
    modifies store
    ensures store.Valid()
    ensures r.Ok? <==> ValidOptions(options)
    ensures r.Err? ==> store.ledgers == old(store.ledgers)
    ensures r.Ok? ==>
              && store.nextId !in old(store.ledgers) && store.nextId in store.ledgers
              && store.ledgers == old(store.ledgers)[store.nextId := store.ledgers[store.nextId]]
              && r.value.state == Open && r.value.next == 0
              && r.value.fragments == store.ledgers[store.nextId].fragments
    ensures r.Ok? && options.writeQuorum <= 255 && Distinct(ensemble) && options.writeQuorum <= |ensemble| ==>
              forall nodes | Empty(nodes) :: Created(Fresh(r.value.Value(), nodes))
  {
    var created := store.CreateLedger(options, ensemble, now);
    if created.Err? {
      return Err(created.error);
    }
    forall nodes | Empty(nodes) {
      NewLedgerStartsLog(created.value, options, ensemble, nodes);
    }
    var handle := new LedgerHandle(created.value);
    r := Ok(handle);
  }
}
