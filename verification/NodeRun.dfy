/**
 * One storage node as a state machine (storage/node.rs, lsmc_journal.rs, entry_cache.rs,
 * tiered_reader.rs). Appends, journal batches, the flush loop and reads interleave step by step;
 * a lookup in the cache and a later lookup in an index are separate steps.
 */
module NodeRun {
  import opened Words
  import opened Records
  import opened BatchFiles
  import opened EntryCache
  import opened Recovery
  import opened Blocks

  /** A segment file: bytes found at start-up, batches written and synced since, and whatever an
      unfinished or failed write left behind them. */
  datatype Seg = Seg(base: Bytes, batches: seq<seq<Rec>>, tail: Bytes)

  function Stable(s: Seg): Bytes {
    s.base + FileOf(s.batches)
  }

  function FileBytes(s: Seg): Bytes {
    Stable(s) + s.tail
  }

  const EMPTY_SEG := Seg([], [], [])

  /** An `add_entry` call past its duplicate check. */
  datatype Stage = Queued | Journaled | Cached
  datatype Append = Append(rec: Rec, stage: Stage)

  /** Where the flush loop stands. `Dead`: it returned an error. */
  datatype Flush =
    | Idle
    | Drained(entries: seq<Rec>)
    | Written(entries: seq<Rec>)
    | Indexing(entries: seq<Rec>, at: nat, next: nat, inserted: bool)
    | Sealing
    | Dead

  /** Where a `read_entry` call stands. */
  datatype ReadStage =
    | AtCache
    | AtIndex
    | AtEntry(loc: Loc)
    | AtWalIndex
    | AtWal(loc: Loc)
    | Returned(payload: Bytes)
    | NotFound
    | Failed(loc: Loc)

  /** `expects`: the key was acknowledged before the read began. */
  datatype Read = Read(key: Key, expects: bool, stage: ReadStage)

  datatype Node = Node(
    intent: map<Key, Bytes>,
    wals: seq<Seg>,
    ents: seq<Seg>,
    entryIndex: Index,
    walIndex: Index,
    cache: Cache,
    flush: Flush,
    appends: map<nat, Append>,
    readers: map<nat, Read>,
    acked: set<Key>,
    hi: map<u64, u64>,
    fences: set<u64>)

  datatype Step =
    | Submit(id: nat, rec: Rec)
    | AckDuplicate(key: Key)
    | JournalWrite(ids: seq<nat>)
    | JournalFail(ids: seq<nat>, left: Bytes)
    | JournalSeal
    | CacheEntry(id: nat)
    | Ack(id: nat)
    | Drain(entries: seq<Rec>)
    | FlushWrite
    | FlushSync
    | FlushDie(left: Bytes)
    | IndexEntry
    | DropWal
    | FlushDone(seal: bool)
    | Evict
    | Fence(ledger: u64)
    | StartRead(read: nat, key: Key)
    | ReadCache(read: nat)
    | ReadIndex(read: nat)
    | ReadEntry(read: nat)
    | ReadWalIndex(read: nat)
    | ReadWal(read: nat)

  // ── Steps ─────────────────────────────────────────────────────────────────

  function Last(segs: seq<Seg>): Seg
    requires segs != []
  {
    segs[|segs| - 1]
  }

  function SetLast(segs: seq<Seg>, s: Seg): (r: seq<Seg>)
    requires segs != []
  {
    segs[|segs| - 1 := s]
  }

  predicate AllQueued(n: Node, ids: seq<nat>) {
    && (forall i :: 0 <= i < |ids| ==> ids[i] in n.appends && n.appends[ids[i]].stage == Queued)
    && (forall i, j :: 0 <= i < j < |ids| ==> ids[i] != ids[j])
  }

  function BatchOf(n: Node, ids: seq<nat>): (rs: seq<Rec>)
    requires AllQueued(n, ids)
    ensures |rs| == |ids|
  {
    seq(|ids|, i requires 0 <= i < |ids| => n.appends[ids[i]].rec)
  }

  ghost predicate Enabled(n: Node, s: Step) {
    && n.wals != [] && n.ents != []
    && match s
       case Submit(id, rec) =>
         && id !in n.appends && rec.key.ledger !in n.fences && Writable(rec)
         && (rec.key in n.intent ==> n.intent[rec.key] == rec.payload)
       case AckDuplicate(k) =>
         k.ledger !in n.fences && (k in n.cache.View() || k in n.entryIndex || k in n.walIndex)
       case JournalWrite(ids) => ids != [] && AllQueued(n, ids)
       case JournalFail(ids, _) => AllQueued(n, ids)
       case JournalSeal => true
       case CacheEntry(id) => id in n.appends && n.appends[id].stage == Journaled
       case Ack(id) => id in n.appends && n.appends[id].stage == Cached
       case Drain(entries) => n.flush == Idle && n.cache.hot != map[] && Lists(entries, n.cache.hot)
       case FlushWrite => n.flush.Drained?
       case FlushSync => n.flush.Written?
       case FlushDie(_) => true
       case IndexEntry => n.flush.Indexing? && !n.flush.inserted && n.flush.next < |n.flush.entries|
       case DropWal => n.flush.Indexing? && n.flush.inserted && n.flush.next < |n.flush.entries|
       case FlushDone(_) => n.flush.Indexing? && n.flush.next == |n.flush.entries|
       case Evict => n.flush == Sealing
       case Fence(_) => true
       case StartRead(r, _) => r !in n.readers
       case ReadCache(r) => r in n.readers && n.readers[r].stage == AtCache
       case ReadIndex(r) => r in n.readers && n.readers[r].stage == AtIndex
       case ReadEntry(r) => r in n.readers && n.readers[r].stage.AtEntry? && n.readers[r].stage.loc.segment < |n.ents|
       case ReadWalIndex(r) => r in n.readers && n.readers[r].stage == AtWalIndex
       case ReadWal(r) => r in n.readers && n.readers[r].stage.AtWal? && n.readers[r].stage.loc.segment < |n.wals|
  }

  function RaiseHi(hi: map<u64, u64>, k: Key): map<u64, u64> {
    hi[k.ledger := if k.ledger in hi && hi[k.ledger] > k.entry then hi[k.ledger] else k.entry]
  }

  /** A write at the end of the synced bytes replaces what a failed write left there. */
  function AppendBatch(s: Seg, batch: seq<Rec>): Seg {
    var n := |BatchBytes(batch)|;
    Seg(s.base, s.batches + [batch], if |s.tail| <= n then [] else s.tail[n..])
  }

  function MoveRead(n: Node, r: nat, stage: ReadStage): Node
    requires r in n.readers
  {
    n.(readers := n.readers[r := n.readers[r].(stage := stage)])
  }

  /** The tiered reader on a local file: the one or two blocks at the location, decoded. */
  function ReadFrom(data: Bytes, loc: Loc): ReadStage {
    match Decode(Assemble(data, loc), loc.offset - BlockStart(loc.offset))
    case Whole(rec) => Returned(rec.payload)
    case Torn => Failed(loc)
  }

  ghost function Next(n: Node, s: Step): Node
    requires Enabled(n, s)
  {
    match s
    case Submit(id, rec) =>
      n.(intent := n.intent[rec.key := rec.payload], appends := n.appends[id := Append(rec, Queued)])
    case AckDuplicate(k) => n.(acked := n.acked + {k})
    case JournalWrite(ids) =>
      n.(wals := SetLast(n.wals, AppendBatch(Last(n.wals), BatchOf(n, ids))),
         appends := map id | id in n.appends ::
           if id in ids then n.appends[id].(stage := Journaled) else n.appends[id])
    case JournalFail(ids, left) =>
      n.(wals := SetLast(n.wals, Last(n.wals).(tail := left)), appends := n.appends - (set id <- ids))
    case JournalSeal => n.(wals := n.wals + [EMPTY_SEG])
    case CacheEntry(id) =>
      var rec := n.appends[id].rec;
      n.(hi := RaiseHi(n.hi, rec.key), cache := n.cache.Insert(rec.key, rec.payload),
         appends := n.appends[id := Append(rec, Cached)])
    case Ack(id) => n.(acked := n.acked + {n.appends[id].rec.key}, appends := n.appends - {id})
    case Drain(entries) => n.(cache := n.cache.Drain(), flush := Drained(entries))
    case FlushWrite =>
      var entries := n.flush.entries;
      n.(ents := SetLast(n.ents, Last(n.ents).(tail := BatchBytes(entries))), flush := Written(entries))
    case FlushSync =>
      var entries := n.flush.entries;
      n.(ents := SetLast(n.ents, AppendBatch(Last(n.ents), entries)),
         flush := Indexing(entries, |Stable(Last(n.ents))|, 0, false))
    case FlushDie(left) =>
      n.(ents := SetLast(n.ents, Last(n.ents).(tail := left)), flush := Dead)
    case IndexEntry =>
      var i := n.flush.next;
      var rec := n.flush.entries[i];
      var pos := Placed(n.flush.at, n.flush.entries)[i].pos;
      n.(entryIndex := n.entryIndex[rec.key := Loc(|n.ents| - 1, pos, RecLen(rec))],
         flush := n.flush.(inserted := true))
    case DropWal =>
      n.(walIndex := n.walIndex - {n.flush.entries[n.flush.next].key},
         flush := n.flush.(next := n.flush.next + 1, inserted := false))
    case FlushDone(seal) => n.(flush := if seal then Sealing else Idle)
    case Evict => n.(cache := n.cache.Evict(), ents := n.ents + [EMPTY_SEG], flush := Idle)
    case Fence(ledger) => n.(fences := n.fences + {ledger})
    case StartRead(r, k) => n.(readers := n.readers[r := Read(k, k in n.acked, AtCache)])
    case ReadCache(r) =>
      var k := n.readers[r].key;
      MoveRead(n, r, if k in n.cache.hot then Returned(n.cache.hot[k])
                     else if k in n.cache.warm then Returned(n.cache.warm[k])
                     else AtIndex)
    case ReadIndex(r) =>
      var k := n.readers[r].key;
      MoveRead(n, r, if k in n.entryIndex then AtEntry(n.entryIndex[k]) else AtWalIndex)
    case ReadEntry(r) =>
      var loc := n.readers[r].stage.loc;
      MoveRead(n, r, ReadFrom(FileBytes(n.ents[loc.segment]), loc))
    case ReadWalIndex(r) =>
      var k := n.readers[r].key;
      MoveRead(n, r, if k in n.walIndex then AtWal(n.walIndex[k]) else NotFound)
    case ReadWal(r) =>
      var loc := n.readers[r].stage.loc;
      MoveRead(n, r, ReadFrom(FileBytes(n.wals[loc.segment]), loc))
  }

  /** A run of the node: every step is enabled where it happens. */
  ghost predicate Legal(n: Node, steps: seq<Step>)
    decreases steps
  {
    steps == [] || (Enabled(n, steps[0]) && Legal(Next(n, steps[0]), steps[1..]))
  }

  ghost function RunFrom(n: Node, steps: seq<Step>): Node
    requires Legal(n, steps)
    decreases steps
  {
    if steps == [] then n else RunFrom(Next(n, steps[0]), steps[1..])
  }

  lemma NoRun(n: Node)
    ensures Legal(n, []) && RunFrom(n, []) == n
  {
  }

  lemma RunCons(n: Node, s: Step, rest: seq<Step>)
    requires Enabled(n, s) && Legal(Next(n, s), rest)
    ensures Legal(n, [s] + rest) && RunFrom(n, [s] + rest) == RunFrom(Next(n, s), rest)
  {
    hide Enabled, Next;
    assert ([s] + rest)[1..] == rest;
  }

  lemma {:induction false} RunTwice(n: Node, a: seq<Step>, b: seq<Step>)
    requires Legal(n, a) && Legal(RunFrom(n, a), b)
    ensures Legal(n, a + b) && RunFrom(n, a + b) == RunFrom(RunFrom(n, a), b)
    decreases a
  {
    hide Enabled, Next;
    if a == [] {
      assert a + b == b;
    } else {
      RunTwice(Next(n, a[0]), a[1..], b);
      assert (a + b)[1..] == a[1..] + b;
    }
  }

  /** A node started on an empty data directory. */
  const FRESH := Node(map[], [EMPTY_SEG], [EMPTY_SEG], map[], map[], Cache(map[], map[]), Idle,
                      map[], map[], {}, map[], {})
}
