/** The node after `recover`: it keeps the running invariant, so whatever was acknowledged before the
    crash stays readable, and `fence_ledger` still bounds every acknowledged entry id. */
module Restart {
  import opened Words
  import opened Records
  import opened Scanning
  import opened BatchFiles
  import opened EntryCache
  import opened Recovery
  import opened RecoveryLaws
  import opened NodeRun
  import opened NodeInvariant
  import opened Durability
  import opened CrashSafety
  import opened Resume

  /** The active file with the offset at which the journal goes on: bytes behind it are overwritten, and
      an offset behind the end leaves a hole. */
  function Resumed(data: Bytes, at: nat): Seg {
    if at <= |data| then Seg(data[..at], [], data[at..]) else Seg(data + Zeros(at - |data|), [], [])
  }

  /** The first batch that follows is written at that offset. */
  lemma ResumedWrites(data: Bytes, at: nat, batch: seq<Rec>)
    ensures FileBytes(AppendBatch(Resumed(data, at), batch)) == WriteAt(data, at, BatchBytes(batch))
  {
    hide BatchBytes;
    FileOfOne(batch);
    assert [] + [batch] == [batch];
  }

  /** The state a restarted node serves from: recovered files and indexes, the active WAL resumed at some
      offset, a new active EntrySegment, empty `hi_entry`, and the fences loaded from disk. */
  function Restarted(r: Store, at: nat, intent: map<Key, Bytes>, acked: set<Key>, fences: set<u64>): Node {
    Node(intent,
         seq(|r.wals|, i requires 0 <= i < |r.wals| =>
           if i == |r.wals| - 1 then Resumed(r.wals[i], at) else Seg(r.wals[i], [], [])),
         seq(|r.ents|, i requires 0 <= i < |r.ents| => Seg(r.ents[i], [], [])) + [EMPTY_SEG],
         r.entryIndex, r.walIndex, r.cache, Idle, map[], map[], acked, map[], fences)
  }

  lemma RestartedIndexOk(n: Node, d: Store, at: nat, fences: set<u64>)
    requires Inv(n) && Durable(n) && CrashImage(n, d)
    ensures var r := Recover(d);
            IndexOk(Restarted(r, at, n.intent, n.acked, fences).ents, r.entryIndex, n.intent)
  {
    hide Inv, Durable, CrashImage, ScanFrom, EntsUpTo, WalsUpTo, Decode, FoundAt;
    var mid, r := EntsUpTo(d, |d.ents|), Recover(d);
    EntsFrame(d, |d.ents|);
    WalsFrame(mid, |mid.wals|);
    var segs := Restarted(r, at, n.intent, n.acked, fences).ents;
    forall k | k in r.entryIndex ensures LocOk(segs, r.entryIndex[k], k, n.intent) {
      var loc := r.entryIndex[k];
      PhaseOneLocates(n, d, k);
      LocatedDecodes(d, loc, Rec(k, n.intent[k]));
      FoundAtIn(d, loc, Rec(k, n.intent[k]));
      assert Stable(segs[loc.segment]) == r.ents[loc.segment];
    }
  }

  lemma FoundAtIn(d: Store, loc: Loc, rec: Rec)
    requires FoundAt(d, loc, rec)
    ensures loc.segment < |d.ents| && loc.length == RecLen(rec)
  {
  }

  /** A restarted node satisfies the invariant of every run, with everything acknowledged before the
      crash still acknowledged. */
  lemma RestartKeeps(n: Node, d: Store, at: nat)
    requires Inv(n) && Durable(n) && CrashImage(n, d)
    ensures var s := Restarted(Recover(d), at, n.intent, n.acked, n.fences);
            Inv(s) && s.flush == Idle && s.walIndex.Keys <= s.cache.hot.Keys
  {
    hide Durable, CrashImage, ScanFrom, EntsUpTo, WalsUpTo, Recover, FlushOk, AppendsOk, ReadersOk, IndexOk, Decode,
         Cache.View, Cache.Agrees;
    var r := Recover(d);
    var s := Restarted(r, at, n.intent, n.acked, n.fences);
    RecoveryRestores(n, d);
    RestartedIndexOk(n, d, at, n.fences);
    SameCounts(n, d);
    EmptyRunOk(s);
    HotView(s.cache);
  }

  lemma HotView(cache: Cache)
    requires cache.warm == map[]
    ensures cache.View().Keys == cache.hot.Keys
  {
  }

  lemma SameCounts(n: Node, d: Store)
    requires Inv(n) && CrashImage(n, d)
    ensures |Recover(d).wals| == |n.wals| > 0 && |Recover(d).ents| == |n.ents|
  {
    hide ScanFrom, Image, FlushOk, AppendsOk, ReadersOk, IndexOk, EntsUpTo, WalsUpTo;
    EntsFrame(d, |d.ents|);
    WalsFrame(EntsUpTo(d, |d.ents|), |d.wals|);
  }

  lemma EmptyRunOk(s: Node)
    requires s.flush == Idle && s.appends == map[] && s.readers == map[] && s.ents != [] && s.cache.warm == map[]
    ensures FlushOk(s.flush, s.ents, s.cache.warm.Keys, s.entryIndex.Keys, s.intent)
    ensures AppendsOk(s.appends, s.intent, Readable(s))
    ensures ReadersOk(s.readers, Readable(s), s.entryIndex.Keys, s.walIndex.Keys, s.ents, s.intent)
  {
  }

  /** Crash safety carried on: run from an empty directory, crash at any step, recover, and run on, at
      whatever offset the journal resumes.
      No later read of an entry acknowledged before the crash ends in EntryNotFound, every read that
      returns gives the bytes submitted for its key, and only a record that does not fit two blocks ends
      in an error. */
  lemma ReadsAfterCrash(before: seq<Step>, d: Store, at: nat, after: seq<Step>, r: nat)
    requires Legal(FRESH, before) && CrashImage(RunFrom(FRESH, before), d)
    requires var n := RunFrom(FRESH, before);
             var s := Restarted(Recover(d), at, n.intent, n.acked, n.fences);
             Legal(s, after) && r in RunFrom(s, after).readers
    ensures var n := RunFrom(FRESH, before);
            var m := RunFrom(Restarted(Recover(d), at, n.intent, n.acked, n.fences), after);
            var read := m.readers[r];
            && n.acked <= m.acked
            && Answered(read, m.intent)
            && (forall k <- n.acked :: k in n.intent && k in m.intent && m.intent[k] == n.intent[k])
  {
    hide Inv, Enabled, Next, Durable, CrashImage, Recover;
    FreshIsGood();
    RunKeeps(FRESH, before);
    RunDurable(FRESH, before);
    var n := RunFrom(FRESH, before);
    var s := Restarted(Recover(d), at, n.intent, n.acked, n.fences);
    RestartKeeps(n, d, at);
    ReadsLinearise(s, after, r);
    AckedStays(s, after);
    AckedIntended(n);
  }

  lemma AckedIntended(n: Node)
    requires Inv(n)
    ensures forall k <- n.acked :: k in n.intent
  {
    hide IntentOk, SegsOk, FlushOk, AppendsOk, BoundedOk, ReadersOk;
  }

  lemma AckedStaysStep(n: Node, s: Step)
    requires Enabled(n, s)
    ensures n.acked <= Next(n, s).acked && IntentGrows(n.intent, Next(n, s).intent)
  {
    hide ReadFrom, BatchOf, AppendBatch, Placed, FileBytes, Stable, BatchBytes, RaiseHi, AllQueued, Lists, Writable,
         Cache.View, Cache.Insert, Cache.Drain, Cache.Evict, RecLen, SetLast, Last;
    match s
    case Submit(_, _) =>
    case JournalWrite(_) =>
    case JournalFail(_, _) =>
    case CacheEntry(_) =>
    case Ack(_) =>
    case Drain(_) =>
    case FlushWrite =>
    case FlushSync =>
    case FlushDie(_) =>
    case IndexEntry =>
    case DropWal =>
    case Evict =>
    case _ =>
  }

  lemma {:induction false} AckedStays(n: Node, steps: seq<Step>)
    requires Legal(n, steps)
    ensures n.acked <= RunFrom(n, steps).acked && IntentGrows(n.intent, RunFrom(n, steps).intent)
    decreases steps
  {
    hide Enabled, Next;
    if steps != [] {
      AckedStaysStep(n, steps[0]);
      AckedStays(Next(n, steps[0]), steps[1..]);
    }
  }
}
