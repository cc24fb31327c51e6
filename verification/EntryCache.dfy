/** The two-tier write buffer between the WAL and the EntrySegments (storage/entry_cache.rs). */
module EntryCache {
  import opened Words
  import opened Records

  /** `hot` waits for the next flush; `warm` is flushed or being flushed to the active segment. */
  datatype Cache = Cache(hot: map<Key, Bytes>, warm: map<Key, Bytes>) {

    /** What a reader sees: hot first, then warm. */
    function View(): map<Key, Bytes> {
      warm + hot
    }

    function Insert(k: Key, payload: Bytes): Cache {
      if k in warm then this else Cache(hot[k := payload], warm)
    }

    /** Every cached payload is the one its key was submitted with. */
    ghost predicate Agrees(intent: map<Key, Bytes>) {
      && (forall k <- hot :: k in intent && intent[k] == hot[k])
      && (forall k <- warm :: k in intent && intent[k] == warm[k])
    }

    lemma InsertIs(k: Key, payload: Bytes, intent: map<Key, Bytes>)
      requires Agrees(intent) && k in intent && intent[k] == payload
      ensures Insert(k, payload).warm == warm
      ensures Insert(k, payload).View().Keys == View().Keys + {k}
      ensures Insert(k, payload).Agrees(intent)
    {
    }

    function Drain(): Cache {
      Cache(map[], warm + hot)
    }

    function Evict(): Cache {
      Cache(hot, map[])
    }
  }

  function AsMap(entries: seq<Rec>): (m: map<Key, Bytes>) {
    if entries == [] then map[]
    else
      var last := |entries| - 1;
      AsMap(entries[..last])[entries[last].key := entries[last].payload]
  }

  lemma AsMapAppend(entries: seq<Rec>, r: Rec)
    ensures AsMap(entries + [r]) == AsMap(entries)[r.key := r.payload]
  {
    assert (entries + [r])[..|entries|] == entries;
  }

  /** The entries of a drain: every hot entry once, in some order. */
  ghost predicate Lists(entries: seq<Rec>, m: map<Key, Bytes>) {
    && AsMap(entries) == m
    && forall i, j :: 0 <= i < j < |entries| ==> entries[i].key != entries[j].key
  }

  lemma {:induction false} ListsIff(entries: seq<Rec>, m: map<Key, Bytes>, r: Rec)
    requires Lists(entries, m)
    ensures r in entries <==> r.key in m && m[r.key] == r.payload
  {
    if entries != [] {
      var last := |entries| - 1;
      var init := entries[..last];
      ListsIff(init, AsMap(init), r);
      assert entries == init + [entries[last]];
      var k := entries[last].key;
      assert k !in AsMap(init) by {
        if k in AsMap(init) {
          ListsIff(init, AsMap(init), Rec(k, AsMap(init)[k]));
          assert false;
        }
      }
    }
  }

  method ListEntries(m: map<Key, Bytes>) returns (entries: seq<Rec>)
    ensures Lists(entries, m)
  {
    entries := [];
    var todo, done := m.Keys, map[];
    while todo != {}
      invariant todo <= m.Keys && done.Keys == m.Keys - todo
      invariant forall k <- done :: done[k] == m[k]
      invariant AsMap(entries) == done
      invariant forall i :: 0 <= i < |entries| ==> entries[i].key in done
      invariant forall i, j :: 0 <= i < j < |entries| ==> entries[i].key != entries[j].key
      decreases |todo|
    {
      var k :| k in todo;
      AsMapAppend(entries, Rec(k, m[k]));
      entries, done, todo := entries + [Rec(k, m[k])], done[k := m[k]], todo - {k};
    }
    assert done == m;
  }

  lemma AddOne(m: map<Key, Bytes>, entries: seq<Rec>, r: Rec)
    ensures m + AsMap(entries + [r]) == (m + AsMap(entries))[r.key := r.payload]
  {
    hide AsMap;
    AsMapAppend(entries, r);
  }

  method AddAll(m: map<Key, Bytes>, entries: seq<Rec>) returns (r: map<Key, Bytes>)
    ensures r == m + AsMap(entries)
  {
    assert m + AsMap(entries[..0]) == m;
    hide AsMap;
    r := m;
    for i := 0 to |entries|
      invariant r == m + AsMap(entries[..i])
    {
      AddOne(m, entries[..i], entries[i]);
      assert entries[..i + 1] == entries[..i] + [entries[i]];
      r := r[entries[i].key := entries[i].payload];
    }
    assert entries[..|entries|] == entries;
  }

  class EntrySegmentCache {
    var hot: map<Key, Bytes>
    var warm: map<Key, Bytes>
    var hotBytes: nat
    const flushThreshold: nat

    constructor (threshold: nat)
      ensures Value() == Cache(map[], map[]) && hotBytes == 0 && flushThreshold == threshold
    {
      hot, warm, hotBytes, flushThreshold := map[], map[], 0, threshold;
    }

    function Value(): Cache
      reads this
    {
      Cache(hot, warm)
    }

    method Insert(k: Key, payload: Bytes)
      modifies this
      ensures Value() == old(Value()).Insert(k, payload)
      ensures warm == old(warm) && hot == if k in old(warm) then old(hot) else old(hot)[k := payload]
      ensures hotBytes == old(hotBytes) + if k in old(hot) || k in old(warm) then 0 else |payload|
    {
      if k in warm {
        return;
      }
      var isNew := k !in hot;
      hot := hot[k := payload];
      if isNew {
        hotBytes := hotBytes + |payload|;
      }
    }

    method Get(k: Key) returns (found: bool, payload: Bytes)
      ensures found <==> k in Value().View()
      ensures found ==> payload == Value().View()[k]
    {
      if k in hot {
        return true, hot[k];
      } else if k in warm {
        return true, warm[k];
      }
      return false, [];
    }

    /** Moves every hot entry to warm and returns them; no reader can tell. */
    method DrainHotToWarm() returns (entries: seq<Rec>)
      modifies this
      ensures Value() == old(Value()).Drain() && hotBytes == 0
      ensures hot == map[] && warm.Keys == old(warm.Keys) + old(hot.Keys)
      ensures Value().View() == old(Value()).View()
      ensures Lists(entries, old(hot))
    {
      hotBytes := 0;
      entries := ListEntries(hot);
      hot := map[];
      var merged := AddAll(warm, entries);
      warm := merged;
    }

    /** Forgets the warm tier: exactly the hot entries stay readable, and are counted as before. */
    method EvictWarm()
      modifies this`warm
      ensures hot == old(hot) && warm == map[] && hotBytes == old(hotBytes)
      ensures Value().View() == old(hot)
      ensures Value() == old(Value()).Evict()
    {
      warm := map[];
    }
  }
}
