/** Keys of the location partitions (storage/fjall.rs): big-endian, so that the store's byte order is
    (ledger, entry) order and one ledger is one inclusive key range. */
module Keys {
  import opened Words
  import opened Records
  import opened Recovery

  function EncodeKey(k: Key): (b: Bytes)
    ensures |b| == 16
  {
    Be(8, k.ledger) + Be(8, k.entry)
  }

  datatype DecodedKey = Corrupt | Ok(key: Key)

  function DecodeKey(b: Bytes): (d: DecodedKey)
  {
    if |b| < 16 then Corrupt else Ok(Key(U64FromBe(b[..8]), U64FromBe(b[8..16])))
  }

  /** The two are inverse to each other on 16-byte keys. */
  lemma KeyRoundTrip(k: Key, b: Bytes)
    ensures DecodeKey(EncodeKey(k)) == Ok(k)
    ensures |b| == 16 ==> DecodeKey(b).Ok? && EncodeKey(DecodeKey(b).key) == b
    ensures DecodeKey(b).Corrupt? <==> |b| < 16
  {
    hide Be, FromBe;
    Pow256Values();
    FromBeOfBe(8, k.ledger);
    FromBeOfBe(8, k.entry);
    var e := EncodeKey(k);
    assert e[..8] == Be(8, k.ledger) && e[8..16] == Be(8, k.entry);
    if |b| == 16 {
      assert b == b[..8] + b[8..16];
    }
  }

  // ── Order ─────────────────────────────────────────────────────────────────

  /** The store's key order: lexicographic on bytes. */
  predicate LexLess(a: Bytes, b: Bytes) {
    b != [] && (a == [] || a[0] < b[0] || (a[0] == b[0] && LexLess(a[1..], b[1..])))
  }

  lemma {:induction false} LexIrreflexive(a: Bytes)
    ensures !LexLess(a, a)
  {
    if a != [] {
      LexIrreflexive(a[1..]);
    }
  }

  lemma {:induction false} LexAsymmetric(a: Bytes, b: Bytes)
    requires LexLess(a, b)
    ensures !LexLess(b, a)
  {
    if a != [] && a[0] == b[0] {
      LexAsymmetric(a[1..], b[1..]);
    }
  }

  lemma {:induction false} LexExtend(a: Bytes, b: Bytes, c: Bytes, d: Bytes)
    requires |a| == |b| && LexLess(a, b)
    ensures LexLess(a + c, b + d)
  {
    if a[0] == b[0] {
      LexExtend(a[1..], b[1..], c, d);
      assert (a + c)[1..] == a[1..] + c && (b + d)[1..] == b[1..] + d;
    }
  }

  lemma {:induction false} LexSamePrefix(p: Bytes, a: Bytes, b: Bytes)
    requires LexLess(a, b)
    ensures LexLess(p + a, p + b)
  {
    if p == [] {
      assert p + a == a && p + b == b;
    } else {
      LexSamePrefix(p[1..], a, b);
      assert (p + a)[1..] == p[1..] + a && (p + b)[1..] == p[1..] + b;
    }
  }

  lemma {:induction false} BeOrder(n: nat, x: nat, y: nat)
    requires x < y < Pow256(n)
    ensures LexLess(Be(n, x), Be(n, y))
  {
    var a, b := Be(n - 1, x / 256), Be(n - 1, y / 256);
    if x / 256 < y / 256 {
      BeOrder(n - 1, x / 256, y / 256);
      LexExtend(a, b, [x % 256], [y % 256]);
    } else {
      assert x / 256 == y / 256 && x % 256 < y % 256;
      LexSamePrefix(a, [x % 256], [y % 256]);
    }
  }

  predicate KeyLess(a: Key, b: Key) {
    a.ledger < b.ledger || (a.ledger == b.ledger && a.entry < b.entry)
  }

  lemma KeyLessEncodes(a: Key, b: Key)
    requires KeyLess(a, b)
    ensures LexLess(EncodeKey(a), EncodeKey(b))
  {
    hide Be, LexLess;
    Pow256Values();
    if a.ledger < b.ledger {
      BeOrder(8, a.ledger, b.ledger);
      LexExtend(Be(8, a.ledger), Be(8, b.ledger), Be(8, a.entry), Be(8, b.entry));
    } else {
      BeOrder(8, a.entry, b.entry);
      LexSamePrefix(Be(8, a.ledger), Be(8, a.entry), Be(8, b.entry));
    }
  }

  /** Byte order of encoded keys is exactly (ledger, entry) order, and the encoding is injective. */
  lemma KeyOrder(a: Key, b: Key)
    ensures LexLess(EncodeKey(a), EncodeKey(b)) <==> KeyLess(a, b)
    ensures EncodeKey(a) == EncodeKey(b) <==> a == b
  {
    hide EncodeKey, LexLess;
    KeyRoundTrip(a, []);
    KeyRoundTrip(b, []);
    if KeyLess(a, b) {
      KeyLessEncodes(a, b);
    } else if KeyLess(b, a) {
      KeyLessEncodes(b, a);
      LexAsymmetric(EncodeKey(b), EncodeKey(a));
    } else {
      LexIrreflexive(EncodeKey(a));
    }
  }

  // ── Range scans ───────────────────────────────────────────────────────────

  datatype Item = Item(key: Bytes, loc: Loc)

  /** An ordered partition that stores `index`: its iteration order is the byte order of keys. */
  ghost predicate Stores(items: seq<Item>, index: Index) {
    && (forall i, j :: 0 <= i < j < |items| ==> LexLess(items[i].key, items[j].key))
    && (forall i :: 0 <= i < |items| ==> IsItem(items[i], index))
    && (forall k <- index :: Item(EncodeKey(k), index[k]) in items)
  }

  ghost predicate IsItem(it: Item, index: Index) {
    |it.key| == 16 && DecodeKey(it.key).Ok? && DecodeKey(it.key).key in index
    && index[DecodeKey(it.key).key] == it.loc
  }

  /** `start..=end` of one ledger's range. */
  predicate InRange(b: Bytes, ledger: u64) {
    var start, end := EncodeKey(Key(ledger, 0)), EncodeKey(Key(ledger, U64_MAX));
    (start == b || LexLess(start, b)) && (b == end || LexLess(b, end))
  }

  /** The inclusive byte range holds exactly the ledger's keys. */
  lemma RangeIsLedger(b: Bytes, ledger: u64)
    requires |b| == 16
    ensures DecodeKey(b).Ok?
    ensures InRange(b, ledger) <==> DecodeKey(b).key.ledger == ledger
  {
    hide EncodeKey, DecodeKey, LexLess;
    KeyRoundTrip(Key(0, 0), b);
    var k := DecodeKey(b).key;
    KeyOrder(Key(ledger, 0), k);
    KeyOrder(k, Key(ledger, U64_MAX));
  }

  ghost predicate Ascending(out: seq<(u64, Loc)>) {
    forall i, j :: 0 <= i < j < |out| ==> out[i].0 < out[j].0
  }

  /** The first `n` items, filtered to the range. */
  function RangeUpTo(items: seq<Item>, ledger: u64, n: nat): (out: seq<(u64, Loc)>)
    requires n <= |items| && forall i :: 0 <= i < |items| ==> |items[i].key| == 16
  {
    if n == 0 then []
    else
      var it := items[n - 1];
      RangeIsLedger(it.key, ledger);
      RangeUpTo(items, ledger, n - 1)
        + if InRange(it.key, ledger) then [(DecodeKey(it.key).key.entry, it.loc)] else []
  }

  lemma {:induction false} RangeFrom(items: seq<Item>, ledger: u64, n: nat, e: (u64, Loc))
    requires n <= |items| && forall i :: 0 <= i < |items| ==> |items[i].key| == 16
    ensures e in RangeUpTo(items, ledger, n) <==> exists m :: 0 <= m < n && IsEntry(items[m], ledger, e)
  {
    hide EncodeKey, DecodeKey, LexLess, InRange;
    if n > 0 {
      RangeFrom(items, ledger, n - 1, e);
      RangeIsLedger(items[n - 1].key, ledger);
    }
  }

  lemma {:induction false} RangeSorted(items: seq<Item>, index: Index, ledger: u64, n: nat)
    requires Stores(items, index) && n <= |items| && forall i :: 0 <= i < |items| ==> |items[i].key| == 16
    ensures Ascending(RangeUpTo(items, ledger, n))
  {
    hide EncodeKey, DecodeKey, LexLess, InRange, Stores;
    if n > 0 {
      RangeSorted(items, index, ledger, n - 1);
      RangeIsLedger(items[n - 1].key, ledger);
      var before := RangeUpTo(items, ledger, n - 1);
      if InRange(items[n - 1].key, ledger) {
        forall i | 0 <= i < |before| ensures before[i].0 < DecodeKey(items[n - 1].key).key.entry {
          RangeFrom(items, ledger, n - 1, before[i]);
          var m :| 0 <= m < n - 1 && IsEntry(items[m], ledger, before[i]);
          ItemOrder(items, index, m, n - 1);
        }
      } else {
        assert RangeUpTo(items, ledger, n) == before;
      }
    }
  }

  /** `scan_ledger_locations`: exactly one ledger's entries, in entry order. */
  method ScanLedgerLocations(items: seq<Item>, ghost index: Index, ledger: u64) returns (out: seq<(u64, Loc)>)
    requires Stores(items, index)
    ensures Ascending(out)
    ensures forall e: u64, loc :: (e, loc) in out <==> Key(ledger, e) in index && index[Key(ledger, e)] == loc
  {
    hide EncodeKey, DecodeKey, LexLess, InRange, Stores;
    assert forall i :: 0 <= i < |items| ==> |items[i].key| == 16 by { StoredKeys(items, index); }
    out := [];
    for n := 0 to |items|
      invariant out == RangeUpTo(items, ledger, n)
    {
      RangeIsLedger(items[n].key, ledger);
      if InRange(items[n].key, ledger) {
        out := out + [(DecodeKey(items[n].key).key.entry, items[n].loc)];
      }
    }
    RangeSorted(items, index, ledger, |items|);
    forall e: u64, loc ensures (e, loc) in out <==> Key(ledger, e) in index && index[Key(ledger, e)] == loc {
      RangeFrom(items, ledger, |items|, (e, loc));
      EntryStored(items, index, ledger, (e, loc));
    }
  }

  lemma StoredKeys(items: seq<Item>, index: Index)
    requires Stores(items, index)
    ensures forall i :: 0 <= i < |items| ==> |items[i].key| == 16
  {
    hide LexLess;
    forall i | 0 <= i < |items| ensures |items[i].key| == 16 {
      assert IsItem(items[i], index);
    }
  }

  lemma EntryStored(items: seq<Item>, index: Index, ledger: u64, e: (u64, Loc))
    requires Stores(items, index)
    ensures (exists m :: 0 <= m < |items| && IsEntry(items[m], ledger, e))
       <==> Key(ledger, e.0) in index && index[Key(ledger, e.0)] == e.1
  {
    hide EncodeKey, DecodeKey, LexLess;
    if m :| 0 <= m < |items| && IsEntry(items[m], ledger, e) {
      assert IsItem(items[m], index);
    }
    if Key(ledger, e.0) in index && index[Key(ledger, e.0)] == e.1 {
      var m :| 0 <= m < |items| && items[m] == Item(EncodeKey(Key(ledger, e.0)), e.1);
      KeyRoundTrip(Key(ledger, e.0), []);
      assert IsEntry(items[m], ledger, e);
    }
  }

  ghost predicate IsEntry(it: Item, ledger: u64, e: (u64, Loc)) {
    DecodeKey(it.key) == Ok(Key(ledger, e.0)) && it.loc == e.1
  }

  lemma ItemOrder(items: seq<Item>, index: Index, i: nat, j: nat)
    requires Stores(items, index) && i < j < |items|
    ensures DecodeKey(items[i].key).Ok? && DecodeKey(items[j].key).Ok?
    ensures KeyLess(DecodeKey(items[i].key).key, DecodeKey(items[j].key).key)
  {
    hide EncodeKey, DecodeKey, LexLess;
    assert IsItem(items[i], index) && IsItem(items[j], index);
    KeyRoundTrip(Key(0, 0), items[i].key);
    KeyRoundTrip(Key(0, 0), items[j].key);
    KeyOrder(DecodeKey(items[i].key).key, DecodeKey(items[j].key).key);
  }

  /** `next` is one past the largest entry id of the ledger, or 0. */
  ghost predicate IsNext(index: Index, ledger: u64, next: nat) {
    && (forall k <- index :: k.ledger == ledger ==> k.entry < next)
    && (next > 0 ==> next - 1 <= U64_MAX && Key(ledger, next - 1) in index)
  }

  lemma NextIsUnique(index: Index, ledger: u64, a: nat, b: nat)
    requires IsNext(index, ledger, a) && IsNext(index, ledger, b)
    ensures a == b
  {
    if a > 0 { assert Key(ledger, a - 1) in index; }
    if b > 0 { assert Key(ledger, b - 1) in index; }
  }

  /** `get_next_entry_id`: the last key of the range, plus one (exact while that id is below
      u64::MAX; the addition overflows at it). */
  method GetNextEntryId(items: seq<Item>, ghost index: Index, ledger: u64) returns (next: nat)
    requires Stores(items, index)
    ensures IsNext(index, ledger, next)
  {
    hide EncodeKey, DecodeKey, LexLess, InRange;
    var n := |items|;
    while n > 0
      invariant 0 <= n <= |items|
      invariant forall m :: n <= m < |items| ==> !InRange(items[m].key, ledger)
    {
      n := n - 1;
      assert IsItem(items[n], index);
      RangeIsLedger(items[n].key, ledger);
      if InRange(items[n].key, ledger) {
        next := DecodeKey(items[n].key).key.entry + 1;
        LastIsMax(items, index, ledger, n);
        return;
      }
    }
    NoneInRange(items, index, ledger);
    next := 0;
  }

  lemma LastIsMax(items: seq<Item>, index: Index, ledger: u64, n: nat)
    requires Stores(items, index) && n < |items| && InRange(items[n].key, ledger)
    requires forall m :: n < m < |items| ==> !InRange(items[m].key, ledger)
    requires DecodeKey(items[n].key).Ok?
    ensures IsNext(index, ledger, DecodeKey(items[n].key).key.entry + 1)
  {
    hide EncodeKey, DecodeKey, LexLess, InRange;
    assert IsItem(items[n], index);
    RangeIsLedger(items[n].key, ledger);
    var top := DecodeKey(items[n].key).key;
    forall k | k in index && k.ledger == ledger ensures k.entry <= top.entry {
      var m := ItemOf(items, index, k);
      RangeIsLedger(items[m].key, ledger);
      if m < n {
        ItemOrder(items, index, m, n);
      }
    }
  }

  lemma ItemOf(items: seq<Item>, index: Index, k: Key) returns (m: nat)
    requires Stores(items, index) && k in index
    ensures m < |items| && DecodeKey(items[m].key) == Ok(k) && |items[m].key| == 16
  {
    hide EncodeKey, DecodeKey, LexLess;
    m :| 0 <= m < |items| && items[m] == Item(EncodeKey(k), index[k]);
    KeyRoundTrip(k, []);
  }

  lemma NoneInRange(items: seq<Item>, index: Index, ledger: u64)
    requires Stores(items, index) && forall m :: 0 <= m < |items| ==> !InRange(items[m].key, ledger)
    ensures IsNext(index, ledger, 0)
  {
    hide EncodeKey, DecodeKey, LexLess, InRange;
    forall k | k in index ensures k.ledger != ledger {
      var m := ItemOf(items, index, k);
      RangeIsLedger(items[m].key, ledger);
    }
  }
}
