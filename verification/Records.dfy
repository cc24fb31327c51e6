/**
 * Record framing shared by WAL segments and EntrySegments (storage/segment.rs):
 *
 *   [u32 LE payload_len][u64 BE ledger_id][u64 BE entry_id][payload][u32 LE checksum]
 *
 * Batches of records are zero-padded to an ALIGN boundary before they reach a file.
 */
module Records {
  import opened Words

  const RECORD_OVERHEAD: nat := 24
  const ALIGN: nat := 4096

  /** The checksum of a record's first four fields. Left without a value: every
      result holds whatever function CRC32 is. */
  const Checksum: Bytes -> u32

  datatype Key = Key(ledger: u64, entry: u64)

  datatype Rec = Rec(key: Key, payload: Bytes)

  function RecLen(r: Rec): (n: nat) {
    RECORD_OVERHEAD + |r.payload|
  }

  /** The length prefix can hold the payload's length. */
  predicate Storable(r: Rec) {
    |r.payload| < 0x1_0000_0000
  }

  function Body(r: Rec): (b: Bytes)
    ensures |b| == 20 + |r.payload|
  {
    Le(4, |r.payload|) + Be(8, r.key.ledger) + Be(8, r.key.entry) + r.payload
  }

  /** The bytes `AlignedBuffer::push` appends. */
  function Encode(r: Rec): (b: Bytes)
    ensures |b| == RecLen(r)
  {
    Body(r) + Le(4, Checksum(Body(r)))
  }

  datatype Decoded = Torn | Whole(rec: Rec)

  /** `decode_record`: the record at `pos`, or a torn write. The record length it
      also returns is always RecLen of the record. */
  function Decode(data: Bytes, pos: nat): (d: Decoded)
  {
    if pos + 4 > |data| then Torn
    else
      var len := FromLe(data[pos..pos + 4]);
      var total := RECORD_OVERHEAD + len;
      if pos + total > |data| then Torn
      else
        var key := Key(U64FromBe(data[pos + 4..pos + 12]), U64FromBe(data[pos + 12..pos + 20]));
        var rec := Rec(key, data[pos + 20..pos + 20 + len]);
        if FromLe(data[pos + 20 + len..pos + total]) != Checksum(Body(rec)) then Torn
        else Whole(rec)
  }

  ghost predicate Holds(data: Bytes, pos: nat, b: Bytes) {
    pos + |b| <= |data| && data[pos..pos + |b|] == b
  }

  /** `decode_record` inverts `push`, in both directions and for every checksum: it returns a
      record exactly when the record's encoding stands at that position. */
  lemma DecodeInvertsEncode(data: Bytes, pos: nat, r: Rec)
    ensures Decode(data, pos) == Whole(r) <==> Storable(r) && Holds(data, pos, Encode(r))
  {
    if Storable(r) && Holds(data, pos, Encode(r)) {
      DecodeOfEncode(data, pos, r);
    }
    if Decode(data, pos) == Whole(r) {
      EncodeOfDecode(data, pos);
    }
  }

  /** The fields of an encoded record, as slices of the bytes that hold it. */
  lemma EncodedFields(data: Bytes, pos: nat, r: Rec)
    requires Holds(data, pos, Encode(r))
    ensures var n := |r.payload|;
            && data[pos..pos + 4] == Le(4, n)
            && data[pos + 4..pos + 12] == Be(8, r.key.ledger)
            && data[pos + 12..pos + 20] == Be(8, r.key.entry)
            && data[pos + 20..pos + 20 + n] == r.payload
            && data[pos + 20 + n..pos + 24 + n] == Le(4, Checksum(Body(r)))
  {
    EncodeSlices(r);
    hide Encode, Body;
    var e, n := Encode(r), |r.payload|;
    SubHolds(data, pos, e, 0, 4);
    SubHolds(data, pos, e, 4, 12);
    SubHolds(data, pos, e, 12, 20);
    SubHolds(data, pos, e, 20, 20 + n);
    SubHolds(data, pos, e, 20 + n, 24 + n);
  }

  lemma EncodeSlices(r: Rec)
    ensures var e, n := Encode(r), |r.payload|;
            && e[0..4] == Le(4, n) && e[4..12] == Be(8, r.key.ledger) && e[12..20] == Be(8, r.key.entry)
            && e[20..20 + n] == r.payload && e[20 + n..24 + n] == Le(4, Checksum(Body(r)))
  {
    hide Le, Be;
  }

  lemma SubHolds(data: Bytes, pos: nat, b: Bytes, lo: nat, hi: nat)
    requires Holds(data, pos, b) && lo <= hi <= |b|
    ensures data[pos + lo..pos + hi] == b[lo..hi]
  {
    forall i | lo <= i < hi ensures data[pos + i] == b[i] {
      assert data[pos..pos + |b|][i] == b[i];
    }
  }

  lemma DecodeOfEncode(data: Bytes, pos: nat, r: Rec)
    requires Storable(r) && Holds(data, pos, Encode(r))
    ensures Decode(data, pos) == Whole(r)
  {
    hide Encode, Body, Le, Be, FromLe, FromBe;
    EncodedFields(data, pos, r);
    Pow256Values();
    FromLeOfLe(4, |r.payload|);
    FromLeOfLe(4, Checksum(Body(r)));
    FromBeOfBe(8, r.key.ledger);
    FromBeOfBe(8, r.key.entry);
  }

  lemma EncodeOfDecode(data: Bytes, pos: nat)
    requires Decode(data, pos).Whole?
    ensures var r := Decode(data, pos).rec; Storable(r) && Holds(data, pos, Encode(r))
  {
    var r := Decode(data, pos).rec;
    var n := |r.payload|;
    LeOfFromLe(data[pos..pos + 4]);
    LeOfFromLe(data[pos + 20 + n..pos + 24 + n]);
    Pow256Values();
    assert data[pos..pos + 24 + n] ==
           data[pos..pos + 4] + data[pos + 4..pos + 12] + data[pos + 12..pos + 20]
           + data[pos + 20..pos + 20 + n] + data[pos + 20 + n..pos + 24 + n];
  }

  /** What decodes in a prefix decodes the same in the whole. */
  lemma DecodeGrows(a: Bytes, b: Bytes, pos: nat)
    requires a <= b && Decode(a, pos).Whole?
    ensures Decode(b, pos) == Decode(a, pos)
  {
    hide Decode, Encode;
    var r := Decode(a, pos).rec;
    DecodeInvertsEncode(a, pos, r);
    assert b[pos..pos + RecLen(r)] == a[pos..pos + RecLen(r)];
    DecodeInvertsEncode(b, pos, r);
  }

  // ── Batches and files ─────────────────────────────────────────────────────

  function RoundUp(n: nat): (m: nat)
    ensures n <= m < n + ALIGN && m % ALIGN == 0
    ensures m == n <==> n % ALIGN == 0
  {
    (n + ALIGN - 1) / ALIGN * ALIGN
  }

  lemma RoundUpAfterAligned(base: nat, n: nat)
    requires base % ALIGN == 0
    ensures RoundUp(base + n) == base + RoundUp(n)
  {
  }

  function Zeros(n: nat): (z: Bytes)
    ensures |z| == n && AllZero(z)
  {
    seq(n, i => 0)
  }

  /** A write at an offset; one behind the end leaves a hole of zeros. */
  function WriteAt(file: Bytes, at: nat, bytes: Bytes): (after: Bytes)
    ensures |after| >= at + |bytes| && after[at..at + |bytes|] == bytes
  {
    if |file| < at then file + Zeros(at - |file|) + bytes
    else file[..at] + bytes + if at + |bytes| <= |file| then file[at + |bytes|..] else []
  }

  lemma WriteAtPrefix(file: Bytes, at: nat, bytes: Bytes)
    requires at <= |file|
    ensures WriteAt(file, at, bytes)[..at + |bytes|] == file[..at] + bytes
  {
  }

  function EncodeAll(rs: seq<Rec>): (b: Bytes) {
    if rs == [] then [] else Encode(rs[0]) + EncodeAll(rs[1..])
  }

  lemma {:induction false} EncodeAllAppend(rs: seq<Rec>, r: Rec)
    ensures EncodeAll(rs + [r]) == EncodeAll(rs) + Encode(r)
  {
    hide Encode;
    if rs == [] {
      assert [r][1..] == [];
    } else {
      var head, rest := Encode(rs[0]), rs[1..];
      calc {
        EncodeAll(rs + [r]);
        { assert (rs + [r])[1..] == rest + [r]; }
        head + EncodeAll(rest + [r]);
        { EncodeAllAppend(rest, r); }
        head + (EncodeAll(rest) + Encode(r));
        (head + EncodeAll(rest)) + Encode(r);
      }
    }
  }

  /** `padded_aligned`: the bytes with zeros up to the next ALIGN boundary. */
  function Padded(b: Bytes): (p: Bytes)
    ensures |p| == RoundUp(|b|)
  {
    b + Zeros(RoundUp(|b|) - |b|)
  }

  /** One batch as it reaches the file. */
  function BatchBytes(batch: seq<Rec>): (b: Bytes)
    ensures |b| % ALIGN == 0
  {
    Padded(EncodeAll(batch))
  }

  /** A file made of whole batches, each padded on its own. */
  function FileOf(batches: seq<seq<Rec>>): (b: Bytes) {
    if batches == [] then [] else BatchBytes(batches[0]) + FileOf(batches[1..])
  }

  lemma AlignedSum(a: nat, b: nat)
    requires a % ALIGN == 0 && b % ALIGN == 0
    ensures (a + b) % ALIGN == 0
  {
  }

  lemma {:induction false} FileOfAligned(batches: seq<seq<Rec>>)
    ensures |FileOf(batches)| % ALIGN == 0
  {
    hide BatchBytes;
    if batches != [] {
      FileOfAligned(batches[1..]);
      AlignedSum(|BatchBytes(batches[0])|, |FileOf(batches[1..])|);
    }
  }

  lemma {:induction false} FileOfAppend(batches: seq<seq<Rec>>, batch: seq<Rec>)
    ensures FileOf(batches + [batch]) == FileOf(batches) + BatchBytes(batch)
  {
    hide BatchBytes;
    if batches == [] {
      assert [batch][1..] == [];
    } else {
      var head, rest := BatchBytes(batches[0]), batches[1..];
      calc {
        FileOf(batches + [batch]);
        { assert (batches + [batch])[1..] == rest + [batch]; }
        head + FileOf(rest + [batch]);
        { FileOfAppend(rest, batch); }
        head + (FileOf(rest) + BatchBytes(batch));
        (head + FileOf(rest)) + BatchBytes(batch);
      }
    }
  }

  /** In-memory accumulation buffer. */
  class AlignedBuffer {
    var inner: Bytes

    constructor ()
      ensures inner == []
    {
      inner := [];
    }

    /** Appends a record; returns its offset in the buffer and its length as a u32. */
    method Push(ledger: u64, entry: u64, payload: Bytes) returns (start: nat, len: u32)
      modifies this
      ensures start == old(|inner|)
      ensures inner == old(inner) + Encode(Rec(Key(ledger, entry), payload))
      ensures len == (RECORD_OVERHEAD + |payload|) % 0x1_0000_0000
      ensures |payload| < 0x1_0000_0000 ==> Decode(inner, start) == Whole(Rec(Key(ledger, entry), payload))
    {
      start := |inner|;
      var head := Le(4, |payload|) + Be(8, ledger) + Be(8, entry) + payload;
      inner := inner + head;
      inner := inner + Le(4, Checksum(head));
      len := (RECORD_OVERHEAD + |payload|) % 0x1_0000_0000;
      ghost var r := Rec(Key(ledger, entry), payload);
      assert inner == old(inner) + Encode(r);
      if Storable(r) {
        assert inner[start..start + RecLen(r)] == Encode(r);
        DecodeInvertsEncode(inner, start, r);
      }
    }

    /** The buffer, then the fewest zeros that bring it to a multiple of ALIGN. */
    method PaddedAligned() returns (v: Bytes)
      ensures inner <= v && |v| % ALIGN == 0 && |v| < |inner| + ALIGN
      ensures AllZero(v[|inner|..])
      ensures v == Padded(inner)
    {
      v := inner + Zeros(RoundUp(|inner|) - |inner|);
    }
  }
}
