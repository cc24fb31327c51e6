/** The batching WAL journal (storage/lsmc_journal.rs): one write and one sync per batch, and an
    acknowledgement only after both. */
module Journal {
  import opened Words
  import opened Records
  import opened Scanning
  import opened BatchFiles

  const MAX_BATCH_BYTES: nat := 64 * 1024

  datatype Msg = Write(id: nat, rec: Rec) | Seal(id: nat)

  datatype Reply = Ok(segment: nat, offset: nat, length: nat) | Sealed(segment: nat) | Error

  /** What `write_at` and `sync_data` report for a batch. */
  datatype Io = WriteFailed | Wrote(count: nat, synced: bool)

  datatype Req = Req(id: nat, rec: Rec)

  function RecsOf(batch: seq<Req>): (rs: seq<Rec>)
    ensures |rs| == |batch|
  {
    seq(|batch|, i requires 0 <= i < |batch| => batch[i].rec)
  }

  lemma RecsOfAppend(batch: seq<Req>, r: Req)
    ensures RecsOf(batch + [r]) == RecsOf(batch) + [r.rec]
  {
  }

  // ── Where records of a batch land ─────────────────────────────────────────

  lemma {:induction false} PlacedShift(pos: nat, rs: seq<Rec>, i: nat)
    requires i < |rs|
    ensures Placed(pos, rs)[i].pos == pos + Placed(0, rs)[i].pos
    ensures Placed(pos, rs)[i].rec == rs[i]
    decreases rs
  {
    if i > 0 {
      PlacedShift(pos + RecLen(rs[0]), rs[1..], i - 1);
      PlacedShift(RecLen(rs[0]), rs[1..], i - 1);
    }
  }

  lemma {:induction false} PlacedAppend(pos: nat, rs: seq<Rec>, r: Rec)
    ensures Placed(pos, rs + [r]) == Placed(pos, rs) + [Found(pos + |EncodeAll(rs)|, r)]
    decreases rs
  {
    hide Encode;
    if rs == [] {
      assert ([] + [r])[1..] == [];
    } else {
      var later := pos + RecLen(rs[0]);
      assert pos + |EncodeAll(rs)| == later + |EncodeAll(rs[1..])|;
      hide EncodeAll;
      PlacedAppend(later, rs[1..], r);
      assert (rs + [r])[1..] == rs[1..] + [r] && (rs + [r])[0] == rs[0];
      assert Placed(pos, rs + [r]) == [Found(pos, rs[0])] + Placed(later, rs[1..] + [r]);
    }
  }

  /** Records of a batch follow one another inside it. */
  lemma {:induction false} PlacedOrdered(pos: nat, rs: seq<Rec>, i: nat, j: nat)
    requires i < j < |rs|
    ensures EndOf(Placed(pos, rs)[i]) <= Placed(pos, rs)[j].pos
    ensures EndOf(Placed(pos, rs)[j]) <= pos + |EncodeAll(rs)|
    decreases rs
  {
    hide Encode;
    PlacedInside(pos, rs, j);
    if i == 0 {
      PlacedInside(pos + RecLen(rs[0]), rs[1..], j - 1);
    } else {
      PlacedOrdered(pos + RecLen(rs[0]), rs[1..], i - 1, j - 1);
    }
  }

  lemma {:induction false} PlacedInside(pos: nat, rs: seq<Rec>, i: nat)
    requires i < |rs|
    ensures pos <= Placed(pos, rs)[i].pos && EndOf(Placed(pos, rs)[i]) <= pos + |EncodeAll(rs)|
    decreases rs
  {
    hide Encode;
    if i > 0 {
      PlacedInside(pos + RecLen(rs[0]), rs[1..], i - 1);
    }
  }

  // ── The journal's state and its steps ─────────────────────────────────────

  /** `batch`: requests taken from the channel and not answered yet. `writes` and `seals`: every
      request ever submitted. `synced`: how much of each file a successful sync covers. */
  datatype State = State(
    segId: nat,
    fileOffset: nat,
    files: map<nat, Bytes>,
    synced: map<nat, nat>,
    queue: seq<Msg>,
    batch: seq<Req>,
    replies: map<nat, Reply>,
    writes: map<nat, Rec>,
    seals: set<nat>)

  ghost predicate FilesOk(s: State) {
    && s.files.Keys == s.synced.Keys && s.segId in s.files
    && s.synced[s.segId] == s.fileOffset && s.fileOffset % ALIGN == 0
    && (forall f <- s.files :: f <= s.segId)
    && (forall f <- s.files :: s.synced[f] <= |s.files[f]|)
  }

  ghost predicate MsgOk(m: Msg, s: State) {
    match m
    case Write(id, rec) => id in s.writes && s.writes[id] == rec
    case Seal(id) => id in s.seals
  }

  function MsgIds(queue: seq<Msg>): (ids: seq<nat>)
    ensures |ids| == |queue|
  {
    seq(|queue|, i requires 0 <= i < |queue| => queue[i].id)
  }

  function ReqIds(batch: seq<Req>): (ids: seq<nat>)
    ensures |ids| == |batch|
  {
    seq(|batch|, i requires 0 <= i < |batch| => batch[i].id)
  }

  /** How often a request waits. */
  ghost function Waits(queue: seq<Msg>, batch: seq<Req>, id: nat): nat {
    multiset(MsgIds(queue))[id] + multiset(ReqIds(batch))[id]
  }

  ghost predicate Once(queue: seq<Msg>, batch: seq<Req>, answered: set<nat>, submitted: set<nat>) {
    forall id: nat :: Waits(queue, batch, id) + (if id in answered then 1 else 0)
                   == if id in submitted then 1 else 0
  }

  /** Every submitted request waits once or is answered once, never both. */
  ghost predicate Accounted(s: State) {
    && s.writes.Keys !! s.seals
    && (forall id <- s.writes :: Writable(s.writes[id]))
    && (forall i :: 0 <= i < |s.queue| ==> MsgOk(s.queue[i], s))
    && (forall i :: 0 <= i < |s.batch| ==> s.batch[i].id in s.writes && s.writes[s.batch[i].id] == s.batch[i].rec)
    && Once(s.queue, s.batch, s.replies.Keys, s.writes.Keys + s.seals)
  }

  /** An acknowledgement decodes to its request's record inside the synced bytes of its segment. */
  ghost predicate AckOk(r: Reply, rec: Rec, files: map<nat, Bytes>, synced: map<nat, nat>) {
    r.Ok? ==>
      && r.segment in files && r.segment in synced && synced[r.segment] <= |files[r.segment]|
      && r.length == RecLen(rec) && r.offset + r.length <= synced[r.segment]
      && Decode(files[r.segment][..synced[r.segment]], r.offset) == Whole(rec)
  }

  ghost predicate Apart(x: Reply, y: Reply) {
    x.Ok? && y.Ok? && x.segment == y.segment ==>
      x.offset + x.length <= y.offset || y.offset + y.length <= x.offset
  }

  ghost predicate AcksOk(s: State) {
    && (forall id <- s.replies :: s.replies[id].Ok? ==> id in s.writes)
    && (forall id <- s.replies :: id in s.writes ==> AckOk(s.replies[id], s.writes[id], s.files, s.synced))
    && (forall a <- s.replies, b <- s.replies :: a != b ==> Apart(s.replies[a], s.replies[b]))
  }

  ghost predicate Valid(s: State) {
    FilesOk(s) && Accounted(s) && AcksOk(s)
  }

  function Answer(replies: map<nat, Reply>, batch: seq<Req>, answers: seq<Reply>): map<nat, Reply>
    requires |batch| == |answers|
    decreases batch
  {
    if batch == [] then replies
    else
      var last := |batch| - 1;
      Answer(replies, batch[..last], answers[..last])[batch[last].id := answers[last]]
  }

  lemma {:induction false} AnswerKeys(replies: map<nat, Reply>, batch: seq<Req>, answers: seq<Reply>, id: nat)
    requires |batch| == |answers|
    ensures var r := Answer(replies, batch, answers);
            && (id in r <==> id in replies || id in ReqIds(batch))
            && (id !in ReqIds(batch) && id in replies ==> r[id] == replies[id])
    decreases batch
  {
    if batch != [] {
      var last := |batch| - 1;
      AnswerKeys(replies, batch[..last], answers[..last], id);
      assert ReqIds(batch) == ReqIds(batch[..last]) + [batch[last].id];
    }
  }

  lemma {:induction false} AnswerAt(replies: map<nat, Reply>, batch: seq<Req>, answers: seq<Reply>, i: nat)
    requires |batch| == |answers| && i < |batch|
    requires forall i, j :: 0 <= i < j < |batch| ==> batch[i].id != batch[j].id
    ensures var r := Answer(replies, batch, answers);
            batch[i].id in r && r[batch[i].id] == answers[i]
    decreases batch
  {
    var last := |batch| - 1;
    if i < last {
      AnswerAt(replies, batch[..last], answers[..last], i);
    }
  }

  /** The acknowledgements of a synced batch. */
  function Oks(s: State): (r: seq<Reply>)
    ensures |r| == |s.batch|
  {
    var rs := RecsOf(s.batch);
    var placed := Placed(0, rs);
    seq(|s.batch|, i requires 0 <= i < |s.batch| => Ok(s.segId, s.fileOffset + placed[i].pos, RecLen(rs[i])))
  }

  function Errors(n: nat): (r: seq<Reply>)
    ensures |r| == n
  {
    seq(n, i => Error)
  }

  function BatchSize(s: State): nat {
    |BatchBytes(RecsOf(s.batch))|
  }

  /** Write and sync both succeeded. */
  ghost function Succeed(s: State): State
    requires FilesOk(s)
  {
    var bytes := BatchBytes(RecsOf(s.batch));
    s.(files := s.files[s.segId := WriteAt(s.files[s.segId], s.fileOffset, bytes)],
       fileOffset := s.fileOffset + |bytes|,
       synced := s.synced[s.segId := s.fileOffset + |bytes|],
       replies := Answer(s.replies, s.batch, Oks(s)),
       batch := [])
  }

  /** The write failed, was short, or was not synced: anything may stand past the offset. */
  ghost function Fail(s: State, left: Bytes): State
    requires FilesOk(s)
  {
    s.(files := s.files[s.segId := s.files[s.segId][..s.fileOffset] + left],
       replies := Answer(s.replies, s.batch, Errors(|s.batch|)),
       batch := [])
  }

  ghost function Take(s: State): State
    requires s.queue != [] && s.queue[0].Write?
  {
    s.(queue := s.queue[1..], batch := s.batch + [Req(s.queue[0].id, s.queue[0].rec)])
  }

  ghost function ReplySeal(s: State, reply: Reply): State
    requires s.queue != [] && s.queue[0].Seal?
  {
    s.(queue := s.queue[1..], replies := s.replies[s.queue[0].id := reply])
  }

  /** `do_seal`: the active file keeps its id and bytes, a new file becomes active. */
  ghost function Rotated(s: State): State {
    s.(segId := s.segId + 1, fileOffset := 0, files := s.files[s.segId + 1 := []], synced := s.synced[s.segId + 1 := 0])
  }

  // ── Every step keeps the state valid ──────────────────────────────────────

  lemma FirstWaits(queue: seq<Msg>)
    requires queue != []
    ensures multiset(MsgIds(queue)) == multiset{queue[0].id} + multiset(MsgIds(queue[1..]))
  {
    assert MsgIds(queue) == [queue[0].id] + MsgIds(queue[1..]);
  }

  lemma TakeKeeps(s: State)
    requires Valid(s) && s.queue != [] && s.queue[0].Write?
    ensures Valid(Take(s))
  {
    hide AckOk, Apart, MsgIds, ReqIds;
    var t := Take(s);
    var m := s.queue[0];
    assert MsgOk(m, s);
    FirstWaits(s.queue);
    assert ReqIds(t.batch) == ReqIds(s.batch) + [m.id] by { ReqIdsAppend(s.batch, Req(m.id, m.rec)); }
    assert Once(t.queue, t.batch, t.replies.Keys, t.writes.Keys + t.seals) by {
      forall id: nat ensures Waits(t.queue, t.batch, id) == Waits(s.queue, s.batch, id) {
      }
    }
  }

  lemma ReqIdsAppend(batch: seq<Req>, r: Req)
    ensures ReqIds(batch + [r]) == ReqIds(batch) + [r.id]
  {
  }

  lemma ReplySealKeeps(s: State, reply: Reply)
    requires Valid(s) && s.queue != [] && s.queue[0].Seal? && !reply.Ok?
    ensures Valid(ReplySeal(s, reply))
  {
    hide AckOk, Once;
    var t := ReplySeal(s, reply);
    assert MsgOk(s.queue[0], s);
    SealAnsweredOnce(s);
    assert t.replies.Keys == s.replies.Keys + {s.queue[0].id};
  }

  lemma SealAnsweredOnce(s: State)
    requires Accounted(s) && s.queue != []
    ensures s.queue[0].id !in s.replies
    ensures Once(s.queue[1..], s.batch, s.replies.Keys + {s.queue[0].id}, s.writes.Keys + s.seals)
  {
    hide MsgIds, ReqIds;
    var m := s.queue[0];
    FirstWaits(s.queue);
    assert Waits(s.queue, s.batch, m.id) >= 1;
    forall id: nat
      ensures Waits(s.queue[1..], s.batch, id) + (if id == m.id then 1 else 0) == Waits(s.queue, s.batch, id)
    {
    }
  }

  lemma RotateKeeps(s: State)
    requires Valid(s)
    ensures Valid(Rotated(s))
  {
    hide Decode, Once, Apart;
  }

  /** The ids of a batch are distinct and none is answered yet. */
  lemma BatchIdsOnce(s: State)
    requires Accounted(s)
    ensures forall i, j :: 0 <= i < j < |s.batch| ==> s.batch[i].id != s.batch[j].id
    ensures forall i :: 0 <= i < |s.batch| ==> s.batch[i].id !in s.replies
    ensures forall id: nat :: multiset(ReqIds(s.batch))[id] == if id in ReqIds(s.batch) then 1 else 0
  {
    hide MsgIds;
    var ids := ReqIds(s.batch);
    forall id: nat ensures multiset(ids)[id] == (if id in ids then 1 else 0) && (id in ids ==> id !in s.replies) {
      assert id in ids ==> id in multiset(ids);
      assert Waits(s.queue, s.batch, id) >= multiset(ids)[id];
    }
    forall i, j | 0 <= i < j < |ids| ensures s.batch[i].id != s.batch[j].id {
      if ids[i] == ids[j] {
        TwiceCounts(ids, i, j);
        assert false;
      }
    }
    forall i | 0 <= i < |s.batch| ensures s.batch[i].id !in s.replies { assert ids[i] in ids; }
  }

  lemma TwiceCounts(ids: seq<nat>, i: nat, j: nat)
    requires i < j < |ids| && ids[i] == ids[j]
    ensures multiset(ids)[ids[i]] >= 2
  {
    assert ids == ids[..i] + [ids[i]] + ids[i + 1..j] + [ids[j]] + ids[j + 1..];
  }

  /** Answering a whole batch, whatever the answers. */
  lemma AnsweredOnce(s: State, answers: seq<Reply>)
    requires Accounted(s) && |answers| == |s.batch|
    ensures var r := Answer(s.replies, s.batch, answers);
            Once(s.queue, [], r.Keys, s.writes.Keys + s.seals)
  {
    hide MsgIds, Answer;
    BatchIdsOnce(s);
    var r := Answer(s.replies, s.batch, answers);
    forall id: nat
      ensures Waits(s.queue, [], id) + (if id in r then 1 else 0) == if id in s.writes.Keys + s.seals then 1 else 0
    {
      AnswerKeys(s.replies, s.batch, answers, id);
      assert Waits(s.queue, s.batch, id) == Waits(s.queue, [], id) + multiset(ReqIds(s.batch))[id];
    }
  }

  lemma FailKeeps(s: State, left: Bytes)
    requires Valid(s)
    ensures Valid(Fail(s, left))
  {
    hide Decode, Once, Apart, Answer, ReqIds;
    var t := Fail(s, left);
    AnsweredOnce(s, Errors(|s.batch|));
    assert t.files[s.segId][..s.fileOffset] == s.files[s.segId][..s.fileOffset];
    forall id | id in t.replies
      ensures t.replies[id] == Error || (id in s.replies && t.replies[id] == s.replies[id])
    {
      AnsweredFrom(s, Errors(|s.batch|), id);
    }
    forall a, b | a in t.replies && b in t.replies && a != b ensures Apart(t.replies[a], t.replies[b]) {
      ErrorApart(t.replies[a], t.replies[b]);
    }
  }

  lemma ErrorApart(x: Reply, y: Reply)
    ensures x == Error || y == Error ==> Apart(x, y)
  {
  }

  /** Where an answer comes from. */
  lemma AnsweredFrom(s: State, answers: seq<Reply>, id: nat)
    requires Accounted(s) && |answers| == |s.batch|
    ensures var r := Answer(s.replies, s.batch, answers);
            id in r ==>
              || (id in s.replies && r[id] == s.replies[id] && forall i :: 0 <= i < |s.batch| ==> s.batch[i].id != id)
              || (exists i :: 0 <= i < |s.batch| && s.batch[i].id == id && r[id] == answers[i])
  {
    hide Answer, Once;
    BatchIdsOnce(s);
    AnswerKeys(s.replies, s.batch, answers, id);
    if i :| 0 <= i < |s.batch| && s.batch[i].id == id {
      AnswerAt(s.replies, s.batch, answers, i);
    } else {
      assert id !in ReqIds(s.batch);
    }
  }

  // ── A synced batch ────────────────────────────────────────────────────────

  /** A new acknowledgement decodes in the synced bytes, past everything acknowledged before. */
  lemma NewAck(s: State, i: nat)
    requires Valid(s) && i < |s.batch|
    ensures var t, r := Succeed(s), Oks(s)[i];
            && AckOk(r, s.batch[i].rec, t.files, t.synced)
            && s.fileOffset <= r.offset
  {
    hide Decode, EncodeAll, RoundUp, Placed, Answer, AcksOk, Once, WriteAt, Zeros;
    var rs := RecsOf(s.batch);
    var bytes := BatchBytes(rs);
    var data := s.files[s.segId][..s.fileOffset] + bytes;
    WriteAtPrefix(s.files[s.segId], s.fileOffset, bytes);
    assert BatchWritable(rs);
    assert data[s.fileOffset..s.fileOffset + |EncodeAll(rs)|] == EncodeAll(rs);
    PlacedDecode(data, s.fileOffset, rs, i);
    PlacedShift(s.fileOffset, rs, i);
    PlacedInside(s.fileOffset, rs, i);
  }

  lemma NewAcksApart(s: State, i: nat, j: nat)
    requires i < j < |s.batch|
    ensures Apart(Oks(s)[i], Oks(s)[j])
  {
    hide EncodeAll, Placed;
    var rs := RecsOf(s.batch);
    PlacedOrdered(0, rs, i, j);
    PlacedShift(0, rs, i);
  }

  /** An older acknowledgement still decodes, and ends before the new batch. */
  lemma OldAck(s: State, id: nat)
    requires Valid(s) && id in s.replies && id in s.writes
    ensures AckOk(s.replies[id], s.writes[id], Succeed(s).files, Succeed(s).synced)
    ensures s.replies[id].Ok? && s.replies[id].segment == s.segId ==>
              s.replies[id].offset + s.replies[id].length <= s.fileOffset
  {
    hide Decode, BatchBytes, Placed, Answer, Once, WriteAt, Apart;
    var r := s.replies[id];
    assert AckOk(r, s.writes[id], s.files, s.synced);
    if r.Ok? && r.segment == s.segId {
      var bytes := BatchBytes(RecsOf(s.batch));
      WriteAtPrefix(s.files[s.segId], s.fileOffset, bytes);
      DecodeGrows(s.files[s.segId][..s.fileOffset], s.files[s.segId][..s.fileOffset] + bytes, r.offset);
    }
  }

  lemma SucceedKeeps(s: State)
    requires Valid(s)
    ensures Valid(Succeed(s))
  {
    hide Decode, Once, Apart, Answer, ReqIds, AckOk, Oks, BatchBytes, WriteAt;
    var t := Succeed(s);
    AnsweredOnce(s, Oks(s));
    WriteAtPrefix(s.files[s.segId], s.fileOffset, BatchBytes(RecsOf(s.batch)));
    AlignedSum(s.fileOffset, BatchSize(s));
    forall id | id in t.replies
      ensures t.replies[id].Ok? ==> id in t.writes
      ensures id in t.writes ==> AckOk(t.replies[id], t.writes[id], t.files, t.synced)
    {
      AnsweredFrom(s, Oks(s), id);
      if i :| 0 <= i < |s.batch| && s.batch[i].id == id && t.replies[id] == Oks(s)[i] {
        NewAck(s, i);
      } else if id in s.writes {
        OldAck(s, id);
      }
    }
    forall a, b | a in t.replies && b in t.replies && a != b ensures Apart(t.replies[a], t.replies[b]) {
      TwoAcks(s, a, b);
    }
  }

  lemma TwoAcks(s: State, a: nat, b: nat)
    requires Valid(s) && a != b && a in Succeed(s).replies && b in Succeed(s).replies
    ensures Apart(Succeed(s).replies[a], Succeed(s).replies[b])
  {
    hide Decode, Once, Answer, ReqIds, AckOk, BatchBytes, WriteAt, Placed;
    var t := Succeed(s);
    AnsweredFrom(s, Oks(s), a);
    AnsweredFrom(s, Oks(s), b);
    if i :| 0 <= i < |s.batch| && s.batch[i].id == a && t.replies[a] == Oks(s)[i] {
      NewAck(s, i);
      if j :| 0 <= j < |s.batch| && s.batch[j].id == b && t.replies[b] == Oks(s)[j] {
        if i < j {
          NewAcksApart(s, i, j);
        } else {
          NewAcksApart(s, j, i);
        }
      } else if s.replies[b].Ok? {
        OldAck(s, b);
      }
    } else if j :| 0 <= j < |s.batch| && s.batch[j].id == b && t.replies[b] == Oks(s)[j] {
      NewAck(s, j);
      if s.replies[a].Ok? {
        OldAck(s, a);
      }
    }
  }

  // ── The journal thread ────────────────────────────────────────────────────

  ghost function SubmitMsg(s: State, m: Msg): State {
    match m
    case Write(id, rec) => s.(queue := s.queue + [m], writes := s.writes[id := rec])
    case Seal(id) => s.(queue := s.queue + [m], seals := s.seals + {id})
  }

  lemma SubmitKeeps(s: State, m: Msg)
    requires Valid(s) && m.id !in s.writes && m.id !in s.seals && (m.Write? ==> Writable(m.rec))
    ensures Valid(SubmitMsg(s, m))
  {
    hide AckOk, Apart, Once;
    var t := SubmitMsg(s, m);
    SubmittedOnce(s, m);
    assert t.writes.Keys + t.seals == s.writes.Keys + s.seals + {m.id};
    forall i | 0 <= i < |t.queue| ensures MsgOk(t.queue[i], t) {
      if i < |s.queue| {
        assert MsgOk(s.queue[i], s);
      }
    }
  }

  lemma SubmittedOnce(s: State, m: Msg)
    requires Accounted(s) && m.id !in s.writes && m.id !in s.seals
    ensures m.id !in s.replies
    ensures Once(s.queue + [m], s.batch, s.replies.Keys, s.writes.Keys + s.seals + {m.id})
  {
    hide ReqIds;
    assert MsgIds(s.queue + [m]) == MsgIds(s.queue) + [m.id];
    assert Waits(s.queue, s.batch, m.id) == 0;
    forall id: nat
      ensures Waits(s.queue + [m], s.batch, id) == Waits(s.queue, s.batch, id) + if id == m.id then 1 else 0
    {
    }
  }

  /** Each request's offset in the buffer and its record length. */
  ghost predicate Offsets(batch: seq<Req>, offsets: seq<(nat, nat)>) {
    var rs := RecsOf(batch);
    |offsets| == |batch| &&
    forall i :: 0 <= i < |batch| ==> offsets[i] == (Placed(0, rs)[i].pos, RecLen(rs[i]))
  }

  lemma NoOffsets()
    ensures Offsets([], []) && EncodeAll(RecsOf([])) == []
  {
  }

  lemma Extend(batch: seq<Req>, offsets: seq<(nat, nat)>, r: Req)
    requires Offsets(batch, offsets)
    ensures Offsets(batch + [r], offsets + [(|EncodeAll(RecsOf(batch))|, RecLen(r.rec))])
    ensures EncodeAll(RecsOf(batch + [r])) == EncodeAll(RecsOf(batch)) + Encode(r.rec)
  {
    hide Encode, Placed, EncodeAll;
    RecsOfAppend(batch, r);
    PlacedAppend(0, RecsOf(batch), r.rec);
    EncodeAllAppend(RecsOf(batch), r.rec);
  }

  /** Answers given stay given; without `ok`, no acknowledgement is added. */
  ghost predicate Kept(before: map<nat, Reply>, after: map<nat, Reply>, ok: bool) {
    && (forall id <- before :: id in after && after[id] == before[id])
    && (forall id <- after :: id !in before && after[id].Ok? ==> ok)
  }

  lemma HeadUnanswered(s: State)
    requires Valid(s) && s.queue != []
    ensures s.queue[0].id !in s.replies
  {
    SealAnsweredOnce(s);
  }

  /** The batch being filled, continued: requests are taken while the buffer is below MAX_BATCH_BYTES and
      the channel holds one; a seal request met on the way is refused. */
  ghost function Gather(s: State): (r: State)
    ensures r == s.(queue := r.queue, batch := r.batch, replies := r.replies)
    decreases |s.queue|
  {
    if |EncodeAll(RecsOf(s.batch))| >= MAX_BATCH_BYTES || s.queue == [] then s
    else if s.queue[0].Write? then Gather(Take(s))
    else Gather(ReplySeal(s, Error))
  }

  ghost predicate Full(io: Io, size: nat) {
    io.Wrote? && io.count >= size && io.synced
  }

  ghost function MaybeRotated(s: State, rotate: bool): State {
    if rotate then Rotated(s) else s
  }

  /** The batch is acknowledged if all of it was written and synced, and refused otherwise. */
  ghost function Written(g: State, io: Io, left: Bytes): (t: State)
    requires FilesOk(g)
    ensures t.queue == g.queue && t.batch == [] && t.writes == g.writes && t.seals == g.seals
  {
    if Full(io, BatchSize(g)) then Succeed(g) else Fail(g, left)
  }

  /** One turn of the journal loop on its next request. */
  ghost function LoopTurn(s: State, io: Io, left: Bytes, sealOk: bool, threshold: nat): (t: State)
    requires FilesOk(s) && s.queue != []
    ensures t.writes == s.writes && t.seals == s.seals
  {
    if s.queue[0].Seal? then MaybeRotated(ReplySeal(s, if sealOk then Sealed(s.segId) else Error), sealOk)
    else
      var t := Written(Gather(Take(s)), io, left);
      MaybeRotated(t, t.fileOffset >= threshold && sealOk)
  }

  lemma WriteTurnIs(s: State, io: Io, left: Bytes, sealOk: bool, threshold: nat)
    requires FilesOk(s) && s.queue != [] && s.queue[0].Write?
    ensures var t := Written(Gather(Take(s)), io, left);
            LoopTurn(s, io, left, sealOk, threshold) == MaybeRotated(t, t.fileOffset >= threshold && sealOk)
  {
    hide Gather, Written, MaybeRotated;
  }

  lemma {:induction false} GatherKeeps(s: State)
    requires Valid(s)
    ensures Valid(Gather(s)) && Kept(s.replies, Gather(s).replies, false)
    decreases |s.queue|
  {
    hide Valid, EncodeAll;
    if |EncodeAll(RecsOf(s.batch))| >= MAX_BATCH_BYTES || s.queue == [] {
    } else if s.queue[0].Write? {
      TakeKeeps(s);
      GatherKeeps(Take(s));
    } else {
      HeadUnanswered(s);
      ReplySealKeeps(s, Error);
      GatherKeeps(ReplySeal(s, Error));
    }
  }

  // ── What a turn takes and what it answers ─────────────────────────────────

  /** The write requests among the messages, in order. */
  function Writes(msgs: seq<Msg>): seq<Req> {
    if msgs == [] then []
    else (if msgs[0].Write? then [Req(msgs[0].id, msgs[0].rec)] else []) + Writes(msgs[1..])
  }

  /** How many messages were taken from the channel. */
  ghost function Taken(s: State, g: State): nat
    requires |g.queue| <= |s.queue|
  {
    |s.queue| - |g.queue|
  }

  ghost predicate Filled(s: State, g: State) {
    && |g.queue| <= |s.queue|
    && var n := Taken(s, g);
    && g.queue == s.queue[n..] && g.batch == s.batch + Writes(s.queue[..n])
    && (forall i :: 0 <= i < n && s.queue[i].Seal? ==> s.queue[i].id in g.replies && g.replies[s.queue[i].id] == Error)
    && (g.queue == [] || |EncodeAll(RecsOf(g.batch))| >= MAX_BATCH_BYTES)
    && (n > 0 ==> |EncodeAll(RecsOf(s.batch + Writes(s.queue[..n - 1])))| < MAX_BATCH_BYTES)
  }

  /** Filling a batch takes messages in order until the channel is empty or the buffer has reached
      MAX_BATCH_BYTES, and no further; the writes among them make the batch, the seals are refused. */
  lemma {:induction false} GatherIs(s: State)
    requires Valid(s)
    ensures Filled(s, Gather(s))
    decreases |s.queue|
  {
    hide Valid, EncodeAll;
    var q := s.queue;
    if |EncodeAll(RecsOf(s.batch))| >= MAX_BATCH_BYTES || q == [] {
      assert q[0..] == q && q[..0] == [] && s.batch + [] == s.batch;
    } else {
      if q[0].Write? {
        TakeKeeps(s);
      } else {
        ReplySealKeeps(s, Error);
      }
      var s' := if q[0].Write? then Take(s) else ReplySeal(s, Error);
      GatherIs(s');
      GatherKeeps(s');
      FilledMore(s, s', Gather(s'));
    }
  }

  lemma FilledMore(s: State, s': State, g: State)
    requires s.queue != [] && |EncodeAll(RecsOf(s.batch))| < MAX_BATCH_BYTES
    requires s' == if s.queue[0].Write? then Take(s) else ReplySeal(s, Error)
    requires Filled(s', g) && Kept(s'.replies, g.replies, false)
    ensures Filled(s, g)
  {
    hide EncodeAll, RecsOf;
    var q, n' := s.queue, Taken(s', g);
    var n := n' + 1;
    assert q[n..] == q[1..][n'..];
    FirstWrite(s, q[..n]);
    assert q[..n][1..] == q[1..][..n'];
    SealsRefused(s, s', g, n);
    if n' > 0 {
      FirstWrite(s, q[..n']);
      assert q[..n'][1..] == q[1..][..n' - 1];
    } else {
      assert q[..0] == [] && s.batch + Writes([]) == s.batch;
    }
  }

  lemma SealsRefused(s: State, s': State, g: State, n: nat)
    requires s.queue != [] && 1 <= n <= |s.queue|
    requires s' == if s.queue[0].Write? then Take(s) else ReplySeal(s, Error)
    requires Filled(s', g) && Kept(s'.replies, g.replies, false) && Taken(s', g) == n - 1
    ensures forall i :: 0 <= i < n && s.queue[i].Seal? ==>
              s.queue[i].id in g.replies && g.replies[s.queue[i].id] == Error
  {
    hide EncodeAll, RecsOf, Writes;
    var q := s.queue;
    forall i | 0 <= i < n && q[i].Seal? ensures q[i].id in g.replies && g.replies[q[i].id] == Error {
      if i > 0 {
        assert s'.queue[i - 1] == q[i];
      }
    }
  }

  lemma FirstWrite(s: State, msgs: seq<Msg>)
    requires msgs != [] && s.queue != [] && msgs[0] == s.queue[0]
    ensures var batch' := if s.queue[0].Write? then s.batch + [Req(s.queue[0].id, s.queue[0].rec)] else s.batch;
            s.batch + Writes(msgs) == batch' + Writes(msgs[1..])
  {
    var rest := Writes(msgs[1..]);
    if msgs[0].Write? {
      Reassociate(s.batch, Req(msgs[0].id, msgs[0].rec), rest);
    } else {
      assert [] + rest == rest;
    }
  }

  lemma Reassociate(a: seq<Req>, r: Req, b: seq<Req>)
    ensures a + ([r] + b) == (a + [r]) + b
  {
  }

  /** The answer to a request of a batch: its place in the active file, from which the record can be read, if
      all of the batch was written and synced, and an error otherwise. */
  ghost predicate AnsweredRight(s: State, t: State, io: Io, batch: seq<Req>, q: Req) {
    && q.id in t.replies && s.segId in t.files
    && var reply := t.replies[q.id];
    if io.Wrote? && io.synced && io.count >= |BatchBytes(RecsOf(batch))| then
      && reply.Ok? && reply.segment == s.segId && reply.length == RecLen(q.rec) && s.fileOffset <= reply.offset
      && Decode(t.files[s.segId], reply.offset) == Whole(q.rec)
    else reply == Error
  }

  lemma WrittenAnswers(g: State, io: Io, left: Bytes, j: nat)
    requires Valid(g) && j < |g.batch|
    ensures FilesOk(g) && AnsweredRight(g, Written(g, io, left), io, g.batch, g.batch[j])
  {
    ValidFiles(g);
    var t := Written(g, io, left);
    hide Decode, EncodeAll, BatchBytes, RoundUp, Placed, Answer, AcksOk, Once, WriteAt;
    BatchIdsOnce(g);
    if Full(io, BatchSize(g)) {
      AnswerAt(g.replies, g.batch, Oks(g), j);
      NewAck(g, j);
      var file := t.files[g.segId];
      DecodeGrows(file[..t.synced[g.segId]], file, Oks(g)[j].offset);
    } else {
      AnswerAt(g.replies, g.batch, Errors(|g.batch|), j);
    }
  }

  /** A turn on a write request answers each request of its batch: Ok if and only if the whole padded batch was
      written and synced, with a place that decodes to the request's record; an error otherwise. */
  lemma TurnAnswers(s: State, io: Io, left: Bytes, sealOk: bool, threshold: nat, j: nat)
    requires Valid(s) && s.queue != [] && s.queue[0].Write? && j < |Gather(Take(s)).batch|
    ensures FilesOk(s)
    ensures var batch := Gather(Take(s)).batch;
            AnsweredRight(s, LoopTurn(s, io, left, sealOk, threshold), io, batch, batch[j])
  {
    ValidFiles(s);
    hide Valid, Gather, Written, Decode, BatchBytes, RecsOf;
    TakeKeeps(s);
    GatherKeeps(Take(s));
    WrittenAnswers(Gather(Take(s)), io, left, j);
  }

  /** A turn on a seal request answers with the sealed segment's id exactly if the sealing succeeded, and only
      then a new file becomes active. */
  lemma SealTurnAnswers(s: State, io: Io, left: Bytes, sealOk: bool, threshold: nat)
    requires Valid(s) && s.queue != [] && s.queue[0].Seal?
    ensures FilesOk(s)
    ensures var t, id := LoopTurn(s, io, left, sealOk, threshold), s.queue[0].id;
            && t.queue == s.queue[1..] && id in t.replies
            && t.replies[id] == (if sealOk then Sealed(s.segId) else Error)
            && t.segId == (if sealOk then s.segId + 1 else s.segId)
            && t.fileOffset == (if sealOk then 0 else s.fileOffset)
            && t.files == (if sealOk then s.files[s.segId + 1 := []] else s.files)
  {
    ValidFiles(s);
  }

  /** A turn keeps the state valid and every answer given before it; an acknowledgement is added only
      if the whole padded batch was written and synced. */
  lemma TurnKeeps(s: State, io: Io, left: Bytes, sealOk: bool, threshold: nat)
    requires Valid(s) && s.queue != []
    ensures FilesOk(s) && Valid(LoopTurn(s, io, left, sealOk, threshold))
    ensures Kept(s.replies, LoopTurn(s, io, left, sealOk, threshold).replies,
                 s.queue[0].Write? && Full(io, BatchSize(Gather(Take(s)))))
  {
    ValidFiles(s);
    hide Valid, FilesOk, Gather, BatchSize, Full, Written, MaybeRotated, Kept;
    if s.queue[0].Seal? {
      SealTurnKeeps(s, sealOk);
    } else {
      TakeKeeps(s);
      var g := Gather(Take(s));
      GatherKeeps(Take(s));
      WrittenKeeps(g, io, left);
      var t := Written(g, io, left);
      KeptTrans(s.replies, g.replies, t.replies, Full(io, BatchSize(g)));
      MaybeRotateKeeps(t, t.fileOffset >= threshold && sealOk);
    }
  }

  lemma SealTurnKeeps(s: State, sealOk: bool)
    requires Valid(s) && s.queue != [] && s.queue[0].Seal?
    ensures var t := MaybeRotated(ReplySeal(s, if sealOk then Sealed(s.segId) else Error), sealOk);
            Valid(t) && Kept(s.replies, t.replies, false)
  {
    hide Valid, MaybeRotated;
    HeadUnanswered(s);
    var reply := if sealOk then Sealed(s.segId) else Error;
    ReplySealKeeps(s, reply);
    MaybeRotateKeeps(ReplySeal(s, reply), sealOk);
  }

  lemma KeptTrans(a: map<nat, Reply>, b: map<nat, Reply>, c: map<nat, Reply>, ok: bool)
    requires Kept(a, b, false) && Kept(b, c, ok)
    ensures Kept(a, c, ok)
  {
  }

  lemma MaybeRotateKeeps(s: State, rotate: bool)
    requires Valid(s)
    ensures Valid(MaybeRotated(s, rotate)) && MaybeRotated(s, rotate).replies == s.replies
  {
    hide Valid;
    RotateKeeps(s);
  }

  lemma WrittenKeeps(g: State, io: Io, left: Bytes)
    requires Valid(g)
    ensures FilesOk(g) && Valid(Written(g, io, left))
    ensures Kept(g.replies, Written(g, io, left).replies, Full(io, BatchSize(g)))
  {
    ValidFiles(g);
    hide Valid, FilesOk, Kept, BatchSize, Succeed, Fail;
    if Full(io, BatchSize(g)) {
      SucceedKept(g);
    } else {
      FailKept(g, left);
    }
  }

  lemma SucceedKept(g: State)
    requires Valid(g)
    ensures FilesOk(g) && Valid(Succeed(g)) && Kept(g.replies, Succeed(g).replies, true)
  {
    ValidFiles(g);
    hide Valid, Answer, Oks, WriteAt, BatchBytes, Kept;
    SucceedKeeps(g);
    KeptByAnswer(g, Oks(g), true);
  }

  lemma FailKept(g: State, left: Bytes)
    requires Valid(g)
    ensures FilesOk(g) && Valid(Fail(g, left)) && Kept(g.replies, Fail(g, left).replies, false)
  {
    ValidFiles(g);
    hide Valid, Answer, Kept;
    FailKeeps(g, left);
    KeptByAnswer(g, Errors(|g.batch|), false);
  }

  // ── Runs ──────────────────────────────────────────────────────────────────

  datatype Event = Submitted(msg: Msg) | Turned(io: Io, left: Bytes, sealOk: bool)

  ghost predicate Can(s: State, e: Event) {
    match e
    case Submitted(m) => m.id !in s.writes && m.id !in s.seals && (m.Write? ==> Writable(m.rec))
    case Turned(_, _, _) => FilesOk(s) && s.queue != []
  }

  ghost function Do(s: State, e: Event, threshold: nat): State
    requires Can(s, e)
  {
    match e
    case Submitted(m) => SubmitMsg(s, m)
    case Turned(io, left, sealOk) => LoopTurn(s, io, left, sealOk, threshold)
  }

  ghost predicate CanAll(s: State, events: seq<Event>, threshold: nat)
    decreases events
  {
    events == [] || (Can(s, events[0]) && CanAll(Do(s, events[0], threshold), events[1..], threshold))
  }

  ghost function DoAll(s: State, events: seq<Event>, threshold: nat): State
    requires CanAll(s, events, threshold)
    decreases events
  {
    if events == [] then s else DoAll(Do(s, events[0], threshold), events[1..], threshold)
  }

  lemma DoKeeps(s: State, e: Event, threshold: nat)
    requires Valid(s) && Can(s, e)
    ensures Valid(Do(s, e, threshold))
    ensures Extends(s, Do(s, e, threshold))
  {
    hide Valid, FilesOk, LoopTurn;
    match e
    case Submitted(m) => SubmitKeeps(s, m);
    case Turned(io, left, sealOk) => TurnKeeps(s, io, left, sealOk, threshold);
  }

  /** Nothing submitted or answered before is changed. */
  ghost predicate Extends(s: State, t: State) {
    && (forall id <- s.replies :: id in t.replies && t.replies[id] == s.replies[id])
    && (forall id <- s.writes :: id in t.writes && t.writes[id] == s.writes[id])
  }

  /** The ack invariant over whole runs: whatever is submitted and however writes, syncs and seals
      fail, each request is answered at most once and for good, and each Ok ever given still decodes
      to its request's record in synced bytes, apart from every other Ok. */
  lemma {:induction false} AcksHoldForever(s: State, events: seq<Event>, threshold: nat)
    requires Valid(s) && CanAll(s, events, threshold)
    ensures var t := DoAll(s, events, threshold);
            && Valid(t) && Extends(s, t)
            && (forall id <- s.replies :: s.replies[id].Ok? ==>
                  id in s.writes && AckOk(s.replies[id], s.writes[id], t.files, t.synced))
    decreases events
  {
    hide Do, Can, AckOk, Apart, FilesOk, Once, MsgOk;
    if events != [] {
      hide Valid;
      DoKeeps(s, events[0], threshold);
      var m := Do(s, events[0], threshold);
      AcksHoldForever(m, events[1..], threshold);
      assert forall id <- s.replies :: s.replies[id].Ok? ==> id in s.writes by { AckedWritten(s); }
    }
  }

  lemma AckedWritten(s: State)
    requires Valid(s)
    ensures forall id <- s.replies :: s.replies[id].Ok? ==> id in s.writes
  {
    hide AckOk, Apart, Once, MsgOk;
  }

  /** What the answers to a batch add. */
  lemma KeptByAnswer(s: State, answers: seq<Reply>, ok: bool)
    requires Valid(s) && |answers| == |s.batch|
    requires !ok ==> forall i :: 0 <= i < |answers| ==> !answers[i].Ok?
    ensures Kept(s.replies, Answer(s.replies, s.batch, answers), ok)
  {
    hide Answer, AcksOk, FilesOk, Once;
    var r := Answer(s.replies, s.batch, answers);
    BatchIdsOnce(s);
    forall id | id in s.replies ensures id in r && r[id] == s.replies[id] {
      AnswerKeys(s.replies, s.batch, answers, id);
      AnsweredFrom(s, answers, id);
    }
    forall id | id in r && id !in s.replies && r[id].Ok? ensures ok {
      AnsweredFrom(s, answers, id);
    }
  }

  /** The thread behind the channel: requests are taken in batches, written, synced and answered. */
  class LsmcJournal {
    var segId: nat
    var fileOffset: nat
    var files: map<nat, Bytes>
    var queue: seq<Msg>
    var replies: map<nat, Reply>
    const threshold: nat
    ghost var synced: map<nat, nat>
    ghost var writes: map<nat, Rec>
    ghost var seals: set<nat>

    ghost function Value(batch: seq<Req>): State
      reads this
    {
      State(segId, fileOffset, files, synced, queue, batch, replies, writes, seals)
    }

    constructor (startId: nat, limit: nat)
      ensures Valid(Value([])) && queue == [] && replies == map[] && segId == startId && threshold == limit
    {
      segId, fileOffset, queue, replies, threshold := startId, 0, [], map[], limit;
      files, synced := map[startId := []], map[startId := 0];
      writes, seals := map[], {};
    }

    /** `append` and `seal`: a request enters the channel. */
    method Submit(m: Msg)
      requires Valid(Value([])) && m.id !in writes && m.id !in seals && (m.Write? ==> Writable(m.rec))
      modifies this
      ensures Valid(Value([])) && Value([]) == SubmitMsg(old(Value([])), m)
    {
      hide Valid;
      SubmitKeeps(Value([]), m);
      queue := queue + [m];
      match m
      case Write(id, rec) => writes := writes[id := rec];
      case Seal(id) => seals := seals + {id};
    }

    method AnswerAll(batch: seq<Req>, answers: seq<Reply>)
      requires |batch| == |answers|
      modifies this`replies
      ensures replies == Answer(old(replies), batch, answers)
    {
      for i := 0 to |batch|
        invariant replies == Answer(old(replies), batch[..i], answers[..i])
      {
        assert batch[..i + 1][..i] == batch[..i] && answers[..i + 1][..i] == answers[..i];
        replies := replies[batch[i].id := answers[i]];
      }
      assert batch[..|batch|] == batch && answers[..|batch|] == answers;
    }

    method Rotate()
      requires Valid(Value([]))
      modifies this`segId, this`fileOffset, this`files, this`synced
      ensures Valid(Value([])) && Value([]) == Rotated(old(Value([])))
    {
      hide Valid;
      RotateKeeps(Value([]));
      segId, fileOffset := segId + 1, 0;
      files, synced := files[segId := []], synced[segId := 0];
    }

    /** The first request of a batch, then whatever the channel holds, up to MAX_BATCH_BYTES; a seal
        request met on the way is refused. */
    method Collect() returns (batch: seq<Req>, offsets: seq<(nat, nat)>, padded: Bytes)
      requires Valid(Value([])) && queue != [] && queue[0].Write?
      modifies this`queue, this`replies
      ensures Valid(Value(batch)) && Value(batch) == Gather(Take(old(Value([]))))
      ensures padded == BatchBytes(RecsOf(batch))
      ensures Offsets(batch, offsets)
    {
      hide Valid, Decode, Encode, EncodeAll, RoundUp, Zeros, Offsets;
      NoOffsets();
      var buf := new AlignedBuffer();
      batch, offsets := [], [];
      var r := Req(queue[0].id, queue[0].rec);
      TakeKeeps(Value(batch));
      Extend(batch, offsets, r);
      var off, _ := buf.Push(r.rec.key.ledger, r.rec.key.entry, r.rec.payload);
      offsets, batch, queue := offsets + [(off, RecLen(r.rec))], batch + [r], queue[1..];
      while |buf.inner| < MAX_BATCH_BYTES && queue != []
        invariant fresh(buf) && buf.inner == EncodeAll(RecsOf(batch))
        invariant Valid(Value(batch)) && Offsets(batch, offsets)
        invariant Gather(Value(batch)) == Gather(Take(old(Value([]))))
        decreases |queue|
      {
        match queue[0] {
          case Write(id, rec) =>
            TakeKeeps(Value(batch));
            Extend(batch, offsets, Req(id, rec));
            var o, _ := buf.Push(rec.key.ledger, rec.key.entry, rec.payload);
            offsets, batch := offsets + [(o, RecLen(rec))], batch + [Req(id, rec)];
          case Seal(id) =>
            ReplySealKeeps(Value(batch), Error);
            replies := replies[id := Error];
        }
        queue := queue[1..];
      }
      padded := buf.PaddedAligned();
    }

    /** Write and sync succeeded: advance the offset and acknowledge the batch. */
    method Acknowledge(batch: seq<Req>, offsets: seq<(nat, nat)>, padded: Bytes)
      requires Valid(Value(batch)) && Offsets(batch, offsets) && padded == BatchBytes(RecsOf(batch))
      modifies this`files, this`fileOffset, this`synced, this`replies
      ensures Valid(Value([])) && Value([]) == Succeed(old(Value(batch)))
    {
      hide Valid, BatchBytes, Answer, WriteAt, Placed, Oks, Offsets;
      ghost var s := Value(batch);
      assert FilesOk(s) by { ValidFiles(s); }
      SucceedKeeps(s);
      AcksAreOks(s, offsets);
      var seg, pos := segId, fileOffset;
      files := files[seg := WriteAt(files[seg], pos, padded)];
      fileOffset := pos + |padded|;
      synced := synced[seg := fileOffset];
      var acks := seq(|batch|, i requires 0 <= i < |batch| => Ok(seg, pos + offsets[i].0, offsets[i].1));
      assert acks == Oks(s);
      AnswerAll(batch, acks);
    }

    /** The write failed, was short, or was not synced: every request of the batch gets an error. */
    method Refuse(batch: seq<Req>, left: Bytes)
      requires Valid(Value(batch))
      modifies this`files, this`replies
      ensures Valid(Value([])) && Value([]) == Fail(old(Value(batch)), left)
    {
      hide Valid, Answer;
      ghost var s := Value(batch);
      assert FilesOk(s) by { ValidFiles(s); }
      FailKeeps(s, left);
      files := files[segId := files[segId][..fileOffset] + left];
      AnswerAll(batch, Errors(|batch|));
    }

    /** Write the padded batch at the file offset and sync. `left` is what stands past the offset after a
        write that did not complete. */
    method WriteAndSync(batch: seq<Req>, offsets: seq<(nat, nat)>, padded: Bytes, io: Io, left: Bytes)
      requires Valid(Value(batch)) && Offsets(batch, offsets) && padded == BatchBytes(RecsOf(batch))
      modifies this`files, this`fileOffset, this`synced, this`replies
      ensures Valid(Value([])) && FilesOk(old(Value(batch))) && Value([]) == Written(old(Value(batch)), io, left)
    {
      ValidFiles(Value(batch));
      hide Valid, FilesOk, BatchBytes, Offsets, Succeed, Fail;
      if io.Wrote? && io.count >= |padded| && io.synced {
        Acknowledge(batch, offsets, padded);
      } else {
        Refuse(batch, left);
      }
    }

    /** One turn of the journal loop on a write request: fill a batch, write it, answer each of its
        requests, and seal once the file has reached the threshold. */
    method WriteBatch(io: Io, left: Bytes, sealOk: bool)
      requires Valid(Value([])) && queue != [] && queue[0].Write?
      modifies this
      ensures Valid(Value([])) && Value([]) == LoopTurn(old(Value([])), io, left, sealOk, threshold)
    {
      ValidFiles(Value([]));
      WriteTurnIs(Value([]), io, left, sealOk, threshold);
      hide Valid, FilesOk, BatchBytes, Offsets, Gather, Written, Rotated, Take, LoopTurn;
      var batch, offsets, padded := Collect();
      WriteAndSync(batch, offsets, padded, io, left);
      if fileOffset >= threshold && sealOk {
        Rotate();
      }
    }

    /** One turn on a seal request. */
    method SealActive(sealOk: bool)
      requires Valid(Value([])) && queue != [] && queue[0].Seal?
      modifies this
      ensures Valid(Value([])) && Value([]) == LoopTurn(old(Value([])), WriteFailed, [], sealOk, threshold)
    {
      ValidFiles(Value([]));
      hide Valid;
      var reply := if sealOk then Sealed(segId) else Error;
      ReplySealKeeps(Value([]), reply);
      replies, queue := replies[queue[0].id := reply], queue[1..];
      if sealOk {
        Rotate();
      }
    }
  }

  lemma ValidFiles(s: State)
    requires Valid(s)
    ensures FilesOk(s)
  {
  }

  lemma AcksAreOks(s: State, offsets: seq<(nat, nat)>)
    requires Offsets(s.batch, offsets)
    ensures |offsets| == |s.batch|
    ensures forall i :: 0 <= i < |s.batch| ==>
              Oks(s)[i] == Ok(s.segId, s.fileOffset + offsets[i].0, offsets[i].1)
  {
    hide Placed;
  }
}
