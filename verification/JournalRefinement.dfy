/** The journal thread of Journal is the journal of NodeRun: each of its turns is at most two steps of the node. */
module JournalRefinement {
  import opened Words
  import opened Records
  import opened BatchFiles
  import opened NodeRun
  import J = Journal

  /** The request waits in the node as well, queued with the same record. */
  ghost predicate Waiting(appends: map<nat, Append>, id: nat, rec: Rec) {
    id in appends && appends[id] == Append(rec, Queued)
  }

  ghost predicate QueueMatches(queue: seq<J.Msg>, appends: map<nat, Append>) {
    forall i :: 0 <= i < |queue| && queue[i].Write? ==> Waiting(appends, queue[i].id, queue[i].rec)
  }

  ghost predicate BatchMatches(batch: seq<J.Req>, appends: map<nat, Append>) {
    forall i :: 0 <= i < |batch| ==> Waiting(appends, batch[i].id, batch[i].rec)
  }

  /** The node's WAL segments are the journal's files, by id, and the active one is synced up to the offset. */
  ghost predicate FilesMatch(segId: nat, offset: nat, files: map<nat, Bytes>, wals: seq<Seg>) {
    && wals != [] && segId == |wals| - 1
    && (forall f: nat :: f in files <==> f < |wals|)
    && (forall i :: 0 <= i < |wals| ==> files[i] == FileBytes(wals[i]))
    && offset == |Stable(Last(wals))|
  }

  ghost predicate Matches(s: J.State, n: Node) {
    && n.ents != [] && FilesMatch(s.segId, s.fileOffset, s.files, n.wals)
    && QueueMatches(s.queue, n.appends) && BatchMatches(s.batch, n.appends)
  }

  // ── Files ─────────────────────────────────────────────────────────────────

  /** A batch written at the synced end of a file. */
  lemma WrittenFile(seg: Seg, batch: seq<Rec>)
    ensures FileBytes(AppendBatch(seg, batch)) == WriteAt(FileBytes(seg), |Stable(seg)|, BatchBytes(batch))
    ensures |Stable(AppendBatch(seg, batch))| == |Stable(seg)| + |BatchBytes(batch)|
  {
    hide FileOf, BatchBytes, WriteAt;
    FileOfAppend(seg.batches, batch);
    var bytes := BatchBytes(batch);
    assert Stable(AppendBatch(seg, batch)) == Stable(seg) + bytes;
    WriteBehind(Stable(seg), seg.tail, bytes);
  }

  lemma WriteBehind(stable: Bytes, tail: Bytes, bytes: Bytes)
    ensures WriteAt(stable + tail, |stable|, bytes)
         == stable + bytes + if |tail| <= |bytes| then [] else tail[|bytes|..]
  {
    var file := stable + tail;
    assert file[..|stable|] == stable;
    if |bytes| < |tail| {
      assert file[|stable| + |bytes|..] == tail[|bytes|..];
    }
  }

  lemma FilesAfterWrite(segId: nat, offset: nat, files: map<nat, Bytes>, wals: seq<Seg>, batch: seq<Rec>)
    requires FilesMatch(segId, offset, files, wals)
    ensures FilesMatch(segId, offset + |BatchBytes(batch)|,
                       files[segId := WriteAt(files[segId], offset, BatchBytes(batch))],
                       SetLast(wals, AppendBatch(Last(wals), batch)))
  {
    hide FileBytes, Stable, AppendBatch, BatchBytes, WriteAt;
    WrittenFile(Last(wals), batch);
  }

  lemma FilesAfterFail(segId: nat, offset: nat, files: map<nat, Bytes>, wals: seq<Seg>, left: Bytes)
    requires FilesMatch(segId, offset, files, wals)
    ensures offset <= |files[segId]|
    ensures FilesMatch(segId, offset, files[segId := files[segId][..offset] + left],
                       SetLast(wals, Last(wals).(tail := left)))
  {
    hide FileOf;
    assert FileBytes(Last(wals))[..offset] == Stable(Last(wals));
  }

  lemma FilesAfterSeal(segId: nat, offset: nat, files: map<nat, Bytes>, wals: seq<Seg>)
    requires FilesMatch(segId, offset, files, wals)
    ensures FilesMatch(segId + 1, 0, files[segId + 1 := []], wals + [EMPTY_SEG])
  {
    EmptySegment();
    hide FileBytes, Stable;
    var wals', files' := wals + [EMPTY_SEG], files[segId + 1 := []];
    forall i | 0 <= i < |wals'| ensures files'[i] == FileBytes(wals'[i]) {
      if i < |wals| {
        assert wals'[i] == wals[i];
      }
    }
  }

  lemma EmptySegment()
    ensures FileBytes(EMPTY_SEG) == [] && Stable(EMPTY_SEG) == []
  {
  }

  // ── Requests ──────────────────────────────────────────────────────────────

  lemma {:induction false} GatherMatches(s: J.State, n: Node)
    requires Matches(s, n)
    ensures Matches(J.Gather(s), n) && |s.batch| <= |J.Gather(s).batch|
    decreases |s.queue|
  {
    hide Waiting, FilesMatch, EncodeAll;
    if |EncodeAll(J.RecsOf(s.batch))| >= J.MAX_BATCH_BYTES || s.queue == [] {
    } else if s.queue[0].Write? {
      GatherMatches(J.Take(s), n);
    } else {
      GatherMatches(J.ReplySeal(s, J.Error), n);
    }
  }

  lemma QueueApart(s: J.State, i: nat, j: nat)
    requires J.Accounted(s) && i < |s.queue| && j < |s.batch|
    ensures s.queue[i].id != s.batch[j].id
  {
    var id := s.queue[i].id;
    assert J.MsgIds(s.queue)[i] in multiset(J.MsgIds(s.queue));
    assert J.ReqIds(s.batch)[j] in multiset(J.ReqIds(s.batch));
    assert J.Waits(s.queue, s.batch, id) <= 1;
  }

  lemma BatchIsQueued(s: J.State, n: Node)
    requires J.Accounted(s) && BatchMatches(s.batch, n.appends)
    ensures AllQueued(n, J.ReqIds(s.batch)) && BatchOf(n, J.ReqIds(s.batch)) == J.RecsOf(s.batch)
  {
    J.BatchIdsOnce(s);
    hide J.Accounted;
    var ids := J.ReqIds(s.batch);
    forall i | 0 <= i < |ids| ensures ids[i] in n.appends && n.appends[ids[i]] == Append(s.batch[i].rec, Queued) {
      assert Waiting(n.appends, s.batch[i].id, s.batch[i].rec);
    }
  }

  /** Requests outside the batch wait on. */
  lemma QueueStays(s: J.State, before: map<nat, Append>, after: map<nat, Append>)
    requires J.Accounted(s) && QueueMatches(s.queue, before)
    requires forall id <- before :: id !in J.ReqIds(s.batch) ==> id in after && after[id] == before[id]
    ensures QueueMatches(s.queue, after)
  {
    hide J.Accounted;
    var ids := J.ReqIds(s.batch);
    forall i | 0 <= i < |s.queue| && s.queue[i].Write? ensures Waiting(after, s.queue[i].id, s.queue[i].rec) {
      assert Waiting(before, s.queue[i].id, s.queue[i].rec);
      if j :| 0 <= j < |ids| && ids[j] == s.queue[i].id {
        QueueApart(s, i, j);
      }
    }
  }

  // ── Steps ─────────────────────────────────────────────────────────────────

  lemma JournalWriteIs(n: Node, ids: seq<nat>)
    requires n.wals != [] && n.ents != [] && ids != [] && AllQueued(n, ids)
    ensures Enabled(n, JournalWrite(ids))
    ensures var n' := Next(n, JournalWrite(ids));
            && n'.ents == n.ents && n'.wals == SetLast(n.wals, AppendBatch(Last(n.wals), BatchOf(n, ids)))
            && n'.appends.Keys == n.appends.Keys
            && (forall id <- n.appends :: id !in ids ==> n'.appends[id] == n.appends[id])
            && (forall id <- n.appends :: id in ids ==> n'.appends[id].stage == Journaled)
  {
    hide AppendBatch, BatchOf, SetLast, Last, AllQueued;
  }

  lemma SucceedMatches(s: J.State, n: Node)
    requires J.FilesOk(s) && J.Accounted(s) && Matches(s, n) && s.batch != []
    ensures Enabled(n, JournalWrite(J.ReqIds(s.batch)))
    ensures Matches(J.Succeed(s), Next(n, JournalWrite(J.ReqIds(s.batch))))
  {
    hide J.Accounted, J.FilesOk, J.Answer, J.Oks, J.ReqIds, J.RecsOf, AppendBatch, BatchBytes, WriteAt, FilesMatch,
         QueueMatches, AllQueued, BatchOf, SetLast, Last, Enabled, Next;
    var ids := J.ReqIds(s.batch);
    MatchedFiles(s, n);
    BatchIsQueued(s, n);
    JournalWriteIs(n, ids);
    var n' := Next(n, JournalWrite(ids));
    FilesAfterWrite(s.segId, s.fileOffset, s.files, n.wals, J.RecsOf(s.batch));
    QueueStays(s, n.appends, n'.appends);
  }

  /** A waiting request becomes journaled in the node if and only if the journal answers it with an Ok, and
      leaves the node's list if and only if it is answered with an error. */
  lemma AnswerIsStage(g: J.State, n: Node, io: J.Io, left: Bytes, j: nat)
    requires J.Valid(g) && Matches(g, n) && j < |g.batch|
    ensures J.FilesOk(g) && Enabled(n, WriteStep(g, io, left))
    ensures var id, n', t := g.batch[j].id, Next(n, WriteStep(g, io, left)), J.Written(g, io, left);
            && id in t.replies
            && (IsJournaled(n', id) <==> t.replies[id].Ok?)
            && (id !in n'.appends <==> t.replies[id] == J.Error)
  {
    hide J.Valid, J.FilesOk, J.Accounted, J.Written, Matches, Enabled, Next, Decode, BatchBytes, J.RecsOf, J.ReqIds,
         AllQueued;
    J.ValidFiles(g);
    J.WrittenAnswers(g, io, left, j);
    var ids := J.ReqIds(g.batch);
    BatchStands(g, n, j);
    if J.Full(io, J.BatchSize(g)) {
      hide BatchOf, AppendBatch, SetLast, Last;
      JournalWriteIs(n, ids);
    } else {
      JournalFailIs(n, ids, left);
    }
  }

  lemma BatchStands(g: J.State, n: Node, j: nat)
    requires J.Valid(g) && Matches(g, n) && j < |g.batch|
    ensures var ids := J.ReqIds(g.batch);
            && n.wals != [] && n.ents != [] && ids != [] && AllQueued(n, ids)
            && g.batch[j].id in ids && g.batch[j].id in n.appends
  {
    hide FilesMatch, J.FilesOk, J.AcksOk;
    MatchedFiles(g, n);
    BatchIsQueued(g, n);
    assert J.ReqIds(g.batch)[j] == g.batch[j].id;
    assert Waiting(n.appends, g.batch[j].id, g.batch[j].rec);
  }

  lemma JournalFailIs(n: Node, ids: seq<nat>, left: Bytes)
    requires n.wals != [] && n.ents != [] && AllQueued(n, ids)
    ensures Enabled(n, JournalFail(ids, left))
    ensures forall id <- ids :: id !in Next(n, JournalFail(ids, left)).appends
  {
    hide AllQueued, SetLast, Last;
  }

  ghost predicate IsJournaled(n: Node, id: nat) {
    id in n.appends && n.appends[id].stage == Journaled
  }

  lemma FailMatches(s: J.State, n: Node, left: Bytes)
    requires J.FilesOk(s) && J.Accounted(s) && Matches(s, n)
    ensures Enabled(n, JournalFail(J.ReqIds(s.batch), left))
    ensures Matches(J.Fail(s, left), Next(n, JournalFail(J.ReqIds(s.batch), left)))
  {
    var ids := J.ReqIds(s.batch);
    BatchIsQueued(s, n);
    hide J.Accounted, J.FilesOk, J.Answer, J.Errors, FilesMatch, QueueMatches, AllQueued, SetLast, Last;
    var n' := Next(n, JournalFail(ids, left));
    FilesAfterFail(s.segId, s.fileOffset, s.files, n.wals, left);
    QueueStays(s, n.appends, n'.appends);
  }

  lemma SealMatches(s: J.State, n: Node)
    requires Matches(s, n) && n.wals != []
    ensures Enabled(n, JournalSeal) && Matches(J.Rotated(s), Next(n, JournalSeal))
  {
    hide FilesMatch, QueueMatches, BatchMatches;
    FilesAfterSeal(s.segId, s.fileOffset, s.files, n.wals);
  }

  /** A journal just opened on an empty directory and a node just started. */
  lemma StartMatches()
    ensures Matches(J.State(0, 0, map[0 := []], map[0 := 0], [], [], map[], map[], {}), FRESH)
  {
    EmptySegment();
    hide FileBytes, Stable;
    var files: map<nat, Bytes> := map[0 := []];
    assert Last(FRESH.wals) == EMPTY_SEG && |FRESH.wals| == 1;
    assert FilesMatch(0, 0, files, FRESH.wals);
  }

  /** A submitted request enters both. */
  lemma SubmitMatches(s: J.State, n: Node, id: nat, rec: Rec)
    requires Matches(s, n) && Enabled(n, Submit(id, rec))
    ensures Matches(J.SubmitMsg(s, J.Write(id, rec)), Next(n, Submit(id, rec)))
  {
    hide FilesMatch;
  }

  /** The node's other steps leave the journal alone. */
  lemma OthersMatch(s: J.State, n: Node, step: Step)
    requires Matches(s, n) && Enabled(n, step)
    requires !step.Submit? && !step.JournalWrite? && !step.JournalFail? && !step.JournalSeal?
    ensures Matches(s, Next(n, step))
  {
    hide FilesMatch, QueueMatches, BatchMatches;
    OtherFrame(n, step);
    SameWaiting(s, n.appends, Next(n, step).appends);
  }

  lemma OtherFrame(n: Node, step: Step)
    requires Enabled(n, step)
    requires !step.Submit? && !step.JournalWrite? && !step.JournalFail? && !step.JournalSeal?
    ensures var n' := Next(n, step);
            && n'.wals == n.wals && n'.ents != []
            && forall id <- n.appends :: n.appends[id].stage == Queued ==>
                 id in n'.appends && n'.appends[id] == n.appends[id]
  {
    hide ReadFrom, AppendBatch, FileBytes, Stable, BatchBytes, RaiseHi, Writable;
    match step
    case CacheEntry(_) =>
    case Ack(_) =>
    case Drain(_) =>
    case FlushWrite =>
    case FlushSync =>
    case FlushDie(_) =>
    case IndexEntry =>
    case DropWal =>
    case Evict =>
    case _ =>
  }

  lemma SameWaiting(s: J.State, before: map<nat, Append>, after: map<nat, Append>)
    requires QueueMatches(s.queue, before) && BatchMatches(s.batch, before)
    requires forall id <- before :: before[id].stage == Queued ==> id in after && after[id] == before[id]
    ensures QueueMatches(s.queue, after) && BatchMatches(s.batch, after)
  {
  }

  // ── A turn ────────────────────────────────────────────────────────────────

  /** The node's step for a batch that has been filled. */
  ghost function WriteStep(g: J.State, io: J.Io, left: Bytes): Step {
    if J.Full(io, J.BatchSize(g)) then JournalWrite(J.ReqIds(g.batch)) else JournalFail(J.ReqIds(g.batch), left)
  }

  /** The steps of the node that a turn of the journal loop is. */
  ghost function TurnSteps(s: J.State, io: J.Io, left: Bytes, sealOk: bool, threshold: nat): seq<Step>
    requires J.FilesOk(s) && s.queue != []
  {
    if s.queue[0].Seal? then if sealOk then [JournalSeal] else []
    else
      var g := J.Gather(J.Take(s));
      var t := J.Written(g, io, left);
      [WriteStep(g, io, left)] + if t.fileOffset >= threshold && sealOk then [JournalSeal] else []
  }

  /** Each turn of the journal thread is a JournalWrite or a JournalFail of the node with the batch's requests,
      a JournalSeal, or both, and leaves the two in step. */
  lemma TurnIsSteps(s: J.State, n: Node, io: J.Io, left: Bytes, sealOk: bool, threshold: nat)
    requires J.Valid(s) && s.queue != [] && s.batch == [] && Matches(s, n)
    ensures J.FilesOk(s)
    ensures var steps := TurnSteps(s, io, left, sealOk, threshold);
            && Legal(n, steps)
            && Matches(J.LoopTurn(s, io, left, sealOk, threshold), RunFrom(n, steps))
  {
    J.ValidFiles(s);
    hide J.Valid, J.FilesOk, Enabled, Next, J.Gather, J.Written, J.BatchSize, J.Full, Matches, J.MaybeRotated, J.Take,
         J.ReplySeal, Legal, RunFrom, J.ReqIds;
    if s.queue[0].Seal? {
      SealTurn(s, n, sealOk);
    } else {
      FilledMatches(s, n);
      var g := J.Gather(J.Take(s));
      WriteTurn(g, n, io, left);
      var t := J.Written(g, io, left);
      var rotate := t.fileOffset >= threshold && sealOk;
      var step := WriteStep(g, io, left);
      MaybeSeal(t, Next(n, step), rotate);
      RunCons(n, step, if rotate then [JournalSeal] else []);
    }
  }

  lemma MaybeSeal(t: J.State, n: Node, rotate: bool)
    requires Matches(t, n)
    ensures var rest := if rotate then [JournalSeal] else [];
            Legal(n, rest) && Matches(J.MaybeRotated(t, rotate), RunFrom(n, rest))
  {
    hide FilesMatch, QueueMatches, BatchMatches, Enabled, Next;
    assert n.wals != [] by { MatchedFiles(t, n); }
    if rotate {
      SealMatches(t, n);
      assert [JournalSeal][1..] == [];
    }
  }

  lemma MatchedFiles(s: J.State, n: Node)
    requires Matches(s, n)
    ensures n.wals != []
  {
  }

  lemma SealTurn(s: J.State, n: Node, sealOk: bool)
    requires Matches(s, n) && s.queue != [] && s.queue[0].Seal?
    ensures var t := J.MaybeRotated(J.ReplySeal(s, if sealOk then J.Sealed(s.segId) else J.Error), sealOk);
            var steps := if sealOk then [JournalSeal] else [];
            Legal(n, steps) && Matches(t, RunFrom(n, steps))
  {
    hide FilesMatch, Waiting, Enabled, Next, J.MaybeRotated;
    MaybeSeal(J.ReplySeal(s, if sealOk then J.Sealed(s.segId) else J.Error), n, sealOk);
  }

  lemma FilledMatches(s: J.State, n: Node)
    requires J.Valid(s) && s.queue != [] && s.queue[0].Write? && s.batch == [] && Matches(s, n)
    ensures var g := J.Gather(J.Take(s)); J.FilesOk(g) && J.Accounted(g) && Matches(g, n) && g.batch != []
  {
    hide Matches;
    J.TakeKeeps(s);
    J.GatherKeeps(J.Take(s));
    TakeMatches(s, n);
    GatherMatches(J.Take(s), n);
    hide J.FilesOk, J.Accounted;
  }

  lemma WriteTurn(g: J.State, n: Node, io: J.Io, left: Bytes)
    requires J.FilesOk(g) && J.Accounted(g) && Matches(g, n) && g.batch != []
    ensures Enabled(n, WriteStep(g, io, left))
    ensures Matches(J.Written(g, io, left), Next(n, WriteStep(g, io, left)))
  {
    hide J.FilesOk, J.Accounted, Enabled, Next, J.BatchSize, J.Full, Matches, J.Succeed, J.Fail;
    if J.Full(io, J.BatchSize(g)) {
      SucceedMatches(g, n);
    } else {
      FailMatches(g, n, left);
    }
  }

  lemma TakeMatches(s: J.State, n: Node)
    requires Matches(s, n) && s.queue != [] && s.queue[0].Write?
    ensures Matches(J.Take(s), n)
  {
    hide FilesMatch, Waiting;
  }
}
