/** The chunked point-cloud path end to end: the chunks the producer sends
    for one frame, delivered in order to a receiver in its steady state,
    are handed to the application as one complete frame holding the
    producer's bytes, and acknowledged. */
module LidarRoundTrip {
  import opened WireBytes
  import opened LidarWire
  import S = LidarSender
  import R = LidarReceiver

  /** Each message decoded as sent. */
  function AsReceived(ms: seq<DataMessage>): (ps: seq<Received>)
    ensures |ps| == |ms| && forall i :: 0 <= i < |ms| ==> ps[i] == Decoded(ms[i])
  {
    seq(|ms|, i requires 0 <= i < |ms| => Decoded(ms[i]))
  }

  /** `ms` are the chunk messages of point-cloud frame `frameId`: chunk i is
      the i-th, every one announces |ms| chunks of the given type and width,
      and only the last carries the marker. */
  ghost predicate FrameChunks(ms: seq<DataMessage>, frameId: int, dtype: string, width: int) {
    forall i :: 0 <= i < |ms| ==>
      && ms[i].frameId == Some(frameId)
      && ms[i].frag.Some?
      && ms[i].frag.value.totalChunks == |ms|
      && ms[i].frag.value.chunkIndex == i
      && ms[i].frag.value.dtype == dtype
      && ms[i].frag.value.width == width
      && (ms[i].marker <==> i == |ms| - 1)
  }

  /** The producer's messages for a point-cloud frame have that shape. */
  lemma SenderFrameChunks(frameId: nat, sendTime: real, source: string, pc: S.PointCloud)
    ensures FrameChunks(S.FrameMessages(frameId, sendTime, source, S.PcdData(pc)), frameId, pc.dtype, S.Combine(pc).1)
  {
    S.PcdFrameShape(frameId, sendTime, source, pc);
  }

  /** `chunks` holds exactly the payloads of the first j messages, under
      their indices. */
  ghost predicate HoldsFirst(chunks: map<int, seq<Byte>>, ms: seq<DataMessage>, j: nat)
    requires j <= |ms|
  {
    && (forall i :: i in chunks <==> 0 <= i < j)
    && (forall i :: 0 <= i < j ==> chunks[i] == ms[i].pcdChunkBytes)
  }

  /** Joining the first j chunks gives the first j payloads one after the
      other, and there are j of them. */
  lemma {:induction false} HoldsFirstJoin(chunks: map<int, seq<Byte>>, ms: seq<DataMessage>, j: nat)
    requires j <= |ms| && HoldsFirst(chunks, ms, j)
    ensures R.JoinChunks(chunks) == S.Payloads(ms[..j])
    ensures |chunks| == j
  {
    if j == 0 {
      forall k
        ensures k !in chunks
      {
      }
      R.EmptyMap(chunks);
      assert ms[..0] == [];
    } else {
      var rest := chunks - {j - 1};
      HoldsFirstTop(chunks, ms, j);
      HoldsFirstJoin(rest, ms, j - 1);
      R.RemoveOneSize(chunks, j - 1);
      S.PayloadsTake(ms, j);
    }
  }

  /** The highest of the first j chunks is chunk j - 1; the others are the
      first j - 1. */
  lemma HoldsFirstTop(chunks: map<int, seq<Byte>>, ms: seq<DataMessage>, j: nat)
    requires 0 < j <= |ms| && HoldsFirst(chunks, ms, j)
    ensures chunks.Keys != {} && R.SetMax(chunks.Keys) == j - 1
    ensures R.JoinChunks(chunks) == R.JoinChunks(chunks - {j - 1}) + ms[j - 1].pcdChunkBytes
    ensures HoldsFirst(chunks - {j - 1}, ms, j - 1)
  {
    assert j - 1 in chunks.Keys;
    var top := R.SetMax(chunks.Keys);
    assert top < j;
    R.JoinTop(chunks);
    var rest := chunks - {top};
    forall i
      ensures i in rest <==> 0 <= i < j - 1
    {
    }
  }

  /** The receiver while frame `frameId` is being collected with its first
      j chunks in, and nothing else changed since `base`. */
  ghost predicate Collecting(t: R.RxState, base: R.RxState, frameId: int, ms: seq<DataMessage>, dtype: string, width: int, j: nat)
    requires j <= |ms|
  {
    && R.Inv(t)
    && t.current == frameId
    && frameId in t.buffer
    && t.buffer[frameId].PcdEntry?
    && t.buffer[frameId].total == |ms|
    && t.buffer[frameId].dtype == dtype
    && t.buffer[frameId].shapeDim == width
    && HoldsFirst(t.buffer[frameId].chunks, ms, j)
    && t.lastProcessed == base.lastProcessed
    && t.acks == base.acks
    && t.processed == base.processed
  }

  /** Storing chunk j: from an empty buffer (the first chunk) or from the
      first j chunks, the frame then holds the first j + 1. */
  lemma StoreNext(t: R.RxState, base: R.RxState, frameId: int, ms: seq<DataMessage>, dtype: string, width: int, j: nat)
    requires j < |ms| && FrameChunks(ms, frameId, dtype, width)
    requires R.Inv(base) && base.current == frameId && base.buffer == map[] && base.lastProcessed < frameId
    requires if j == 0 then t == base else Collecting(t, base, frameId, ms, dtype, width, j)
    ensures Collecting(R.Insert(t, frameId, ms[j]), base, frameId, ms, dtype, width, j + 1)
  {
    var m := ms[j];
    assert m.frag.value.chunkIndex == j;
    var r := R.Insert(t, frameId, m);
    R.InsertInv(t, m);
    var e := if frameId in t.buffer then t.buffer[frameId] else R.NewEntry(m);
    var chunks := r.buffer[frameId].chunks;
    if j == 0 {
      assert e == R.NewEntry(m);
      assert e.chunks == map[];
    } else {
      assert e == t.buffer[frameId];
      assert j !in e.chunks;
    }
    assert chunks.Keys == e.chunks.Keys + {j};
    forall i
      ensures i in chunks <==> 0 <= i < j + 1
    {
      assert i in chunks <==> i in e.chunks || i == j;
    }
  }

  /** Delivering chunks 0 .. j-1 (not the last) of a new frame, in order, to
      a receiver in its steady state leaves that frame being collected with
      those chunks. */
  lemma {:induction false} CollectPrefix(s: R.RxState, frameId: int, ms: seq<DataMessage>, dtype: string, width: int, j: nat)
    requires R.Inv(s) && frameId > s.current
    requires FrameChunks(ms, frameId, dtype, width)
    requires 1 <= j < |ms|
    ensures Collecting(R.ReceiveAll(s, AsReceived(ms)[..j]), R.NextFrame(s, frameId), frameId, ms, dtype, width, j)
  {
    var ps := AsReceived(ms)[..j];
    assert ps[..j - 1] == AsReceived(ms)[..j - 1];
    var t := R.ReceiveAll(s, ps[..j - 1]);
    if j == 1 {
      assert t == s;
    } else {
      CollectPrefix(s, frameId, ms, dtype, width, j - 1);
    }
    assert ps[j - 1] == Decoded(ms[j - 1]);
    CollectStep(t, s, frameId, ms, dtype, width, j - 1);
  }

  /** Delivering chunk j (not the last): from the receiver before the frame
      (j = 0) or from the frame holding its first j chunks. */
  lemma CollectStep(t: R.RxState, s: R.RxState, frameId: int, ms: seq<DataMessage>, dtype: string, width: int, j: nat)
    requires R.Inv(s) && frameId > s.current
    requires FrameChunks(ms, frameId, dtype, width) && j + 1 < |ms|
    requires if j == 0 then t == s else Collecting(t, R.NextFrame(s, frameId), frameId, ms, dtype, width, j)
    ensures Collecting(R.Receive(t, Decoded(ms[j])), R.NextFrame(s, frameId), frameId, ms, dtype, width, j + 1)
  {
    var base := R.NextFrame(s, frameId);
    R.NextFrameInv(s, frameId);
    var m := ms[j];
    R.AcceptedStep(t, m);
    var s1 := if frameId > t.current then R.NextFrame(t, frameId) else t;
    assert j == 0 ==> s1 == base;
    assert j > 0 ==> s1 == t;
    StoreNext(s1, base, frameId, ms, dtype, width, j);
  }

  /** After frame `frameId` was handed off, starting from `base`: it is
      acknowledged and is the processed mark, nothing is buffered, and the
      application got it complete, its chunks joined in order. */
  ghost predicate FrameDone(r: R.RxState, base: R.RxState, frameId: int, ms: seq<DataMessage>, dtype: string, width: int) {
    && R.Inv(r)
    && r.buffer == map[]
    && r.current == frameId
    && r.lastProcessed == frameId
    && r.acks == base.acks + [frameId]
    && r.processed == base.processed
         + [R.PcdFrame(frameId, |ms|, |ms|, dtype, true, R.Reshape(S.Payloads(ms), width))]
  }

  /** Once the frame being collected holds all its chunks, handing it off
      yields one complete frame whose bytes are the payloads in order. */
  lemma FinishFrame(t: R.RxState, base: R.RxState, frameId: int, ms: seq<DataMessage>, dtype: string, width: int)
    requires |ms| > 0 && Collecting(t, base, frameId, ms, dtype, width, |ms|)
    ensures FrameDone(R.Finalize(t, frameId), base, frameId, ms, dtype, width)
  {
    var e := t.buffer[frameId];
    HoldsFirstJoin(e.chunks, ms, |ms|);
    assert ms[..|ms|] == ms;
    assert 0 in e.chunks;
    R.FinalizeCurrentInv(t);
  }

  /** Delivering the last chunk: from a new frame (a one-chunk frame) or
      from the frame holding all other chunks. */
  lemma LastChunk(t: R.RxState, s: R.RxState, frameId: int, ms: seq<DataMessage>, dtype: string, width: int)
    requires R.Inv(s) && frameId > s.current
    requires FrameChunks(ms, frameId, dtype, width) && |ms| > 0
    requires if |ms| == 1 then t == s
             else Collecting(t, R.NextFrame(s, frameId), frameId, ms, dtype, width, |ms| - 1)
    ensures FrameDone(R.Receive(t, Decoded(ms[|ms| - 1])), R.NextFrame(s, frameId), frameId, ms, dtype, width)
  {
    var k := |ms|;
    var base := R.NextFrame(s, frameId);
    R.NextFrameInv(s, frameId);
    var m := ms[k - 1];
    R.AcceptedStep(t, m);
    var s1 := if frameId > t.current then R.NextFrame(t, frameId) else t;
    assert k == 1 ==> s1 == base;
    assert k > 1 ==> s1 == t;
    StoreNext(s1, base, frameId, ms, dtype, width, k - 1);
    var s2 := R.Insert(s1, frameId, m);
    assert R.Receive(t, Decoded(m)) == R.Finalize(s2, frameId);
    FinishFrame(s2, base, frameId, ms, dtype, width);
  }

  /** The whole frame delivered in order: it is handed to the application
      complete, with all chunks joined in order, acknowledged, and becomes
      the processed mark; nothing stays buffered. The previous frame, if it
      was still buffered, is handed off first (by `NextFrame`). */
  lemma DeliverFrame(s: R.RxState, frameId: int, ms: seq<DataMessage>, dtype: string, width: int)
    requires R.Inv(s) && frameId > s.current
    requires FrameChunks(ms, frameId, dtype, width) && |ms| > 0
    ensures FrameDone(R.ReceiveAll(s, AsReceived(ms)), R.NextFrame(s, frameId), frameId, ms, dtype, width)
  {
    var k := |ms|;
    var ps := AsReceived(ms);
    assert ps[..k] == ps;
    assert ps[..k - 1] == AsReceived(ms)[..k - 1];
    if k == 1 {
      assert ps[..0] == [];
    } else {
      CollectPrefix(s, frameId, ms, dtype, width, k - 1);
    }
    LastChunk(R.ReceiveAll(s, ps[..k - 1]), s, frameId, ms, dtype, width);
  }

  /** Rows of the combined array all have its reported width when the
      points are XYZ triples. */
  lemma CombineWidth(pc: S.PointCloud)
    requires forall i :: 0 <= i < |pc.points| ==> |pc.points[i]| == 3
    ensures var c := S.Combine(pc);
      forall i :: 0 <= i < |c.0| ==> |c.0[i]| == c.1
  {
  }

  /** Producer to application: a non-empty point cloud sent as frame
      `frameId` with no lost chunk, received in order by a receiver that has
      not yet seen that frame, arrives complete and reshapes into rows
      holding exactly the bytes of the producer's array. */
  lemma PointCloudRoundTrip(s: R.RxState, frameId: nat, sendTime: real, source: string, pc: S.PointCloud)
    requires R.Inv(s) && frameId > s.current
    requires |pc.points| > 0 && forall i :: 0 <= i < |pc.points| ==> |pc.points[i]| == 3
    ensures var ms := S.FrameMessages(frameId, sendTime, source, S.PcdData(pc));
      var r := R.ReceiveAll(s, AsReceived(ms));
      var rows := S.Combine(pc).0;
      var base := R.NextFrame(s, frameId);
      && r.buffer == map[]
      && r.acks == base.acks + [frameId]
      && r.processed == base.processed
           + [R.PcdFrame(frameId, |ms|, |ms|, pc.dtype, true, R.Assembled(RowsBytes(rows)))]
  {
    var ms := S.FrameMessages(frameId, sendTime, source, S.PcdData(pc));
    var c := S.Combine(pc);
    SenderFrameChunks(frameId, sendTime, source, pc);
    DeliverFrame(s, frameId, ms, pc.dtype, c.1);
    S.PcdPayloadsCover(frameId, sendTime, source, pc);
    CombineWidth(pc);
    RowsAligned(c.0, c.1);
  }
}
