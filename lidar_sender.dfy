/** The producer side of the chunked point-cloud path: frame numbering,
    fragmentation of a point array into fixed-size chunk messages, and
    round-trip times from acknowledgments. */
module LidarSender {
  import opened WireBytes
  import opened LidarWire

  /** The number of chunks for n points: the ceiling of n / 500, 500 being
      the points carried by every chunk but the last (written as a literal
      throughout, so that the solver sees linear arithmetic). */
  function TotalChunks(n: nat): (k: nat)
    ensures n == 0 <==> k == 0
    ensures n <= k * 500
    ensures k > 0 ==> (k - 1) * 500 < n
  {
    (n + 500 - 1) / 500
  }

  /** The rows of chunk i: `combined_array[i * 500 : min((i + 1) * 500, n)]`. */
  function Slice(rows: seq<Row>, i: nat): (r: seq<Row>)
    requires i < TotalChunks(|rows|)
    ensures 0 < |r| <= 500
    ensures i * 500 + |r| <= |rows|
    ensures i < TotalChunks(|rows|) - 1 ==> |r| == 500
    ensures forall j :: 0 <= j < |r| ==> r[j] == rows[i * 500 + j]
  {
    var lo, hi := i * 500, Min((i + 1) * 500, |rows|);
    assert lo < |rows| by {
      var k := TotalChunks(|rows|);
      assert i * 500 <= (k - 1) * 500;
    }
    rows[lo..hi]
  }

  /** The first k chunks, one after the other. */
  function SlicesUpTo(rows: seq<Row>, k: nat): seq<Row>
    requires k <= TotalChunks(|rows|)
  {
    if k == 0 then [] else SlicesUpTo(rows, k - 1) + Slice(rows, k - 1)
  }

  /** The first k chunks are exactly the first min(500 k, n) rows: the slices
      are contiguous and do not overlap. */
  lemma {:induction false} SlicesUpToPrefix(rows: seq<Row>, k: nat)
    requires k <= TotalChunks(|rows|)
    ensures SlicesUpTo(rows, k) == rows[..Min(k * 500, |rows|)]
  {
    if k > 0 {
      SlicesUpToPrefix(rows, k - 1);
      var lo := (k - 1) * 500;
      var hi := Min(k * 500, |rows|);
      assert rows[..hi] == rows[..lo] + rows[lo..hi];
    }
  }

  /** Together the chunks carry every row once, in order. */
  lemma SlicesCover(rows: seq<Row>)
    ensures SlicesUpTo(rows, TotalChunks(|rows|)) == rows
  {
    SlicesUpToPrefix(rows, TotalChunks(|rows|));
  }

  /** The point array as the producer hands it over: XYZ rows and optional
      per-point intensities; `dtype` is the array's type name. */
  datatype PointCloud = PointCloud(points: seq<Row>, intensities: Option<seq<Word>>, dtype: string)

  /** The array that is fragmented and its reported width: intensities of
      matching length become a fourth column, otherwise only XYZ is sent. */
  function Combine(pc: PointCloud): (r: (seq<Row>, nat))
    ensures r.1 == 4 <==> pc.intensities.Some? && |pc.intensities.value| == |pc.points|
    ensures r.1 == 3 || r.1 == 4
    ensures |r.0| == |pc.points|
    ensures r.1 == 3 ==> r.0 == pc.points
    ensures r.1 == 4 ==> forall i :: 0 <= i < |r.0| ==> r.0[i] == pc.points[i] + [pc.intensities.value[i]]
  {
    match pc.intensities
    case Some(ints) =>
      if |ints| == |pc.points| then
        (seq(|pc.points|, i requires 0 <= i < |pc.points| => pc.points[i] + [ints[i]]), 4)
      else (pc.points, 3)
    case None => (pc.points, 3)
  }

  /** The message of chunk i of frame `frameId`. */
  function ChunkMessage(frameId: nat, sendTime: real, source: string, rows: seq<Row>, width: nat, dtype: string, i: nat): (m: DataMessage)
    requires i < TotalChunks(|rows|)
    ensures m.frameId == Some(frameId) && m.timestamp == sendTime && m.frag.Some? && m.jsonData.None?
    ensures m.frag.value.totalChunks == TotalChunks(|rows|) && m.frag.value.chunkIndex == i
    ensures m.frag.value.dtype == dtype && m.frag.value.width == width && m.frag.value.rows == |Slice(rows, i)|
    ensures m.marker <==> i == TotalChunks(|rows|) - 1
    ensures m.pcdChunkBytes == RowsBytes(Slice(rows, i))
  {
    var total := TotalChunks(|rows|);
    var slice := Slice(rows, i);
    DataMessage(Some(frameId), sendTime, source, Some(FragInfo(total, i, dtype, |slice|, width)),
                None, RowsBytes(slice), i == total - 1)
  }

  /** The chunk messages of a fragmented point cloud, chunk i at index i. */
  function PcdMessages(frameId: nat, sendTime: real, source: string, pc: PointCloud): (ms: seq<DataMessage>)
    ensures |ms| == TotalChunks(|pc.points|)
  {
    var c := Combine(pc);
    seq(TotalChunks(|pc.points|), i requires 0 <= i < TotalChunks(|pc.points|) =>
      ChunkMessage(frameId, sendTime, source, c.0, c.1, pc.dtype, i))
  }

  /** What `send_frame` is given: a JSON document, a point cloud, or a key
      it does not know (which sends nothing). */
  datatype FrameData = JsonData(json: JsonValue) | PcdData(pc: PointCloud) | OtherKey

  /** The single message of the JSON path: no fragment info, marker set. */
  function JsonMessage(frameId: nat, sendTime: real, source: string, json: JsonValue): (m: DataMessage)
    ensures m.frameId == Some(frameId) && m.frag.None? && m.marker && m.jsonData == Some(json)
  {
    DataMessage(Some(frameId), sendTime, source, None, Some(json), [], true)
  }

  /** Every message `send_frame` attempts for one frame, in send order. */
  function FrameMessages(frameId: nat, sendTime: real, source: string, data: FrameData): (ms: seq<DataMessage>)
    ensures data.JsonData? ==> ms == [JsonMessage(frameId, sendTime, source, data.json)]
    ensures data.OtherKey? ==> ms == []
    ensures data.PcdData? ==> |ms| == TotalChunks(|data.pc.points|)
    ensures forall i :: 0 <= i < |ms| ==> ms[i].frameId == Some(frameId) && ms[i].timestamp == sendTime
  {
    match data
    case JsonData(json) => [JsonMessage(frameId, sendTime, source, json)]
    case PcdData(pc) => PcdMessages(frameId, sendTime, source, pc)
    case OtherKey => []
  }

  /** A point-cloud frame is announced as many chunks as it has, every one
      carrying the frame number, the chunk count, its own index, the array's
      type and width, and only the last one carrying the end-of-frame
      marker. */
  lemma PcdFrameShape(frameId: nat, sendTime: real, source: string, pc: PointCloud)
    ensures var ms := FrameMessages(frameId, sendTime, source, PcdData(pc));
      var k := TotalChunks(|pc.points|);
      && |ms| == k
      && (forall i :: 0 <= i < k ==>
            && ms[i].frameId == Some(frameId)
            && ms[i].frag.Some?
            && ms[i].frag.value.totalChunks == k
            && ms[i].frag.value.chunkIndex == i
            && ms[i].frag.value.dtype == pc.dtype
            && ms[i].frag.value.width == Combine(pc).1
            && (ms[i].marker <==> i == k - 1))
  {
    var k := TotalChunks(|pc.points|);
    forall i | 0 <= i < k
      ensures var m := PcdMessages(frameId, sendTime, source, pc)[i];
        && m.frameId == Some(frameId)
        && m.frag.Some?
        && m.frag.value.totalChunks == k
        && m.frag.value.chunkIndex == i
        && m.frag.value.dtype == pc.dtype
        && m.frag.value.width == Combine(pc).1
        && (m.marker <==> i == k - 1)
    {
    }
  }

  /** The chunk payloads of a point-cloud frame, concatenated, are the byte
      image of the whole combined array. */
  lemma PcdPayloadsCover(frameId: nat, sendTime: real, source: string, pc: PointCloud)
    ensures var ms := FrameMessages(frameId, sendTime, source, PcdData(pc));
      Payloads(ms) == RowsBytes(Combine(pc).0)
  {
    var rows := Combine(pc).0;
    var k := TotalChunks(|rows|);
    PayloadsUpTo(frameId, sendTime, source, pc, k);
    assert PcdMessages(frameId, sendTime, source, pc)[..k] == PcdMessages(frameId, sendTime, source, pc);
    SlicesCover(rows);
  }

  /** The concatenated chunk payloads of a run of messages. */
  function Payloads(ms: seq<DataMessage>): seq<Byte>
  {
    if ms == [] then [] else Payloads(ms[..|ms| - 1]) + ms[|ms| - 1].pcdChunkBytes
  }

  /** The payloads of the first j messages: those of the first j - 1, then
      message j - 1's. */
  lemma PayloadsTake(ms: seq<DataMessage>, j: nat)
    requires 0 < j <= |ms|
    ensures Payloads(ms[..j]) == Payloads(ms[..j - 1]) + ms[j - 1].pcdChunkBytes
  {
    assert ms[..j][..j - 1] == ms[..j - 1];
  }

  lemma {:induction false} PayloadsUpTo(frameId: nat, sendTime: real, source: string, pc: PointCloud, k: nat)
    requires k <= TotalChunks(|pc.points|)
    ensures Payloads(PcdMessages(frameId, sendTime, source, pc)[..k]) == RowsBytes(SlicesUpTo(Combine(pc).0, k))
  {
    var ms := PcdMessages(frameId, sendTime, source, pc);
    if k == 0 {
      assert ms[..0] == [];
    } else {
      var rows := Combine(pc).0;
      PayloadsUpTo(frameId, sendTime, source, pc, k - 1);
      PayloadsTake(ms, k);
      assert ms[k - 1].pcdChunkBytes == RowsBytes(Slice(rows, k - 1));
      assert SlicesUpTo(rows, k) == SlicesUpTo(rows, k - 1) + Slice(rows, k - 1);
      RowsBytesAppend(SlicesUpTo(rows, k - 1), Slice(rows, k - 1));
    }
  }

  /** The messages among the first k that leave the socket: those whose send
      (by position in the frame) did not fail. */
  function SentPrefix(ms: seq<DataMessage>, failed: set<nat>, k: nat): (r: seq<DataMessage>)
    requires k <= |ms|
    ensures |r| <= k
  {
    if k == 0 then []
    else SentPrefix(ms, failed, k - 1) + (if k - 1 in failed then [] else [ms[k - 1]])
  }

  /** The messages of a whole run that leave the socket. */
  function Delivered(ms: seq<DataMessage>, failed: set<nat>): (r: seq<DataMessage>)
    ensures |r| <= |ms|
  {
    SentPrefix(ms, failed, |ms|)
  }

  /** What leaves the socket of a prefix does not depend on what follows. */
  lemma {:induction false} SentPrefixExtend(ms: seq<DataMessage>, more: seq<DataMessage>, failed: set<nat>, k: nat)
    requires k <= |ms|
    ensures SentPrefix(ms + more, failed, k) == SentPrefix(ms, failed, k)
  {
    if k > 0 {
      SentPrefixExtend(ms, more, failed, k - 1);
      assert (ms + more)[k - 1] == ms[k - 1];
    }
  }

  lemma DeliveredSnoc(ms: seq<DataMessage>, m: DataMessage, failed: set<nat>)
    ensures Delivered(ms + [m], failed) == Delivered(ms, failed) + (if |ms| in failed then [] else [m])
  {
    SentPrefixExtend(ms, [m], failed, |ms|);
  }

  /** With no failed send, every message leaves the socket. */
  lemma DeliveredAll(ms: seq<DataMessage>)
    ensures Delivered(ms, {}) == ms
  {
    SentPrefixAll(ms, |ms|);
    assert ms[..|ms|] == ms;
  }

  lemma {:induction false} SentPrefixAll(ms: seq<DataMessage>, k: nat)
    requires k <= |ms|
    ensures SentPrefix(ms, {}, k) == ms[..k]
  {
    if k > 0 {
      SentPrefixAll(ms, k - 1);
      assert ms[..k] == ms[..k - 1] + [ms[k - 1]];
    }
  }

  /** The chunk loop of `send_frame` over the combined array: chunk i's
      message is built and sent, in index order; a failed send is skipped and
      the loop goes on. The result is what left the socket, in order. */
  method ChunkLoop(frameId: nat, pc: PointCloud, source: string, sendTime: real, failed: set<nat>) returns (sent: seq<DataMessage>)
    ensures sent == Delivered(PcdMessages(frameId, sendTime, source, pc), failed)
  {
    var c := Combine(pc);
    var total := TotalChunks(|c.0|);
    ghost var ms := PcdMessages(frameId, sendTime, source, pc);
    sent := [];
    var i := 0;
    while i < total
      invariant 0 <= i <= total
      invariant sent == SentPrefix(ms, failed, i)
    {
      var m := ChunkMessage(frameId, sendTime, source, c.0, c.1, pc.dtype, i);
      assert m == ms[i];
      if i !in failed {
        sent := sent + [m];
      }
      i := i + 1;
    }
  }

  /** The producer: the next frame number, the send time of every frame not
      yet acknowledged, the measured round-trip times, and the messages sent
      on the data channel. */
  class Sender {
    var frameId: nat
    var sentTimestamps: map<int, real>
    var rttRecordsMs: seq<real>
    var outbox: seq<DataMessage>

    constructor ()
      ensures frameId == 0 && sentTimestamps == map[] && rttRecordsMs == [] && outbox == []
    {
      frameId, sentTimestamps, rttRecordsMs, outbox := 0, map[], [], [];
    }

    /** `send_frame` at monotonic time `now`; `failed` holds the positions
        (chunk indices, or 0 for the JSON message) whose socket send raises.
        The send time is recorded first. A failed chunk send is caught and
        the loop goes on; a failed JSON send propagates (`raised`), so the
        frame number is then not advanced. */
    method SendFrame(data: FrameData, source: string, now: real, failed: set<nat>) returns (raised: bool)
      modifies this
      ensures sentTimestamps == old(sentTimestamps)[old(frameId) := now]
      ensures raised <==> data.JsonData? && 0 in failed
      ensures frameId == if raised then old(frameId) else old(frameId) + 1
      ensures outbox == old(outbox) + Delivered(FrameMessages(old(frameId), now, source, data), failed)
      ensures rttRecordsMs == old(rttRecordsMs)
    {
      var sendTime := now;
      sentTimestamps := sentTimestamps[frameId := sendTime];
      match data {
        case JsonData(json) =>
          var m := JsonMessage(frameId, sendTime, source, json);
          DeliveredSnoc([], m, failed);
          if 0 in failed {
            return true;
          }
          outbox := outbox + [m];
        case PcdData(pc) =>
          SendChunks(pc, source, sendTime, failed);
        case OtherKey =>
      }
      frameId := frameId + 1;
      raised := false;
    }

    /** The chunk loop of `send_frame`: one message per chunk, in index
        order; a failed send is skipped and the loop goes on. */
    method SendChunks(pc: PointCloud, source: string, sendTime: real, failed: set<nat>)
      modifies this`outbox
      ensures outbox == old(outbox) + Delivered(FrameMessages(frameId, sendTime, source, PcdData(pc)), failed)
    {
      var sent := ChunkLoop(frameId, pc, source, sendTime, failed);
      outbox := outbox + sent;
    }

    /** The `_ack_listener` step for one acknowledgment at time `now`: an
        acknowledged frame still pending is removed and its round-trip time
        recorded; anything else (undecodable, no frame number, unknown or
        already acknowledged frame) changes nothing. */
    method OnAck(ack: AckMessage, now: real)
      modifies this
      ensures frameId == old(frameId) && outbox == old(outbox)
      ensures ack.Ack? && ack.ackFrameId.Some? && ack.ackFrameId.value in old(sentTimestamps) ==>
        var id := ack.ackFrameId.value;
        && sentTimestamps == old(sentTimestamps) - {id}
        && rttRecordsMs == old(rttRecordsMs) + [(now - old(sentTimestamps)[id]) * 1000.0]
      ensures !(ack.Ack? && ack.ackFrameId.Some? && ack.ackFrameId.value in old(sentTimestamps)) ==>
        sentTimestamps == old(sentTimestamps) && rttRecordsMs == old(rttRecordsMs)
    {
      if ack.AckUndecodable? {
        return;
      }
      if ack.ackFrameId.Some? && ack.ackFrameId.value in sentTimestamps {
        var id := ack.ackFrameId.value;
        var sendTime := sentTimestamps[id];
        sentTimestamps := sentTimestamps - {id};
        var rtt := (now - sendTime) * 1000.0;
        rttRecordsMs := rttRecordsMs + [rtt];
      }
    }
  }

  /** A duplicated acknowledgment yields one round-trip time, not two. */
  method DuplicateAck(s: Sender, id: int, first: real, second: real)
    requires id in s.sentTimestamps
    modifies s
    ensures |s.rttRecordsMs| == |old(s.rttRecordsMs)| + 1
    ensures id !in s.sentTimestamps
  {
    s.OnAck(Ack(Some(id)), first);
    s.OnAck(Ack(Some(id)), second);
  }

  /** Two frames sent back to back carry consecutive frame numbers and are
      both pending until acknowledged. */
  method SendTwo(s: Sender, a: PointCloud, b: PointCloud, source: string, t1: real, t2: real)
    modifies s
    ensures s.frameId == old(s.frameId) + 2
    ensures old(s.frameId) in s.sentTimestamps && old(s.frameId) + 1 in s.sentTimestamps
    ensures s.sentTimestamps[old(s.frameId)] == t1 && s.sentTimestamps[old(s.frameId) + 1] == t2
  {
    var r1 := s.SendFrame(PcdData(a), source, t1, {});
    var r2 := s.SendFrame(PcdData(b), source, t2, {});
  }
}
