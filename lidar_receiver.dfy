/** The consumer side of the chunked point-cloud path: the reassembly
    buffer with its two triggers (a newer frame arrives, or the end-of-frame
    marker), stale-packet suppression, overflow eviction, and the hand-off
    of each frame to the application with one acknowledgment.

    `Receive` is the state machine as pure functions; the `Receiver` class
    runs the same steps in place and is proved to agree with it. */
module LidarReceiver {
  import opened WireBytes
  import opened LidarWire

  /** The most frames the buffer holds after a message is handled. */
  const MaxFrameLag: nat := 5

  /** The initial value of both frame marks: nothing collected or handed off. */
  const NoFrame: int := -1

  predicate Distinct(xs: seq<int>) {
    forall i, j :: 0 <= i < j < |xs| ==> xs[i] != xs[j]
  }

  function Max(a: int, b: int): int { if a >= b then a else b }

  // ---------------------------------------------------------------------
  // Frame assembly (`process_frame_data`)
  // ---------------------------------------------------------------------

  lemma NonEmpty(xs: set<int>)
    requires xs != {}
    ensures exists y :: y in xs
  {
    if forall y :: y !in xs {
      assert false;
    }
  }

  lemma EmptyMap<V>(m: map<int, V>)
    requires forall k :: k !in m
    ensures m == map[]
  {
    assert forall k :: k !in m;
    assert m.Keys <= {};
  }

  lemma HasMax(xs: set<int>)
    requires xs != {}
    ensures exists m :: m in xs && forall x :: x in xs ==> x <= m
  {
    NonEmpty(xs);
    var y :| y in xs;
    if xs - {y} == {} {
      forall x | x in xs
        ensures x <= y
      {
        assert x !in xs - {y};
      }
    } else {
      HasMax(xs - {y});
      var m :| m in xs - {y} && forall x :: x in xs - {y} ==> x <= m;
      var top := if m < y then y else m;
      forall x | x in xs
        ensures x <= top
      {
        if x != y {
          assert x in xs - {y};
        }
      }
    }
  }

  /** The largest chunk index present. */
  function SetMax(xs: set<int>): (m: int)
    requires xs != {}
    ensures m in xs && forall x :: x in xs ==> x <= m
  {
    HasMax(xs);
    var m :| m in xs && forall x :: x in xs ==> x <= m;
    m
  }

  /** The chunks present, joined in ascending index order (a missing index
      is skipped); written as: the join of all but the highest index, then
      the highest. */
  function JoinChunks(chunks: map<int, seq<Byte>>): seq<Byte>
    decreases |chunks.Keys|
  {
    if chunks.Keys == {} then []
    else
      var k := SetMax(chunks.Keys);
      var rest := chunks - {k};
      assert rest.Keys + {k} == chunks.Keys;
      JoinChunks(rest) + chunks[k]
  }

  /** The join ends with the chunk of the highest index. */
  lemma JoinTop(chunks: map<int, seq<Byte>>)
    requires chunks.Keys != {}
    ensures JoinChunks(chunks) == JoinChunks(chunks - {SetMax(chunks.Keys)}) + chunks[SetMax(chunks.Keys)]
  {
  }

  /** A buffered frame: a JSON document, or a point cloud's metadata (taken
      from its first chunk to arrive) and the chunks received so far. */
  datatype Entry =
    | JsonEntry(data: Option<JsonValue>)
    | PcdEntry(total: int, dtype: string, shapeDim: int, chunks: map<int, seq<Byte>>)

  /** The outcome of rebuilding the array: no chunk at all, the joined bytes
      reshaped into rows, or joined bytes the reshape rejects. */
  datatype Assembly = NoChunks | Assembled(bytes: seq<Byte>) | Misaligned(bytes: seq<Byte>)

  /** What the application is handed for one frame. */
  datatype Processed =
    | JsonFrame(frameId: int, data: Option<JsonValue>)
    | PcdFrame(frameId: int, received: nat, total: int, dtype: string, complete: bool, assembly: Assembly)

  /** `np.frombuffer(bytes, dtype).reshape(-1, shapeDim)` with 4-byte
      elements: it succeeds exactly when the bytes split into whole rows. */
  function Reshape(bytes: seq<Byte>, shapeDim: int): (a: Assembly)
    ensures !a.NoChunks? && a.bytes == bytes
    ensures a.Assembled? <==> shapeDim > 0 && |bytes| % (4 * shapeDim) == 0
  {
    if shapeDim > 0 && |bytes| % (4 * shapeDim) == 0 then Assembled(bytes) else Misaligned(bytes)
  }

  /** `process_frame_data`: a partial frame is handed off too (graceful
      degradation), flagged incomplete when fewer chunks than announced
      arrived. */
  function ProcessFrameData(frameId: int, e: Entry): (r: Processed)
    ensures r.frameId == frameId
    ensures r.JsonFrame? <==> e.JsonEntry?
    ensures e.JsonEntry? ==> r.data == e.data
    ensures e.PcdEntry? ==>
      && r.received == |e.chunks| && r.total == e.total && r.dtype == e.dtype
      && (r.complete <==> |e.chunks| >= e.total)
      && (r.assembly.NoChunks? <==> e.chunks == map[])
      && (!r.assembly.NoChunks? ==> r.assembly.bytes == JoinChunks(e.chunks))
    ensures e.PcdEntry? && e.chunks != map[] ==>
      && r.assembly == Reshape(JoinChunks(e.chunks), e.shapeDim)
      && (r.assembly.Assembled? <==>
            e.shapeDim > 0 && |JoinChunks(e.chunks)| % (4 * e.shapeDim) == 0)
  {
    match e
    case JsonEntry(data) => JsonFrame(frameId, data)
    case PcdEntry(total, dtype, shapeDim, chunks) =>
      var assembly := if chunks == map[] then NoChunks else Reshape(JoinChunks(chunks), shapeDim);
      PcdFrame(frameId, |chunks|, total, dtype, |chunks| >= total, assembly)
  }

  // ---------------------------------------------------------------------
  // Receiver state
  // ---------------------------------------------------------------------

  /** `order` is the insertion order of the buffer's keys (a Python dict
      iterates in that order); `acks` are the acknowledged frame numbers and
      `processed` what the application was handed, in hand-off order. */
  datatype RxState = RxState(
    order: seq<int>,
    buffer: map<int, Entry>,
    current: int,
    lastProcessed: int,
    acks: seq<int>,
    processed: seq<Processed>)

  const Initial := RxState([], map[], NoFrame, NoFrame, [], [])

  /** `order` lists each buffered frame number once. */
  ghost predicate WellFormed(s: RxState) {
    && Distinct(s.order)
    && (forall k :: k in s.order <==> k in s.buffer)
  }

  /** `xs` without `k`. */
  function Remove(xs: seq<int>, k: int): (r: seq<int>)
    ensures forall x :: x in r <==> x in xs && x != k
    ensures Distinct(xs) ==> Distinct(r)
  {
    if xs == [] then []
    else
      var rest := Remove(xs[1..], k);
      if xs[0] == k then rest
      else
        assert Distinct(xs) ==> xs[0] !in xs[1..];
        [xs[0]] + rest
  }

  /** What the application is handed for the buffered frames `ks`, in
      that order. */
  function Outputs(buffer: map<int, Entry>, ks: seq<int>): (r: seq<Processed>)
    requires forall k :: k in ks ==> k in buffer
    ensures |r| == |ks|
    ensures forall i :: 0 <= i < |ks| ==> r[i] == ProcessFrameData(ks[i], buffer[ks[i]])
  {
    seq(|ks|, i requires 0 <= i < |ks| => ProcessFrameData(ks[i], buffer[ks[i]]))
  }

  /** `r` is `s` with some buffered frames handed off: the marks only grow,
      the frames still buffered are untouched, and the acknowledgments
      added are exactly the frames that left the buffer, each once, while
      the application was handed exactly those frames' data, in the same
      order. */
  ghost predicate HandsOff(s: RxState, r: RxState) {
    && r.current == s.current
    && r.lastProcessed >= s.lastProcessed
    && s.acks <= r.acks
    && Keeps(s.buffer, r.buffer)
    && Gone(s.buffer, r.buffer, r.acks[|s.acks|..])
    && r.processed == s.processed + Outputs(s.buffer, r.acks[|s.acks|..])
  }

  /** Every frame still in `after` was in `before`, unchanged. */
  ghost predicate Keeps(before: map<int, Entry>, after: map<int, Entry>) {
    forall k :: k in after ==> k in before && after[k] == before[k]
  }

  /** `gone` lists the frames that left `before` for `after`, each once. */
  ghost predicate Gone(before: map<int, Entry>, after: map<int, Entry>, gone: seq<int>) {
    && Distinct(gone)
    && (forall k :: k in gone <==> k in before && k !in after)
  }

  /** A hand-off only appends to the acknowledgments and to the log. */
  lemma HandsOffGrows(s: RxState, r: RxState)
    requires HandsOff(s, r)
    ensures s.acks <= r.acks && s.processed <= r.processed
  {
    assert s.processed == r.processed[..|s.processed|];
  }

  lemma HandsOffTrans(a: RxState, b: RxState, c: RxState)
    requires HandsOff(a, b) && HandsOff(b, c)
    ensures HandsOff(a, c)
  {
    var g1, g2, g := b.acks[|a.acks|..], c.acks[|b.acks|..], c.acks[|a.acks|..];
    assert g == g1 + g2 by {
      assert b.acks == c.acks[..|b.acks|];
    }
    GoneTrans(a.buffer, b.buffer, c.buffer, g1, g2);
    OutputsTrans(a.buffer, b.buffer, c.buffer, g1, g2);
    AppendTwice(a.processed, b.processed, c.processed, Outputs(a.buffer, g1), Outputs(b.buffer, g2));
  }

  /** Two appends to a log are one append of both parts. */
  lemma AppendTwice(p0: seq<Processed>, p1: seq<Processed>, p2: seq<Processed>, o1: seq<Processed>, o2: seq<Processed>)
    requires p1 == p0 + o1 && p2 == p1 + o2
    ensures p2 == p0 + (o1 + o2)
  {
  }

  lemma GoneTrans(a: map<int, Entry>, b: map<int, Entry>, c: map<int, Entry>, g1: seq<int>, g2: seq<int>)
    requires Keeps(a, b) && Keeps(b, c)
    requires Gone(a, b, g1) && Gone(b, c, g2)
    ensures Keeps(a, c) && Gone(a, c, g1 + g2)
  {
    DistinctJoin(g1, g2, b.Keys);
  }

  lemma OutputsTrans(a: map<int, Entry>, b: map<int, Entry>, c: map<int, Entry>, g1: seq<int>, g2: seq<int>)
    requires Keeps(a, b) && Gone(a, b, g1) && Gone(b, c, g2)
    ensures forall k :: k in g1 + g2 ==> k in a
    ensures Outputs(a, g1 + g2) == Outputs(a, g1) + Outputs(b, g2)
  {
    OutputsAgree(b, a, g2);
    OutputsAppend(a, g1, g2);
  }

  /** Two lists of distinct frames, the first outside a set and the second
      inside it, join to a list of distinct frames. */
  lemma DistinctJoin(g1: seq<int>, g2: seq<int>, inside: set<int>)
    requires Distinct(g1) && Distinct(g2)
    requires forall k :: k in g1 ==> k !in inside
    requires forall k :: k in g2 ==> k in inside
    ensures Distinct(g1 + g2)
  {
    var g := g1 + g2;
    forall i, j | 0 <= i < j < |g|
      ensures g[i] != g[j]
    {
      if i < |g1| && j >= |g1| {
        assert g[i] in g1;
        assert g[j] == g2[j - |g1|] && g[j] in g2;
      } else if i >= |g1| {
        assert g[i] == g2[i - |g1|] && g[j] == g2[j - |g1|];
      }
    }
  }

  lemma OutputsAgree(b1: map<int, Entry>, b2: map<int, Entry>, ks: seq<int>)
    requires forall k :: k in ks ==> k in b1 && k in b2 && b1[k] == b2[k]
    ensures Outputs(b1, ks) == Outputs(b2, ks)
  {
  }

  lemma OutputsAppend(buffer: map<int, Entry>, ks1: seq<int>, ks2: seq<int>)
    requires forall k :: k in ks1 + ks2 ==> k in buffer
    ensures Outputs(buffer, ks1 + ks2) == Outputs(buffer, ks1) + Outputs(buffer, ks2)
  {
    assert forall k :: k in ks1 ==> k in ks1 + ks2;
    assert forall k :: k in ks2 ==> k in ks1 + ks2;
  }

  /** `process_and_clear_frame`: a buffered frame is removed, handed to the
      application, acknowledged, and raises the processed mark; a frame not
      in the buffer is ignored. */
  function Finalize(s: RxState, frameId: int): (r: RxState)
    requires WellFormed(s)
    ensures WellFormed(r) && HandsOff(s, r)
    ensures frameId !in s.buffer ==> r == s
    ensures frameId in s.buffer ==>
      && r.buffer == s.buffer - {frameId}
      && r.lastProcessed == Max(s.lastProcessed, frameId)
      && r.acks == s.acks + [frameId]
      && r.processed == s.processed + [ProcessFrameData(frameId, s.buffer[frameId])]
  {
    if frameId !in s.buffer then
      assert s.acks[|s.acks|..] == [];
      s
    else
      assert (s.acks + [frameId])[|s.acks|..] == [frameId];
      RxState(Remove(s.order, frameId), s.buffer - {frameId}, s.current, Max(s.lastProcessed, frameId),
              s.acks + [frameId], s.processed + [ProcessFrameData(frameId, s.buffer[frameId])])
  }

  /** The loop `for fid in list(buffer.keys()): if fid < bound: ...` over
      the snapshot `ks`, written as: the first |ks| - 1 steps, then the
      last. */
  function FinalizeOlder(s: RxState, ks: seq<int>, bound: int): (r: RxState)
    requires WellFormed(s)
    ensures WellFormed(r) && HandsOff(s, r)
    ensures forall k :: k in ks && k < bound ==> k !in r.buffer
    ensures forall k :: k in s.buffer && !(k in ks && k < bound) ==> k in r.buffer
  {
    if ks == [] then s
    else
      var prev := FinalizeOlder(s, ks[..|ks| - 1], bound);
      var k := ks[|ks| - 1];
      assert forall x :: x in ks <==> x in ks[..|ks| - 1] || x == k;
      if k < bound then
        var r := Finalize(prev, k);
        HandsOffTrans(s, prev, r);
        r
      else prev
  }

  /** The "next frame" trigger for an incoming frame number: the frame being
      collected and every buffered frame older than the new one are handed
      off, and the new one becomes the frame being collected. */
  function NextFrame(s: RxState, frameId: int): (r: RxState)
    requires WellFormed(s)
    ensures WellFormed(r)
    ensures r.current == frameId
    ensures HandsOff(s, r.(current := s.current))
    ensures forall k :: k in r.buffer ==> k >= frameId
    ensures forall k :: k in s.buffer && k >= frameId && k != s.current ==> k in r.buffer
  {
    var a := if s.current != NoFrame then Finalize(s, s.current) else s;
    var b := FinalizeOlder(a, a.order, frameId);
    HandsOffTrans(s, a, b);
    b.(current := frameId)
  }

  /** The buffer entry a frame's first message creates: JSON data, or a
      point cloud's count, type and width with no chunk yet. */
  function NewEntry(m: DataMessage): (e: Entry)
    ensures e.JsonEntry? <==> m.frag.None?
    ensures e.PcdEntry? ==>
      && e.chunks == map[] && e.total == m.frag.value.totalChunks
      && e.dtype == m.frag.value.dtype && e.shapeDim == m.frag.value.width
  {
    match m.frag
    case None => JsonEntry(m.jsonData)
    case Some(f) => PcdEntry(f.totalChunks, f.dtype, f.width, map[])
  }

  /** A point-cloud chunk is stored under its index unless that index is
      already filled (the first copy wins); a JSON entry takes no chunk, and
      the metadata never changes. */
  function StoreChunk(e: Entry, m: DataMessage): (r: Entry)
    ensures e.JsonEntry? || m.frag.None? ==> r == e
    ensures e.PcdEntry? ==> r.PcdEntry? && r.total == e.total && r.dtype == e.dtype && r.shapeDim == e.shapeDim
    ensures e.PcdEntry? && m.frag.Some? ==>
      var i := m.frag.value.chunkIndex;
      && r.chunks.Keys == e.chunks.Keys + {i}
      && (forall j :: j in e.chunks ==> r.chunks[j] == e.chunks[j])
      && (i !in e.chunks ==> r.chunks[i] == m.pcdChunkBytes)
  {
    match m.frag
    case None => e
    case Some(f) =>
      if e.PcdEntry? && f.chunkIndex !in e.chunks then
        e.(chunks := e.chunks[f.chunkIndex := m.pcdChunkBytes])
      else e
  }

  /** Storing a message of the frame being collected. */
  function Insert(s: RxState, frameId: int, m: DataMessage): (r: RxState)
    requires WellFormed(s)
    ensures WellFormed(r)
    ensures r.buffer.Keys == s.buffer.Keys + {frameId}
    ensures forall k :: k in s.buffer && k != frameId ==> r.buffer[k] == s.buffer[k]
    ensures r.buffer[frameId] == StoreChunk(if frameId in s.buffer then s.buffer[frameId] else NewEntry(m), m)
    ensures r.current == s.current && r.lastProcessed == s.lastProcessed
    ensures r.acks == s.acks && r.processed == s.processed
  {
    var order := if frameId in s.buffer then s.order else s.order + [frameId];
    var e := if frameId in s.buffer then s.buffer[frameId] else NewEntry(m);
    s.(order := order, buffer := s.buffer[frameId := StoreChunk(e, m)])
  }

  lemma RemoveOneSize<V>(m: map<int, V>, k: int)
    requires k in m
    ensures |m - {k}| == |m| - 1
  {
    assert (m - {k}).Keys + {k} == m.Keys;
    assert |(m - {k}).Keys| == |m.Keys| - 1;
  }

  /** The smallest element of a non-empty list. */
  function MinOf(xs: seq<int>): (m: int)
    requires xs != []
    ensures m in xs && forall x :: x in xs ==> m <= x
  {
    if |xs| == 1 then xs[0]
    else
      var rest := MinOf(xs[1..]);
      assert forall x :: x in xs ==> x == xs[0] || x in xs[1..];
      if xs[0] <= rest then xs[0] else rest
  }

  /** The overflow guard: while more than five frames are buffered, the
      oldest one is handed off, so an overfull buffer ends with exactly
      five. */
  function Evict(s: RxState): (r: RxState)
    requires WellFormed(s)
    ensures WellFormed(r) && HandsOff(s, r)
    ensures |r.buffer| <= MaxFrameLag
    ensures |s.buffer| <= MaxFrameLag ==> r == s
    ensures |s.buffer| > MaxFrameLag ==> |r.buffer| == MaxFrameLag
    ensures forall k, j :: k in s.buffer && k !in r.buffer && j in r.buffer ==> k < j
    decreases |s.buffer|
  {
    if |s.buffer| <= MaxFrameLag then s
    else
      assert s.order != [] by {
        assert s.buffer.Keys != {};
        NonEmpty(s.buffer.Keys);
        var k :| k in s.buffer.Keys;
        assert k in s.order;
      }
      var oldest := MinOf(s.order);
      var next := Finalize(s, oldest);
      RemoveOneSize(s.buffer, oldest);
      var r := Evict(next);
      HandsOffTrans(s, next, r);
      r
  }

  /** The main loop's handling of one datagram. A message that does not
      decode, has no frame number, or belongs to a frame at or below the
      processed mark is dropped. A newer frame fires the next-frame trigger;
      a message of the frame being collected is stored; its marker hands the
      frame off; then the buffer is trimmed. */
  function Receive(s: RxState, p: Received): (r: RxState)
    requires WellFormed(s)
    ensures WellFormed(r)
    ensures |r.buffer| <= MaxFrameLag || r == s
    ensures r.lastProcessed >= s.lastProcessed
    ensures s.acks <= r.acks && s.processed <= r.processed
    ensures p.Undecodable? || p.msg.frameId.None? ==> r == s
    ensures p.Decoded? && p.msg.frameId.Some? && p.msg.frameId.value <= s.lastProcessed ==> r == s
    ensures p.Decoded? && p.msg.frameId.Some? && p.msg.frameId.value > s.lastProcessed ==>
      r.current == Max(s.current, p.msg.frameId.value)
  {
    match p
    case Undecodable => s
    case Decoded(m) =>
      match m.frameId
      case None => s
      case Some(frameId) =>
        if frameId <= s.lastProcessed then s else Evict(Accept(s, m, frameId))
  }

  /** The handling of a message of a frame above the processed mark, before
      the buffer is trimmed: a newer frame fires the next-frame trigger; a
      message of the frame being collected is stored; its marker hands the
      frame off. */
  function Accept(s: RxState, m: DataMessage, frameId: int): (r: RxState)
    requires WellFormed(s)
    ensures WellFormed(r)
    ensures r.current == Max(s.current, frameId)
    ensures r.lastProcessed >= s.lastProcessed
    ensures s.acks <= r.acks && s.processed <= r.processed
  {
    var s1 := if frameId > s.current then NextFrame(s, frameId) else s;
    assert s.acks <= s1.acks && s.processed <= s1.processed by {
      if frameId > s.current {
        HandsOffGrows(s, s1.(current := s.current));
      }
    }
    var s2 := if frameId == s1.current then Insert(s1, frameId, m) else s1;
    if m.marker && frameId == s2.current then
      var s3 := Finalize(s2, frameId);
      HandsOffGrows(s2, s3);
      s3
    else
      s2
  }

  /** The shutdown path: the frame being collected, if buffered, is handed
      off. */
  function Flush(s: RxState): (r: RxState)
    requires WellFormed(s)
    ensures WellFormed(r) && HandsOff(s, r)
    ensures s.current != NoFrame ==> s.current !in r.buffer
    ensures forall k :: k in s.buffer && k != s.current ==> k in r.buffer
  {
    if s.current != NoFrame then Finalize(s, s.current) else s
  }

  // ---------------------------------------------------------------------
  // The invariant of the receive loop
  // ---------------------------------------------------------------------

  /** What holds between messages: at most the frame being collected is
      buffered, above the processed mark; the acknowledgments strictly
      increase and the last one is the processed mark; every hand-off is
      acknowledged with its own frame number. */
  ghost predicate Inv(s: RxState) {
    && WellFormed(s)
    && NoFrame <= s.lastProcessed <= s.current
    && (forall k :: k in s.buffer ==> k == s.current && s.lastProcessed < k)
    && |s.processed| == |s.acks|
    && (forall i :: 0 <= i < |s.acks| ==> s.processed[i].frameId == s.acks[i])
    && (forall i, j :: 0 <= i < j < |s.acks| ==> s.acks[i] < s.acks[j])
    && (forall i :: 0 <= i < |s.acks| ==> s.acks[i] <= s.lastProcessed)
    && (if s.acks == [] then s.lastProcessed == NoFrame else s.acks[|s.acks| - 1] == s.lastProcessed)
  }

  lemma InitialInv()
    ensures Inv(Initial)
  {
  }

  /** Under the invariant the buffer holds the frame being collected or
      nothing. */
  lemma InvBuffer(s: RxState)
    requires Inv(s)
    ensures s.current !in s.buffer ==> s.buffer == map[]
    ensures s.current in s.buffer ==> |s.buffer| == 1 && s.buffer - {s.current} == map[]
    ensures |s.buffer| <= 1
  {
    assert forall k :: k in s.buffer ==> k == s.current;
    if s.current !in s.buffer {
      forall k
        ensures k !in s.buffer
      {
      }
      EmptyMap(s.buffer);
    } else {
      var rest := s.buffer - {s.current};
      forall k
        ensures k !in rest
      {
      }
      EmptyMap(rest);
      RemoveOneSize(s.buffer, s.current);
    }
  }

  lemma {:induction false} FinalizeOlderIdle(s: RxState, ks: seq<int>, bound: int)
    requires WellFormed(s) && s.buffer == map[]
    ensures FinalizeOlder(s, ks, bound) == s
  {
    if ks != [] {
      FinalizeOlderIdle(s, ks[..|ks| - 1], bound);
    }
  }

  /** Handing off the frame being collected, above the processed mark,
      keeps the invariant and empties the buffer. */
  lemma FinalizeCurrentInv(s: RxState)
    requires Inv(s) && s.current in s.buffer
    ensures var r := Finalize(s, s.current);
      Inv(r) && r.buffer == map[] && r.lastProcessed == s.current && r.acks == s.acks + [s.current]
  {
    InvBuffer(s);
    var r := Finalize(s, s.current);
    assert s.acks == r.acks[..|s.acks|];
    forall i, j | 0 <= i < j < |r.acks|
      ensures r.acks[i] < r.acks[j]
    {
      if j == |s.acks| {
        assert r.acks[i] == s.acks[i] <= s.lastProcessed;
      } else {
        assert r.acks[i] == s.acks[i] && r.acks[j] == s.acks[j];
      }
    }
    forall i | 0 <= i < |r.acks|
      ensures r.processed[i].frameId == r.acks[i]
    {
      if i < |s.acks| {
        assert r.processed[i] == s.processed[i];
      }
    }
  }

  /** Under the invariant, the next-frame trigger hands off at most the frame
      being collected and leaves an empty buffer. */
  lemma NextFrameInv(s: RxState, frameId: int)
    requires Inv(s) && frameId > s.current
    ensures var r := NextFrame(s, frameId);
      && r.buffer == map[]
      && r.current == frameId
      && r.lastProcessed == (if s.current in s.buffer then s.current else s.lastProcessed)
      && r.acks == s.acks + (if s.current in s.buffer then [s.current] else [])
      && Inv(r)
  {
    InvBuffer(s);
    var a := if s.current != NoFrame then Finalize(s, s.current) else s;
    if s.current in s.buffer {
      FinalizeCurrentInv(s);
    } else {
      assert a == s;
    }
    assert Inv(a) && a.buffer == map[];
    FinalizeOlderIdle(a, a.order, frameId);
    assert NextFrame(s, frameId) == a.(current := frameId);
    RetargetInv(a, frameId);
  }

  /** With nothing buffered, moving the frame being collected forward keeps
      the invariant. */
  lemma RetargetInv(a: RxState, frameId: int)
    requires Inv(a) && a.buffer == map[] && frameId >= a.current
    ensures Inv(a.(current := frameId))
  {
  }

  /** Storing a message of the frame being collected, above the processed
      mark, keeps the invariant. */
  lemma InsertInv(s: RxState, m: DataMessage)
    requires Inv(s) && s.current > s.lastProcessed
    ensures var r := Insert(s, s.current, m);
      Inv(r) && r.current in r.buffer
  {
    var r := Insert(s, s.current, m);
    assert forall k :: k in s.buffer ==> k == s.current;
    forall k | k in r.buffer
      ensures k == r.current && r.lastProcessed < k
    {
      assert k in s.buffer.Keys + {s.current};
    }
  }

  /** What a message of a frame above both marks (or of the frame being
      collected) does, under the invariant: the previous frame is handed off
      if it is newer-triggered, the message is stored, and its marker hands
      the frame off. */
  lemma AcceptedStep(s: RxState, m: DataMessage)
    requires Inv(s) && m.frameId.Some?
    requires m.frameId.value > s.lastProcessed && m.frameId.value >= s.current
    ensures var frameId := m.frameId.value;
      var s1 := if frameId > s.current then NextFrame(s, frameId) else s;
      var s2 := Insert(s1, frameId, m);
      var r := Receive(s, Decoded(m));
      && Inv(s1) && s1.current == frameId && s1.lastProcessed < frameId
      && Inv(s2) && frameId in s2.buffer
      && (m.marker ==> r == Finalize(s2, frameId))
      && (!m.marker ==> r == s2)
      && Inv(r)
  {
    var frameId := m.frameId.value;
    var s1 := if frameId > s.current then NextFrame(s, frameId) else s;
    if frameId > s.current {
      NextFrameInv(s, frameId);
    }
    assert Inv(s1) && s1.current == frameId;
    var s2 := if frameId == s1.current then Insert(s1, frameId, m) else s1;
    InsertInv(s1, m);
    if m.marker {
      var s3 := Finalize(s2, frameId);
      FinalizeCurrentInv(s2);
      assert Accept(s, m, frameId) == s3;
      ReceiveAccepted(s, m);
    } else {
      assert Accept(s, m, frameId) == s2;
      ReceiveAccepted(s, m);
    }
  }

  /** An accepted message leaves at most one frame buffered, so the trim
      after it changes nothing. */
  lemma ReceiveAccepted(s: RxState, m: DataMessage)
    requires Inv(s) && m.frameId.Some? && m.frameId.value > s.lastProcessed
    requires Inv(Accept(s, m, m.frameId.value))
    ensures Receive(s, Decoded(m)) == Accept(s, m, m.frameId.value)
  {
    var a := Accept(s, m, m.frameId.value);
    InvBuffer(a);
    assert Evict(a) == a;
  }

  /** Every step of the receive loop keeps the invariant. */
  lemma ReceiveInv(s: RxState, p: Received)
    requires Inv(s)
    ensures Inv(Receive(s, p))
  {
    if p.Decoded? && p.msg.frameId.Some? && p.msg.frameId.value > s.lastProcessed {
      if p.msg.frameId.value >= s.current {
        AcceptedStep(s, p.msg);
      } else {
        BetweenMarksIgnored(s, p);
      }
    }
  }

  /** The receive loop over a sequence of datagrams. */
  function ReceiveAll(s: RxState, ps: seq<Received>): (r: RxState)
    requires WellFormed(s)
    ensures WellFormed(r)
  {
    if ps == [] then s else Receive(ReceiveAll(s, ps[..|ps| - 1]), ps[|ps| - 1])
  }

  /** Whatever arrives, in whatever order: no frame is acknowledged or
      handed off twice, hand-offs are in increasing frame order, each
      hand-off has its acknowledgment, and at most one frame is buffered. */
  lemma {:induction false} ReceiveAllInv(ps: seq<Received>)
    ensures var r := ReceiveAll(Initial, ps);
      && Inv(r)
      && |r.buffer| <= 1
  {
    if ps != [] {
      ReceiveAllInv(ps[..|ps| - 1]);
      ReceiveInv(ReceiveAll(Initial, ps[..|ps| - 1]), ps[|ps| - 1]);
    }
    InvBuffer(ReceiveAll(Initial, ps));
  }

  /** A message of a frame between the processed mark and the frame being
      collected (a late packet of a frame that was never buffered) changes
      nothing. */
  lemma BetweenMarksIgnored(s: RxState, p: Received)
    requires Inv(s) && p.Decoded? && p.msg.frameId.Some?
    requires s.lastProcessed < p.msg.frameId.value < s.current
    ensures Receive(s, p) == s
  {
    InvBuffer(s);
  }

  /** The marker of a frame at or above the one being collected hands that
      frame off at once: it is acknowledged last, becomes the processed
      mark, and nothing stays buffered; the frame that was being collected
      before it, if buffered, is handed off first. */
  lemma MarkerHandsOff(s: RxState, p: Received)
    requires Inv(s) && p.Decoded? && p.msg.frameId.Some? && p.msg.marker
    requires p.msg.frameId.value > s.lastProcessed && p.msg.frameId.value >= s.current
    ensures var r, frameId := Receive(s, p), p.msg.frameId.value;
      && r.buffer == map[]
      && r.current == frameId
      && r.lastProcessed == frameId
      && r.acks == s.acks + (if s.current != frameId && s.current in s.buffer then [s.current] else []) + [frameId]
  {
    var m, frameId := p.msg, p.msg.frameId.value;
    assert p == Decoded(m);
    AcceptedStep(s, m);
    MarkerFinalizes(s, m);
  }

  /** The state a marker of an accepted frame leaves behind: the frame
      stored, then handed off. */
  lemma MarkerFinalizes(s: RxState, m: DataMessage)
    requires Inv(s) && m.frameId.Some?
    requires m.frameId.value > s.lastProcessed && m.frameId.value >= s.current
    ensures var frameId := m.frameId.value;
      var s1 := if frameId > s.current then NextFrame(s, frameId) else s;
      var s2 := Insert(s1, frameId, m);
      WellFormed(s1) && WellFormed(s2) &&
      var r := Finalize(s2, frameId);
      && r.buffer == map[]
      && r.current == frameId
      && r.lastProcessed == frameId
      && r.acks == s.acks + (if s.current != frameId && s.current in s.buffer then [s.current] else []) + [frameId]
  {
    var frameId := m.frameId.value;
    var s1 := if frameId > s.current then NextFrame(s, frameId) else s;
    var acks1 := s.acks + (if s.current != frameId && s.current in s.buffer then [s.current] else []);
    if frameId > s.current {
      NextFrameInv(s, frameId);
    } else {
      assert s1.acks == acks1;
    }
    var s2 := Insert(s1, frameId, m);
    InsertInv(s1, m);
    assert s2.acks == acks1;
    FinalizeCurrentInv(s2);
  }

  /** A second copy of a chunk already stored (same frame, same index, no
      marker) changes nothing: the first copy wins. */
  lemma DuplicateChunkIgnored(s: RxState, p: Received)
    requires Inv(s) && p.Decoded? && p.msg.frameId == Some(s.current) && !p.msg.marker
    requires s.current in s.buffer && s.buffer[s.current].PcdEntry?
    requires p.msg.frag.Some? && p.msg.frag.value.chunkIndex in s.buffer[s.current].chunks
    ensures Receive(s, p) == s
  {
    InvBuffer(s);
    var e := s.buffer[s.current];
    assert StoreChunk(e, p.msg) == e;
    var r := Insert(s, s.current, p.msg);
    assert r.buffer == s.buffer;
    assert r.order == s.order;
  }

  /** After the marker of a frame, any later chunk of that frame is stale
      and changes nothing. */
  lemma LateChunkAfterMarker(s: RxState, p: Received, q: Received)
    requires Inv(s) && p.Decoded? && p.msg.frameId.Some? && p.msg.marker
    requires p.msg.frameId.value > s.lastProcessed && p.msg.frameId.value >= s.current
    requires q.Decoded? && q.msg.frameId == p.msg.frameId
    ensures Receive(Receive(s, p), q) == Receive(s, p)
  {
    MarkerHandsOff(s, p);
  }

  /** Handing off a frame twice is handing it off once. */
  lemma FinalizeIdempotent(s: RxState, frameId: int)
    requires WellFormed(s)
    ensures Finalize(Finalize(s, frameId), frameId) == Finalize(s, frameId)
  {
  }

  /** Chunks 0, 1 and 3 of a four-chunk frame: the frame is handed off
      incomplete, with three chunks, their bytes joined in index order and
      the missing chunk skipped. */
  lemma MissingChunkSkipped(frameId: int, dtype: string, shapeDim: int, c0: seq<Byte>, c1: seq<Byte>, c3: seq<Byte>)
    ensures ProcessFrameData(frameId, PcdEntry(4, dtype, shapeDim, map[3 := c3, 0 := c0, 1 := c1]))
         == PcdFrame(frameId, 3, 4, dtype, false, Reshape(c0 + c1 + c3, shapeDim))
  {
    var m3 := map[3 := c3, 0 := c0, 1 := c1];
    var m1 := m3 - {3};
    var m0 := m1 - {1};
    assert 3 in m3.Keys && SetMax(m3.Keys) == 3;
    assert m1.Keys == {0, 1};
    assert 1 in m1.Keys && SetMax(m1.Keys) == 1;
    assert m0.Keys == {0};
    assert 0 in m0.Keys && SetMax(m0.Keys) == 0;
    assert (m0 - {0}).Keys == {};
    assert JoinChunks(m0) == c0;
    assert JoinChunks(m1) == c0 + c1;
    assert JoinChunks(m3) == c0 + c1 + c3;
    assert |m3| == 3 by {
      assert m3.Keys == {0, 1, 3};
    }
  }

  /** At shutdown a buffered frame is handed off and nothing is left. */
  lemma FlushInv(s: RxState)
    requires Inv(s)
    ensures Inv(Flush(s)) && Flush(s).buffer == map[]
  {
    InvBuffer(s);
    if s.current in s.buffer {
      FinalizeCurrentInv(s);
    }
  }

  // ---------------------------------------------------------------------
  // The receiver object
  // ---------------------------------------------------------------------

  /** `LidarReceiver`: the reassembly buffer and the two frame marks;
      `acks` and `processed` record what was sent on the acknowledgment
      channel and handed to the application. */
  class Receiver {
    var order: seq<int>
    var buffer: map<int, Entry>
    var current: int
    var lastProcessed: int
    var acks: seq<int>
    var processed: seq<Processed>

    function State(): RxState
      reads this
    {
      RxState(order, buffer, current, lastProcessed, acks, processed)
    }

    ghost predicate Valid()
      reads this
    {
      WellFormed(State())
    }

    constructor ()
      ensures State() == Initial && Valid()
    {
      order, buffer, current, lastProcessed, acks, processed := [], map[], NoFrame, NoFrame, [], [];
    }

    /** `process_and_clear_frame`. */
    method ProcessAndClearFrame(frameId: int)
      requires Valid()
      modifies this
      ensures Valid()
      ensures State() == Finalize(old(State()), frameId)
    {
      if frameId in buffer {
        var frameData := buffer[frameId];
        order := Remove(order, frameId);
        buffer := buffer - {frameId};
        var result := ProcessFrameData(frameId, frameData);
        processed := processed + [result];
        acks := acks + [frameId];
        lastProcessed := Max(lastProcessed, frameId);
      }
    }

    /** One pass of the `run` loop for a received datagram. */
    method OnMessage(p: Received)
      requires Valid()
      modifies this
      ensures Valid()
      ensures State() == Receive(old(State()), p)
    {
      if p.Undecodable? || p.msg.frameId.None? {
        return;
      }
      var m, frameId := p.msg, p.msg.frameId.value;
      if frameId <= lastProcessed {
        return;
      }
      ghost var s0 := State();
      if frameId > current {
        NextFrameTrigger(frameId);
      }
      ghost var s1 := State();
      assert s1 == if frameId > s0.current then NextFrame(s0, frameId) else s0;
      if frameId == current {
        Store(frameId, m);
      }
      ghost var s2 := State();
      assert s2 == if frameId == s1.current then Insert(s1, frameId, m) else s1;
      if m.marker && frameId == current {
        ProcessAndClearFrame(frameId);
      }
      assert State() == if m.marker && frameId == s2.current then Finalize(s2, frameId) else s2;
      TrimBuffer();
    }

    /** The "next frame" trigger of `run`. */
    method NextFrameTrigger(frameId: int)
      requires Valid()
      modifies this
      ensures Valid()
      ensures State() == NextFrame(old(State()), frameId)
    {
      if current != NoFrame {
        ProcessAndClearFrame(current);
      }
      FinalizeOlderLoop(order, frameId);
      current := frameId;
    }

    /** `for fid in list(buffer.keys()): if fid < bound: ...` over the
        snapshot `keys`. */
    method FinalizeOlderLoop(keys: seq<int>, bound: int)
      requires Valid()
      modifies this
      ensures Valid()
      ensures State() == FinalizeOlder(old(State()), keys, bound)
    {
      ghost var a := State();
      var i := 0;
      while i < |keys|
        invariant 0 <= i <= |keys|
        invariant Valid()
        invariant State() == FinalizeOlder(a, keys[..i], bound)
      {
        assert keys[..i + 1][..i] == keys[..i];
        if keys[i] < bound {
          ProcessAndClearFrame(keys[i]);
        }
        i := i + 1;
      }
      assert keys[..i] == keys;
    }

    /** Storing a message of the frame being collected. */
    method Store(frameId: int, m: DataMessage)
      requires Valid()
      modifies this
      ensures Valid()
      ensures State() == Insert(old(State()), frameId, m)
    {
      var e := if frameId in buffer then buffer[frameId] else NewEntry(m);
      if frameId !in buffer {
        order := order + [frameId];
      }
      buffer := buffer[frameId := StoreChunk(e, m)];
    }

    /** The overflow guard of `run`. */
    method TrimBuffer()
      requires Valid()
      modifies this
      ensures Valid()
      ensures State() == Evict(old(State()))
    {
      while |buffer| > MaxFrameLag
        invariant Valid()
        invariant Evict(State()) == Evict(old(State()))
        decreases |buffer|
      {
        assert order != [] by {
          assert buffer.Keys != {};
          NonEmpty(buffer.Keys);
          var k :| k in buffer.Keys;
          assert k in order;
        }
        var oldest := MinOf(order);
        RemoveOneSize(buffer, oldest);
        ProcessAndClearFrame(oldest);
      }
    }

    /** The shutdown path of `run`. */
    method Shutdown()
      requires Valid()
      modifies this
      ensures Valid()
      ensures State() == Flush(old(State()))
    {
      if current != NoFrame && current in buffer {
        ProcessAndClearFrame(current);
      }
    }
  }
}
