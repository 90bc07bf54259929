/** The aggregate feedback channel of the single-packet path: a fixed 36-byte
    big-endian record `!IdQQQ` = magic (u32), original send timestamp
    (float64, kept as its bit pattern), sequence, received and lost counts
    (u64 each). */
module RttTracker {
  import opened WireBytes

  /** "RTFP". */
  const Magic: nat := 0x52544650
  const FeedbackSize: nat := 36

  datatype FeedbackRecord = FeedbackRecord(magic: nat, timestamp: U64, sequence: nat, received: nat, lost: nat)

  predicate IsU64(n: int) { 0 <= n < Pow256(8) }

  /** `struct.pack(FEEDBACK_FORMAT, MAGIC, ts, seq, received, lost)`; None
      where `struct.pack` raises on a count outside the u64 range. */
  function EncodeFeedback(timestamp: U64, sequence: int, received: int, lost: int): (r: Option<seq<Byte>>)
    ensures r.Some? <==> IsU64(sequence) && IsU64(received) && IsU64(lost)
    ensures r.Some? ==> |r.value| == FeedbackSize
    ensures r.Some? ==>
      && Magic < Pow256(4) && IsU64(timestamp)
      && r.value == EncodeBE(Magic, 4) + EncodeBE(timestamp, 8) + EncodeBE(sequence, 8)
                    + EncodeBE(received, 8) + EncodeBE(lost, 8)
  {
    if IsU64(sequence) && IsU64(received) && IsU64(lost) then
      Pow256Widths();
      Some(EncodeBE(Magic, 4) + EncodeBE(timestamp, 8) + EncodeBE(sequence, 8)
           + EncodeBE(received, 8) + EncodeBE(lost, 8))
    else None
  }

  /** `struct.unpack(FEEDBACK_FORMAT, data[:FEEDBACK_SIZE])`: only the first
      36 bytes are read; None where the slice is too short. */
  function DecodeFeedback(data: seq<Byte>): (r: Option<FeedbackRecord>)
    ensures r.Some? <==> |data| >= FeedbackSize
    ensures r.Some? ==> r.value.magic < Pow256(4) && IsU64(r.value.sequence)
    ensures r.Some? ==>
      && r.value.magic == DecodeBE(data[..4])
      && r.value.timestamp == DecodeBE(data[4..12])
      && r.value.sequence == DecodeBE(data[12..20])
      && r.value.received == DecodeBE(data[20..28])
      && r.value.lost == DecodeBE(data[28..36])
  {
    if |data| < FeedbackSize then None
    else
      Pow256Widths();
      var d := data[..FeedbackSize];
      assert d[..4] == data[..4] && d[4..12] == data[4..12] && d[12..20] == data[12..20];
      assert d[20..28] == data[20..28] && d[28..36] == data[28..36];
      Some(FeedbackRecord(DecodeBE(d[..4]), DecodeBE(d[4..12]), DecodeBE(d[12..20]),
                          DecodeBE(d[20..28]), DecodeBE(d[28..36])))
  }

  /** Bytes after the first 36 do not change what is decoded. */
  lemma TrailingBytesIgnored(data: seq<Byte>, extra: seq<Byte>)
    requires |data| >= FeedbackSize
    ensures DecodeFeedback(data + extra) == DecodeFeedback(data)
  {
    assert (data + extra)[..FeedbackSize] == data[..FeedbackSize];
  }

  /** Decoding what the feedback sender encodes gives back the magic and
      every field, whatever trails the record in the datagram. */
  lemma DecodeEncodeFeedback(timestamp: U64, sequence: int, received: int, lost: int, trailing: seq<Byte>)
    requires EncodeFeedback(timestamp, sequence, received, lost).Some?
    ensures DecodeFeedback(EncodeFeedback(timestamp, sequence, received, lost).value + trailing)
         == Some(FeedbackRecord(Magic, timestamp, sequence, received, lost))
  {
    Pow256Widths();
    var e := EncodeFeedback(timestamp, sequence, received, lost).value;
    assert e[..4] == EncodeBE(Magic, 4);
    assert e[4..12] == EncodeBE(timestamp, 8);
    assert e[12..20] == EncodeBE(sequence, 8);
    assert e[20..28] == EncodeBE(received, 8);
    assert e[28..36] == EncodeBE(lost, 8);
    assert (e + trailing)[..FeedbackSize] == e;
    DecodeEncodeBE(Magic, 4);
    DecodeEncodeBE(timestamp, 8);
    DecodeEncodeBE(sequence, 8);
    DecodeEncodeBE(received, 8);
    DecodeEncodeBE(lost, 8);
  }

  /** Conversely, the first 36 bytes of a datagram that carries the right
      magic are exactly the record the feedback sender builds from its
      decoded fields: the layout loses nothing. */
  lemma EncodeDecodeFeedback(data: seq<Byte>)
    requires |data| >= FeedbackSize && DecodeFeedback(data).value.magic == Magic
    ensures var rec := DecodeFeedback(data).value;
      EncodeFeedback(rec.timestamp, rec.sequence, rec.received, rec.lost) == Some(data[..FeedbackSize])
  {
    Pow256Widths();
    var d := data[..FeedbackSize];
    EncodeDecodeBE(d[..4]);
    EncodeDecodeBE(d[4..12]);
    EncodeDecodeBE(d[12..20]);
    EncodeDecodeBE(d[20..28]);
    EncodeDecodeBE(d[28..36]);
    assert d == d[..4] + d[4..12] + d[12..20] + d[20..28] + d[28..36];
  }

  /** What `on_feedback` is called with; the RTT in milliseconds is computed
      from the wall clock and the timestamp, and is not modelled. */
  datatype FeedbackEvent = FeedbackEvent(timestamp: U64, sequence: nat, received: nat, lost: nat)

  /** The producer-side tracker: the receiver's last reported counters. */
  class Tracker {
    var receiverLastSeq: nat
    var receiverReceived: nat
    var receiverLost: nat

    constructor ()
      ensures receiverLastSeq == 0 && receiverReceived == 0 && receiverLost == 0
    {
      receiverLastSeq, receiverReceived, receiverLost := 0, 0, 0;
    }

    /** `_process_feedback`: a record with the right magic overwrites all
        three counters (last write wins, nothing is kept monotone) and is
        reported; anything else changes nothing. */
    method ProcessFeedback(data: seq<Byte>) returns (event: Option<FeedbackEvent>)
      modifies this
      ensures var rec := DecodeFeedback(data);
        if rec.Some? && rec.value.magic == Magic then
          && receiverLastSeq == rec.value.sequence
          && receiverReceived == rec.value.received
          && receiverLost == rec.value.lost
          && event == Some(FeedbackEvent(rec.value.timestamp, rec.value.sequence, rec.value.received, rec.value.lost))
        else
          && receiverLastSeq == old(receiverLastSeq)
          && receiverReceived == old(receiverReceived)
          && receiverLost == old(receiverLost)
          && event == None
    {
      var rec := DecodeFeedback(data);
      if rec.None? || rec.value.magic != Magic {
        return None;
      }
      receiverLastSeq := rec.value.sequence;
      receiverReceived := rec.value.received;
      receiverLost := rec.value.lost;
      event := Some(FeedbackEvent(rec.value.timestamp, rec.value.sequence, rec.value.received, rec.value.lost));
    }

    /** One datagram taken by the `_listen` loop: shorter than a record, it
        is dropped before decoding; otherwise it is processed as
        `_process_feedback` does, a wrong magic changing nothing. */
    method OnDatagram(data: seq<Byte>) returns (event: Option<FeedbackEvent>)
      modifies this
      ensures |data| < FeedbackSize ==>
        && event == None
        && receiverLastSeq == old(receiverLastSeq)
        && receiverReceived == old(receiverReceived)
        && receiverLost == old(receiverLost)
      ensures |data| >= FeedbackSize ==>
        var rec := DecodeFeedback(data).value;
        if rec.magic == Magic then
          && receiverLastSeq == rec.sequence
          && receiverReceived == rec.received
          && receiverLost == rec.lost
          && event == Some(FeedbackEvent(rec.timestamp, rec.sequence, rec.received, rec.lost))
        else
          && receiverLastSeq == old(receiverLastSeq)
          && receiverReceived == old(receiverReceived)
          && receiverLost == old(receiverLost)
          && event == None
    {
      event := None;
      if |data| >= FeedbackSize {
        event := ProcessFeedback(data);
      }
    }
  }

  /** The consumer-side sender of feedback records; `hasSocket` is false when
      creating the datagram socket failed. Sent datagrams are appended to
      `outbox`. */
  class FeedbackSender {
    var hasSocket: bool
    var outbox: seq<seq<Byte>>

    constructor (socketCreated: bool)
      ensures hasSocket == socketCreated && outbox == []
    {
      hasSocket, outbox := socketCreated, [];
    }

    /** `send_feedback_now`: nothing without a socket; a packing error is
        caught and nothing is sent; otherwise exactly one record. */
    method SendFeedbackNow(sequence: int, received: int, lost: int, timestamp: U64)
      modifies this
      ensures hasSocket == old(hasSocket)
      ensures var e := EncodeFeedback(timestamp, sequence, received, lost);
        outbox == if hasSocket && e.Some? then old(outbox) + [e.value] else old(outbox)
    {
      if !hasSocket {
        return;
      }
      var e := EncodeFeedback(timestamp, sequence, received, lost);
      if e.Some? {
        outbox := outbox + [e.value];
      }
    }
  }
}
