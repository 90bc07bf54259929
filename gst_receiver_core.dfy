/** The consumer side of the single-packet-per-frame path: the frame header
    parser and the per-sample dispatch to the application callback. */
module GstReceiverCore {
  import opened WireBytes
  import Utf8
  import opened GstSenderCore

  /** What `unpack_metadata` returns. */
  datatype Header = Header(sequence: U64, timestamp: U64, filename: string, data: seq<Byte>)

  /** `unpack_metadata`: None where Python raises, which is when fewer than
      20 bytes arrive (a short `struct.unpack` slice) or when the name bytes
      are not UTF-8. A declared name length that runs past the end is clamped
      by the slice, as Python slicing does. */
  function UnpackMetadata(packed: seq<Byte>): (r: Option<Header>)
    ensures |packed| < HeaderSize ==> r.None?
    ensures r.Some? <==>
      && |packed| >= HeaderSize
      && Utf8.Decode(packed[HeaderSize..Min(HeaderSize + DecodeLE(packed[16..HeaderSize]), |packed|)]).Some?
    ensures r.Some? ==>
      var nameEnd := Min(HeaderSize + DecodeLE(packed[16..HeaderSize]), |packed|);
      && r.value.sequence == DecodeLE(packed[..8])
      && r.value.timestamp == DecodeLE(packed[8..16])
      && Utf8.Decode(packed[HeaderSize..nameEnd]) == Some(r.value.filename)
      && r.value.data == packed[nameEnd..]
    ensures r.Some? ==> Utf8.Encode(r.value.filename) + r.value.data == packed[HeaderSize..]
    ensures r.Some? && HeaderSize + DecodeLE(packed[16..HeaderSize]) >= |packed| ==> r.value.data == []
  {
    if |packed| < HeaderSize then None
    else
      Pow256Widths();
      var nameLength := DecodeLE(packed[16..HeaderSize]);
      var nameEnd := Min(HeaderSize + nameLength, |packed|);
      match Utf8.Decode(packed[HeaderSize..nameEnd])
      case None => None
      case Some(name) =>
        Utf8.EncodeDecode(packed[HeaderSize..nameEnd]);
        SplitAt(packed, HeaderSize, nameEnd);
        Some(Header(DecodeLE(packed[..8]), DecodeLE(packed[8..16]), name, packed[nameEnd..]))
  }

  /** The tail of `s` from i is its part up to j followed by the rest. */
  lemma SplitAt(s: seq<Byte>, i: nat, j: nat)
    requires i <= j <= |s|
    ensures s[i..] == s[i..j] + s[j..]
  {
  }

  /** Packing and then unpacking gives back every field. */
  lemma UnpackPack(sequence: int, timestamp: U64, filename: string, data: seq<Byte>)
    requires Packable(sequence, filename)
    ensures UnpackMetadata(PackMetadata(sequence, timestamp, filename, data).value)
         == Some(Header(sequence, timestamp, filename, data))
  {
    var p := PackMetadata(sequence, timestamp, filename, data).value;
    var name := Utf8.Encode(filename);
    assert p[HeaderSize..HeaderSize + |name|] == name by {
      assert p[HeaderSize..] == name + data;
    }
    assert p[HeaderSize + |name|..] == data by {
      assert p[HeaderSize..] == name + data;
    }
    Utf8.DecodeEncode(filename);
  }

  /** Conversely, a packet whose declared name length fits re-packs to
      itself: the header format loses nothing. */
  lemma PackUnpack(packed: seq<Byte>)
    requires UnpackMetadata(packed).Some?
    requires HeaderSize + DecodeLE(packed[16..HeaderSize]) <= |packed|
    ensures var h := UnpackMetadata(packed).value;
      PackMetadata(h.sequence, h.timestamp, h.filename, h.data) == Some(packed)
  {
    var h := UnpackMetadata(packed).value;
    Pow256Widths();
    var nameEnd := HeaderSize + DecodeLE(packed[16..HeaderSize]);
    Utf8.EncodeDecode(packed[HeaderSize..nameEnd]);
    assert Utf8.Encode(h.filename) == packed[HeaderSize..nameEnd];
    var p := PackMetadata(h.sequence, h.timestamp, h.filename, h.data).value;
    assert p[HeaderSize..] == packed[HeaderSize..];
    SameHeader(p, packed);
  }

  /** Two packets agree when their three header fields decode alike and
      their bodies agree. */
  lemma SameHeader(p: seq<Byte>, q: seq<Byte>)
    requires |p| >= HeaderSize && |q| >= HeaderSize
    requires DecodeLE(p[..8]) == DecodeLE(q[..8])
    requires DecodeLE(p[8..16]) == DecodeLE(q[8..16])
    requires DecodeLE(p[16..HeaderSize]) == DecodeLE(q[16..HeaderSize])
    requires p[HeaderSize..] == q[HeaderSize..]
    ensures p == q
  {
    DecodeLEInjective(p[..8], q[..8]);
    DecodeLEInjective(p[8..16], q[8..16]);
    DecodeLEInjective(p[16..HeaderSize], q[16..HeaderSize]);
    assert p == p[..8] + p[8..16] + p[16..HeaderSize] + p[HeaderSize..];
    assert q == q[..8] + q[8..16] + q[16..HeaderSize] + q[HeaderSize..];
  }

  /** The arguments `_on_new_sample` hands to `on_packet_received`; the
      receive clock and the latency derived from it are not modelled. */
  datatype Delivery = Delivery(sequence: U64, sendTimestamp: U64, filename: string, data: seq<Byte>, packetSize: nat)

  datatype FlowReturn = FlowOk | FlowError

  /** `_on_new_sample`: the pulled sample (None when the pull yields
      nothing), whether mapping its buffer succeeded, and the pipeline's
      answer with at most one delivery to the application. */
  function OnNewSample(sample: Option<seq<Byte>>, mapped: bool): (r: (FlowReturn, Option<Delivery>))
    ensures r.0 == FlowError <==> sample.None?
    ensures r.1.Some? <==> sample.Some? && mapped && UnpackMetadata(sample.value).Some?
    ensures sample.Some? && |sample.value| < HeaderSize ==> r.1.None?
    ensures r.1.Some? ==>
      var h := UnpackMetadata(sample.value).value;
      r.1.value == Delivery(h.sequence, h.timestamp, h.filename, h.data, |sample.value|)
  {
    match sample
    case None => (FlowError, None)
    case Some(packed) =>
      if !mapped then (FlowOk, None)
      else
        match UnpackMetadata(packed)
        case None => (FlowOk, None)
        case Some(h) => (FlowOk, Some(Delivery(h.sequence, h.timestamp, h.filename, h.data, |packed|)))
  }

  /** A packet built by the sender is delivered with the sender's sequence
      number, timestamp, name and data, and its full length. */
  lemma DeliverSentPacket(sequence: int, timestamp: U64, filename: string, data: seq<Byte>)
    requires Packable(sequence, filename)
    ensures var p := PackMetadata(sequence, timestamp, filename, data).value;
      OnNewSample(Some(p), true).1 == Some(Delivery(sequence, timestamp, filename, data, |p|))
  {
    UnpackPack(sequence, timestamp, filename, data);
  }
}
