/** The producer side of the single-packet-per-frame path: the frame header
    packer and the `frame_count` bookkeeping around one push into the
    streaming pipeline. */
module GstSenderCore {
  import opened WireBytes
  import Utf8

  /** Bytes before the file name: sequence (8), timestamp (8), name length (4). */
  const HeaderSize: nat := 20

  /** Whether `struct.pack` accepts the two integer fields: the sequence as
      an unsigned 64-bit value and the UTF-8 name length as an unsigned
      32-bit value. */
  predicate Packable(sequence: int, filename: string) {
    0 <= sequence < Pow256(8) && |Utf8.Encode(filename)| < Pow256(4)
  }

  /** `pack_metadata`: [sequence u64][timestamp 8 bytes][name length u32]
      [name as UTF-8][data]. None where `struct.pack` raises. */
  function PackMetadata(sequence: int, timestamp: U64, filename: string, data: seq<Byte>): (r: Option<seq<Byte>>)
    ensures r.Some? <==> Packable(sequence, filename)
    ensures r.Some? ==> |r.value| == HeaderSize + |Utf8.Encode(filename)| + |data|
    ensures r.Some? ==> DecodeLE(r.value[..8]) == sequence
    ensures r.Some? ==> DecodeLE(r.value[8..16]) == timestamp
    ensures r.Some? ==> DecodeLE(r.value[16..HeaderSize]) == |Utf8.Encode(filename)|
    ensures r.Some? ==> r.value[HeaderSize..] == Utf8.Encode(filename) + data
  {
    var name := Utf8.Encode(filename);
    if Packable(sequence, filename) then
      Pow256Widths();
      var head := EncodeLE(sequence, 8) + EncodeLE(timestamp, 8) + EncodeLE(|name|, 4);
      var p := head + name + data;
      assert p[..8] == EncodeLE(sequence, 8);
      assert p[8..16] == EncodeLE(timestamp, 8);
      assert p[16..HeaderSize] == EncodeLE(|name|, 4);
      assert p[HeaderSize..] == name + data;
      DecodeEncodeLE(sequence, 8);
      DecodeEncodeLE(timestamp, 8);
      DecodeEncodeLE(|name|, 4);
      Some(p)
    else None
  }

  /** The arguments `send_packet` hands to the `on_packet_sent` callback. */
  datatype PacketSent = PacketSent(sequence: nat, filename: string, dataSize: nat, packetSize: nat)

  /** The three ways `send_packet` can end: pushed (returns True and
      reports the packet), refused by the pipeline (returns False), or
      `pack_metadata` raising (the exception leaves `send_packet`). */
  datatype SendOutcome = Pushed(event: PacketSent) | PushRefused | PackRaised

  class Sender {
    /** Number of packets the pipeline has accepted; the next sequence number. */
    var frameCount: nat

    constructor ()
      ensures frameCount == 0
    {
      frameCount := 0;
    }

    /** `send_packet`, with the wall-clock timestamp and the pipeline's answer
        to the push as parameters. */
    method SendPacket(filename: string, data: seq<Byte>, timestamp: U64, pushAccepted: bool) returns (r: SendOutcome)
      modifies this
      ensures r.Pushed? <==> Packable(old(frameCount), filename) && pushAccepted
      ensures r.PackRaised? <==> !Packable(old(frameCount), filename)
      ensures r.Pushed? ==> frameCount == old(frameCount) + 1
      ensures !r.Pushed? ==> frameCount == old(frameCount)
      ensures r.Pushed? ==> var p := PackMetadata(old(frameCount), timestamp, filename, data).value;
        && r.event.sequence == frameCount - 1
        && DecodeLE(p[..8]) == r.event.sequence
        && r.event.dataSize == |data|
        && r.event.packetSize == |p|
        && r.event.filename == filename
    {
      var packed := PackMetadata(frameCount, timestamp, filename, data);
      if packed.None? {
        return PackRaised;
      }
      if pushAccepted {
        frameCount := frameCount + 1;
        r := Pushed(PacketSent(frameCount - 1, filename, |data|, |packed.value|));
      } else {
        r := PushRefused;
      }
    }
  }
}
