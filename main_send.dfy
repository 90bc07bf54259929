/** The producer application of the single-packet path: send counters and
    the table of packets waiting for feedback. */
module MainSend {

  /** What is kept per sent packet until its feedback arrives: the
      relative send time (a clock reading, given) and the packet size. */
  datatype PacketInfo = PacketInfo(timestamp: real, bytes: nat)

  /** One row of the producer's statistics log; the RTT and loss-rate columns
      are floating-point and not modelled. */
  datatype LogRow = LogRow(timestamp: real, sequence: int, bytes: nat)

  /** `sent_packet_info.pop(seq, {})` with the row defaults `0.0` and `0`: the
      entry for `sequence` if there is one, else zeros; and the table without
      that key. */
  function TakePending(pending: map<int, PacketInfo>, sequence: int): (r: (PacketInfo, map<int, PacketInfo>))
    ensures r.1 == pending - {sequence}
    ensures sequence in pending ==> r.0 == pending[sequence] && |r.1| == |pending| - 1
    ensures sequence !in pending ==> r.0 == PacketInfo(0.0, 0) && r.1 == pending
    ensures forall k :: k in pending && k != sequence ==> k in r.1 && r.1[k] == pending[k]
  {
    var rest := pending - {sequence};
    assert sequence in pending ==> rest.Keys + {sequence} == pending.Keys;
    if sequence in pending then (pending[sequence], rest) else (PacketInfo(0.0, 0), pending)
  }

  /** A second feedback for the same sequence finds nothing: the entry is
      consumed at most once. */
  lemma TakeTwice(pending: map<int, PacketInfo>, sequence: int)
    ensures TakePending(TakePending(pending, sequence).1, sequence).0 == PacketInfo(0.0, 0)
  {
  }

  /** The module globals of the sender program. */
  class Stats {
    var totalSent: nat
    var totalBytes: nat
    var totalLost: int
    var sentPacketInfo: map<int, PacketInfo>
    var log: seq<LogRow>

    constructor ()
      ensures totalSent == 0 && totalBytes == 0 && totalLost == 0
      ensures sentPacketInfo == map[] && log == []
    {
      totalSent, totalBytes, totalLost := 0, 0, 0;
      sentPacketInfo, log := map[], [];
    }

    /** `on_packet_sent`: counts the packet and parks its info under its
        sequence number. */
    method OnPacketSent(sequence: int, timestamp: real, packetSize: nat)
      modifies this
      ensures totalSent == old(totalSent) + 1
      ensures totalBytes == old(totalBytes) + packetSize
      ensures sentPacketInfo == old(sentPacketInfo)[sequence := PacketInfo(timestamp, packetSize)]
      ensures totalLost == old(totalLost) && log == old(log)
    {
      totalSent := totalSent + 1;
      totalBytes := totalBytes + packetSize;
      sentPacketInfo := sentPacketInfo[sequence := PacketInfo(timestamp, packetSize)];
    }

    /** `on_feedback`: the reported loss count replaces the local one; the
        entry for `sequence` (only that one) is removed; exactly one row is
        logged, with zeros when no entry was pending. */
    method OnFeedback(sequence: int, received: int, lost: int)
      modifies this
      ensures totalLost == lost
      ensures sentPacketInfo == old(sentPacketInfo) - {sequence}
      ensures var info := if sequence in old(sentPacketInfo) then old(sentPacketInfo)[sequence] else PacketInfo(0.0, 0);
        log == old(log) + [LogRow(info.timestamp, sequence, info.bytes)]
      ensures totalSent == old(totalSent) && totalBytes == old(totalBytes)
    {
      totalLost := lost;
      var taken := TakePending(sentPacketInfo, sequence);
      sentPacketInfo := taken.1;
      log := log + [LogRow(taken.0.timestamp, sequence, taken.0.bytes)];
    }
  }
}
