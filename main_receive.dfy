/** The consumer application of the single-packet path: sequence-gap loss
    detection over delivered packets, with one feedback record per accepted
    packet. */
module MainReceive {
  import opened WireBytes
  import RttTracker

  /** The detector's counters; `lastSeq` starts below every valid sequence. */
  datatype Counters = Counters(lastSeq: int, totalReceived: nat, totalBytes: nat, totalLost: nat)

  const Start := Counters(-1, 0, 0, 0)

  /** Every sequence number up to `lastSeq` is counted once, as received or
      as lost: the denominator of the reported loss rate. */
  ghost predicate Balanced(c: Counters) {
    c.lastSeq >= -1 && c.totalReceived + c.totalLost == c.lastSeq + 1
  }

  /** The counter update of `on_packet_received`. */
  function Step(c: Counters, sequence: int, packetSize: nat): (r: Counters)
    ensures sequence <= c.lastSeq ==> r == c
    ensures sequence > c.lastSeq ==> r.lastSeq == sequence && r.totalReceived == c.totalReceived + 1
    ensures Balanced(c) ==> Balanced(r)
  {
    if sequence <= c.lastSeq then c
    else
      var lost := if sequence > c.lastSeq + 1 then c.totalLost + (sequence - c.lastSeq - 1) else c.totalLost;
      Counters(sequence, c.totalReceived + 1, c.totalBytes + packetSize, lost)
  }

  datatype Packet = Packet(sequence: int, packetSize: nat)

  /** The counters after a run of deliveries from the start state. */
  function Run(ps: seq<Packet>): Counters {
    if ps == [] then Start
    else
      var last := ps[|ps| - 1];
      Step(Run(ps[..|ps| - 1]), last.sequence, last.packetSize)
  }

  /** The sequence numbers the detector accepts from a run, in order. */
  function Accepted(ps: seq<Packet>): seq<int> {
    if ps == [] then []
    else
      var last := ps[|ps| - 1];
      var init := ps[..|ps| - 1];
      Accepted(init) + (if last.sequence > Run(init).lastSeq then [last.sequence] else [])
  }

  predicate StrictlyIncreasing(s: seq<int>) {
    forall i, j :: 0 <= i < j < |s| ==> s[i] < s[j]
  }

  /** Over any run: accepted sequence numbers strictly increase, the last one
      is `last_seq`, each is counted once as received, and received plus lost
      is always `last_seq + 1`. */
  lemma {:induction false} RunSummary(ps: seq<Packet>)
    ensures var c, a := Run(ps), Accepted(ps);
      && StrictlyIncreasing(a)
      && c.lastSeq == (if a == [] then -1 else a[|a| - 1])
      && c.totalReceived == |a|
      && Balanced(c)
  {
    if ps != [] {
      RunSummary(ps[..|ps| - 1]);
    }
  }

  /** One row of the receiver's statistics log (the wall-clock column is not
      modelled). */
  datatype LogRow = LogRow(sequence: int, bytes: nat, lostFrames: nat)

  /** The arguments of the `send_feedback_now` call for one accepted packet. */
  datatype FeedbackRequest = FeedbackRequest(sequence: int, received: nat, lost: nat, sendTimestamp: U64)

  /** The module globals of the receiver program. */
  class Detector {
    var lastSeq: int
    var totalReceived: nat
    var totalBytes: nat
    var totalLost: nat
    var log: seq<LogRow>

    function State(): Counters
      reads this
    {
      Counters(lastSeq, totalReceived, totalBytes, totalLost)
    }

    ghost predicate Valid()
      reads this
    {
      Balanced(State())
    }

    constructor ()
      ensures Valid() && State() == Start && log == []
    {
      lastSeq, totalReceived, totalBytes, totalLost := -1, 0, 0, 0;
      log := [];
    }

    /** `on_packet_received`: a duplicate or out-of-order packet is dropped
        with nothing counted and no feedback; an accepted one is counted, its
        gap added to the losses, logged, and answered by exactly one feedback
        carrying the cumulative counts. */
    method OnPacketReceived(sequence: int, sendTimestamp: U64, packetSize: nat) returns (feedback: Option<FeedbackRequest>)
      requires Valid()
      modifies this
      ensures Valid()
      ensures State() == Step(old(State()), sequence, packetSize)
      ensures sequence <= old(lastSeq) ==> feedback == None && log == old(log)
      ensures sequence > old(lastSeq) ==>
        && totalBytes == old(totalBytes) + packetSize
        && totalLost == old(totalLost) + (sequence - old(lastSeq) - 1)
        && log == old(log) + [LogRow(sequence, packetSize, totalLost)]
        && feedback == Some(FeedbackRequest(sequence, totalReceived, totalLost, sendTimestamp))
    {
      if sequence <= lastSeq {
        return None;
      }
      totalReceived := totalReceived + 1;
      totalBytes := totalBytes + packetSize;
      if sequence > lastSeq + 1 {
        var lostFrames := sequence - lastSeq - 1;
        totalLost := totalLost + lostFrames;
      }
      lastSeq := sequence;
      log := log + [LogRow(sequence, packetSize, totalLost)];
      feedback := Some(FeedbackRequest(sequence, totalReceived, totalLost, sendTimestamp));
    }
  }

  /** The feedback for an accepted packet, once encoded and decoded on the
      producer side, reports counts whose sum is the reported sequence plus
      one. */
  lemma FeedbackKeepsBalance(c: Counters, timestamp: U64)
    requires Balanced(c) && c.lastSeq >= 0
    requires RttTracker.EncodeFeedback(timestamp, c.lastSeq, c.totalReceived, c.totalLost).Some?
    ensures var d := RttTracker.EncodeFeedback(timestamp, c.lastSeq, c.totalReceived, c.totalLost).value;
      var rec := RttTracker.DecodeFeedback(d).value;
      rec.magic == RttTracker.Magic && rec.received + rec.lost == rec.sequence + 1
  {
    var d := RttTracker.EncodeFeedback(timestamp, c.lastSeq, c.totalReceived, c.totalLost).value;
    RttTracker.DecodeEncodeFeedback(timestamp, c.lastSeq, c.totalReceived, c.totalLost, []);
    assert d + [] == d;
  }
}
