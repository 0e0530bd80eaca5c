/**
 * The Receiver's handlers as pure transitions on its state, the invariant they keep, and what
 * each handler promises. ReceiverImpl's class methods are proved to perform exactly these transitions.
 */
module ReceiverSpec {
  import opened Types
  import opened Checksum

  /**
   * The Receiver's fields, plus the logs of its calls into the host since Init: `delivered`
   * lists the payloads given to deliverData, `accepted` the packets they came from, and `sent`
   * the acknowledgments given to udtSend.
   */
  datatype ReceiverState = ReceiverState(
    expectSeqNum: int,
    seqNum: int,
    ackNum: int,
    payload: string,
    delivered: seq<string>,
    accepted: seq<Packet>,
    sent: seq<Packet>)

  /** validSeqNum: the packet carries the sequence number the Receiver expects next. */
  predicate ValidSeqNum(r: ReceiverState, p: Packet)
  {
    p.seqnum == r.expectSeqNum
  }

  /** The test Input applies to an incoming data packet. */
  predicate Accepts(r: ReceiverState, p: Packet)
  {
    ValidSeqNum(r, p) && IsValid(p)
  }

  /** The acknowledgment the Receiver sends from its current fields. */
  function Ack(r: ReceiverState): Packet
  {
    MakePacket(r.seqNum, r.ackNum, r.payload)
  }

  // ---------------------------------------------------------------------------------------------
  // Transitions
  // ---------------------------------------------------------------------------------------------

  /** Init sets the counters to 0 and the payload to the empty string. */
  function Init(): ReceiverState
  {
    ReceiverState(0, 0, 0, "", [], [], [])
  }

  /** The first half of Input: an acceptable packet is delivered and becomes the one acknowledged. */
  function Deliver(r: ReceiverState, p: Packet): ReceiverState
  {
    if Accepts(r, p) then
      r.(delivered := r.delivered + [p.payload],
         accepted := r.accepted + [p],
         ackNum := p.seqnum,
         expectSeqNum := r.expectSeqNum + 1)
    else r
  }

  /** Input(packet): deliver if acceptable, then acknowledge in either case. */
  function Input(r: ReceiverState, p: Packet): ReceiverState
  {
    var d := Deliver(r, p);
    d.(sent := d.sent + [Ack(d)])
  }

  // ---------------------------------------------------------------------------------------------
  // The invariant
  // ---------------------------------------------------------------------------------------------

  /** The acknowledgment number the Receiver holds once it has delivered `count` packets. */
  function AckFor(count: int): int
  {
    if count == 0 then 0 else count - 1
  }

  /**
   * What holds after Init and every Input: seqNum and payload keep their Init values; the k-th
   * delivery came from a valid packet numbered k; ackNum names the last delivered packet, or is
   * 0 before the first; every acknowledgment sent is valid, has seq 0 and payload "", and the
   * acknowledgment numbers sent never go down and never exceed ackNum.
   */
  predicate Valid(r: ReceiverState)
  {
    DeliveryLog(r) && AckLog(r)
  }

  /** The delivery half of the invariant. */
  predicate DeliveryLog(r: ReceiverState)
  {
    && r.seqNum == 0 && r.payload == ""
    && 0 <= r.expectSeqNum == |r.delivered| == |r.accepted|
    && (forall k :: 0 <= k < |r.accepted| ==>
          r.accepted[k].seqnum == k && IsValid(r.accepted[k]) && r.delivered[k] == r.accepted[k].payload)
    && r.ackNum == AckFor(r.expectSeqNum)
  }

  /** The acknowledgment half of the invariant. */
  predicate AckLog(r: ReceiverState)
  {
    && (forall j :: 0 <= j < |r.sent| ==> r.sent[j] == MakePacket(0, r.sent[j].acknum, "") && r.sent[j].acknum <= r.ackNum)
    && (forall i, j :: 0 <= i < j < |r.sent| ==> r.sent[i].acknum <= r.sent[j].acknum)
  }

  // ---------------------------------------------------------------------------------------------
  // Lemmas
  // ---------------------------------------------------------------------------------------------

  /** After Init all three counters are 0, the payload is "", and the invariant holds. */
  lemma InitValid()
    ensures var i := Init();
      Valid(i) && i.expectSeqNum == i.seqNum == i.ackNum == 0 && i.payload == ""
  {
  }

  /**
   * An acknowledgment sent before any packet is accepted carries ackNum 0, which is also what the
   * acknowledgment of packet 0 carries.
   */
  lemma AckBeforeFirstDelivery(r: ReceiverState, p: Packet)
    requires Valid(r) && r.expectSeqNum == 0 && !Accepts(r, p)
    ensures Input(r, p).sent[|r.sent|].acknum == 0
    ensures Input(r, p).sent[|r.sent|] == Input(Init(), MakePacket(0, 0, p.payload)).sent[0]
  {
    var q := MakePacket(0, 0, p.payload);
    assert Accepts(Init(), q);
  }

  /**
   * Input accepts exactly the packets with seq == expectSeqNum and a valid checksum. Acceptance
   * delivers that packet's payload once, sets ackNum to its seq and increments expectSeqNum by 1.
   * A rejected packet delivers nothing and leaves every field as it was.
   */
  lemma InputDelivers(r: ReceiverState, p: Packet)
    ensures var n := Input(r, p);
      && (Accepts(r, p) <==> p.seqnum == r.expectSeqNum && IsValid(p))
      && (Accepts(r, p) ==>
            && n.delivered == r.delivered + [p.payload] && n.accepted == r.accepted + [p]
            && n.ackNum == p.seqnum && n.expectSeqNum == r.expectSeqNum + 1)
      && (!Accepts(r, p) ==>
            && n.delivered == r.delivered && n.accepted == r.accepted
            && n.ackNum == r.ackNum && n.expectSeqNum == r.expectSeqNum)
      && n.seqNum == r.seqNum && n.payload == r.payload
  {
  }

  /**
   * Every Input sends exactly one acknowledgment, whichever branch it took: seq 0, the current
   * ackNum and payload "", with a checksum that passes validCheckSum.
   */
  lemma InputAcksOnce(r: ReceiverState, p: Packet)
    requires Valid(r)
    ensures var n := Input(r, p);
      && |n.sent| == |r.sent| + 1 && n.sent[..|r.sent|] == r.sent
      && n.sent[|r.sent|].seqnum == 0 && n.sent[|r.sent|].acknum == n.ackNum
      && n.sent[|r.sent|].payload == "" && IsValid(n.sent[|r.sent|])
  {
    var n := Input(r, p);
    assert n.sent[..|r.sent|] == r.sent;
  }

  /** Delivery keeps the delivery half of the invariant and never lowers ackNum. */
  lemma DeliverKeepsLog(r: ReceiverState, p: Packet)
    requires DeliveryLog(r)
    ensures DeliveryLog(Deliver(r, p)) && r.ackNum <= Deliver(r, p).ackNum
  {
    var d := Deliver(r, p);
    forall k | 0 <= k < |d.accepted|
      ensures d.accepted[k].seqnum == k && IsValid(d.accepted[k]) && d.delivered[k] == d.accepted[k].payload
    {
      if k < |r.accepted| {
        assert d.accepted[k] == r.accepted[k];
      }
    }
  }

  /** Sending the acknowledgment of a state with seq 0, payload "" and a raised ackNum keeps the acknowledgment half. */
  lemma AckKeepsLog(r: ReceiverState, d: ReceiverState)
    requires AckLog(r) && d.sent == r.sent && r.ackNum <= d.ackNum && d.seqNum == 0 && d.payload == ""
    ensures AckLog(d.(sent := d.sent + [Ack(d)]))
  {
    var n := d.(sent := d.sent + [Ack(d)]);
    forall j | 0 <= j < |n.sent|
      ensures n.sent[j] == MakePacket(0, n.sent[j].acknum, "") && n.sent[j].acknum <= n.ackNum
    {
      if j < |r.sent| {
        assert n.sent[j] == r.sent[j];
      }
    }
  }

  /** Input keeps the invariant. */
  lemma InputValid(r: ReceiverState, p: Packet)
    requires Valid(r)
    ensures Valid(Input(r, p))
  {
    DeliverKeepsLog(r, p);
    AckKeepsLog(r, Deliver(r, p));
  }

  /** expectSeqNum never decreases, and a duplicate (seq below expectSeqNum) is never delivered again. */
  lemma NoRedelivery(r: ReceiverState, p: Packet)
    requires Valid(r)
    ensures r.expectSeqNum <= Input(r, p).expectSeqNum
    ensures p.seqnum < r.expectSeqNum ==> Input(r, p).delivered == r.delivered
  {
  }

  /** The receiving side's run: the state after Input on each packet of ps in turn. */
  function InputAll(r: ReceiverState, ps: seq<Packet>): ReceiverState
    decreases |ps|
  {
    if ps == [] then r else InputAll(Input(r, ps[0]), ps[1..])
  }

  /**
   * Over any run from a valid state the invariant holds; the deliveries only grow, one per
   * accepted packet, and one acknowledgment is sent per packet received.
   */
  lemma {:induction false} InputAllValid(r: ReceiverState, ps: seq<Packet>)
    requires Valid(r)
    ensures var n := InputAll(r, ps);
      && Valid(n)
      && |n.sent| == |r.sent| + |ps|
      && r.expectSeqNum <= n.expectSeqNum
      && n.delivered[..|r.delivered|] == r.delivered
    decreases |ps|
  {
    if ps != [] {
      var m := Input(r, ps[0]);
      InputValid(r, ps[0]);
      InputAcksOnce(r, ps[0]);
      InputDelivers(r, ps[0]);
      InputAllValid(m, ps[1..]);
      var n := InputAll(m, ps[1..]);
      assert m.delivered[..|r.delivered|] == r.delivered;
      assert n.delivered[..|r.delivered|] == n.delivered[..|m.delivered|][..|r.delivered|];
    }
  }
}
