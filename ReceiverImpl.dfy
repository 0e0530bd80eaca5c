/**
 * The Receiver endpoint as an object whose handlers update its fields in place. Each handler is
 * proved to perform exactly the matching transition of ReceiverSpec. The calls into the host
 * (deliverData, udtSend) are recorded in ghost logs.
 */
module ReceiverImpl {
  import opened Types
  import opened Checksum
  import R = ReceiverSpec

  class Receiver {
    var expectSeqNum: int
    var seqNum: int
    var ackNum: int
    var payload: string
    /** The payloads handed to deliverData since Init, in order. */
    ghost var delivered: seq<string>
    /** The packets those payloads came from. */
    ghost var accepted: seq<Packet>
    /** The acknowledgments handed to udtSend since Init, in order. */
    ghost var sent: seq<Packet>

    ghost function State(): R.ReceiverState
      reads this
    {
      R.ReceiverState(expectSeqNum, seqNum, ackNum, payload, delivered, accepted, sent)
    }

    ghost predicate Valid()
      reads this
    {
      R.Valid(State())
    }

    /** Java's field defaults for the counters; the payload, null in Java, starts as "". */
    constructor ()
      ensures State() == R.ReceiverState(0, 0, 0, "", [], [], [])
    {
      expectSeqNum := 0;
      seqNum := 0;
      ackNum := 0;
      payload := "";
      delivered := [];
      accepted := [];
      sent := [];
    }

    /** validSeqNum: the packet carries the sequence number expected next. */
    predicate ValidSeqNum(p: Packet)
      reads this
      ensures ValidSeqNum(p) <==> R.ValidSeqNum(State(), p)
    {
      p.seqnum == expectSeqNum
    }

    method Init()
      modifies this
      ensures State() == R.Init() && Valid()
    {
      expectSeqNum := 0;
      seqNum := 0;
      ackNum := 0;
      payload := "";
      delivered := [];
      accepted := [];
      sent := [];
      R.InitValid();
    }

    method Input(p: Packet)
      modifies this
      ensures State() == R.Input(old(State()), p)
      ensures old(Valid()) ==> Valid()
    {
      ghost var r := State();
      var ok := ValidSeqNum(p);
      if ok {
        ok := ValidCheckSum(p);
      }
      if ok {
        delivered := delivered + [p.payload];
        accepted := accepted + [p];
        ackNum := p.seqnum;
        expectSeqNum := expectSeqNum + 1;
      }
      assert State() == R.Deliver(r, p);
      var sum := GetComplementSum(payload, seqNum, ackNum);
      var ack := Packet(seqNum, ackNum, Sentinel - sum, payload);
      assert ack == R.Ack(State());
      sent := sent + [ack];
      if R.Valid(r) {
        R.InputValid(r, p);
      }
    }
  }
}
