/**
 * The Sender endpoint as an object whose handlers update its fields in place. Each handler is
 * proved to perform exactly the matching transition of SenderSpec, whose lemmas carry the
 * protocol properties. The calls into the host (udtSend, startTimer, stopTimer) are recorded in
 * two ghost logs.
 */
module SenderImpl {
  import opened Types
  import opened Checksum
  import S = SenderSpec

  class Sender {
    var windowSize: int
    var sendBase: int
    var nextSeqNum: int
    /** Every packet built so far, indexed by its sequence number. */
    var packetBuf: seq<Packet>
    /** Messages waiting for a free slot in the window, oldest first. */
    var messageBuf: seq<Message>
    /** The packets handed to udtSend since Init, in order. */
    ghost var sent: seq<Packet>
    /** The startTimer and stopTimer calls since Init, in order. */
    ghost var timer: seq<TimerOp>

    ghost function State(): S.SenderState
      reads this
    {
      S.SenderState(windowSize, sendBase, nextSeqNum, packetBuf, messageBuf, sent, timer)
    }

    ghost predicate Valid()
      reads this
    {
      S.Valid(State())
    }

    /** Java's field defaults: both counters and the window 0, both buffers empty. */
    constructor ()
      ensures State() == S.SenderState(0, 0, 0, [], [], [], [])
    {
      windowSize := 0;
      sendBase := 0;
      nextSeqNum := 0;
      packetBuf := [];
      messageBuf := [];
      sent := [];
      timer := [];
    }

    method Init()
      modifies this
      ensures State() == S.Init(old(State()))
      ensures old(packetBuf) == [] && old(messageBuf) == [] ==> Valid()
    {
      ghost var s := State();
      windowSize := S.WindowSize;
      sendBase := 0;
      nextSeqNum := 0;
      sent := [];
      timer := [];
      if s.packetBuf == [] && s.messageBuf == [] {
        S.InitValid(s);
      }
    }

    method Output(m: Message)
      modifies this
      ensures State() == S.Output(old(State()), m)
      ensures old(Valid()) ==> Valid()
    {
      ghost var s := State();
      if |messageBuf| <= S.QueueLimit {
        if nextSeqNum < sendBase + windowSize {
          var seqNum := nextSeqNum;
          var sum := GetComplementSum(m.data, seqNum, 0);
          var p := Packet(seqNum, 0, Sentinel - sum, m.data);
          sent := sent + [p];
          packetBuf := packetBuf + [p];
          if sendBase == nextSeqNum {
            timer := timer + [Start(S.TimerInterval)];
          }
          nextSeqNum := nextSeqNum + 1;
        } else {
          messageBuf := messageBuf + [m];
        }
      }
      if S.Valid(s) {
        S.OutputValid(s, m);
      }
    }

    method Input(p: Packet)
      modifies this
      ensures State() == S.Input(old(State()), p)
      ensures old(Valid()) ==> Valid()
    {
      ghost var s := State();
      var ok := ValidCheckSum(p);
      if ok && sendBase <= p.acknum {
        sendBase := p.acknum + 1;
        if sendBase != nextSeqNum {
          timer := timer + [Stop, Start(S.TimerInterval)];
        } else {
          timer := timer + [Stop];
        }
      }
      assert State() == S.Acknowledge(s, p);
      while messageBuf != [] && nextSeqNum < sendBase + windowSize
        invariant S.Drain(State()) == S.Input(s, p)
        decreases |messageBuf|
      {
        var m := messageBuf[0];
        messageBuf := messageBuf[1..];
        Output(m);
      }
      if S.Valid(s) {
        S.InputValid(s, p);
      }
    }

    /** Restart the timer and resend every packet numbered sendBase to nextSeqNum - 1. */
    method TimerInterrupt()
      requires S.InBounds(State())
      modifies this
      ensures State() == S.TimerInterrupt(old(State()))
      ensures old(Valid()) ==> Valid()
    {
      ghost var s := State();
      timer := timer + [Start(S.TimerInterval)];
      var i := sendBase;
      while i < nextSeqNum
        invariant i == s.sendBase || s.sendBase < i <= s.nextSeqNum
        invariant State() == s.(timer := s.timer + [Start(S.TimerInterval)],
                                sent := s.sent + (if s.sendBase < i then s.packetBuf[s.sendBase..i] else []))
      {
        assert packetBuf[sendBase..i + 1] == packetBuf[sendBase..i] + [packetBuf[i]];
        sent := sent + [packetBuf[i]];
        i := i + 1;
      }
      if S.Valid(s) {
        S.TimerInterruptValid(s);
      }
    }
  }
}
