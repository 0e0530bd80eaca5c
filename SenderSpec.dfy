/**
 * The Sender's handlers as pure transitions on its state, the invariant they keep, and what
 * each handler promises. SenderImpl's class methods are proved to perform exactly these transitions.
 */
module SenderSpec {
  import opened Types
  import opened Checksum

  const WindowSize := 8
  /** Output queues a message only while the queue holds at most this many. */
  const QueueLimit := 50
  const TimerInterval := 40

  /**
   * The Sender's fields, plus the logs of its calls into the host: `sent` lists the packets given
   * to udtSend, `timer` the startTimer/stopTimer calls, both since Init.
   */
  datatype SenderState = SenderState(
    windowSize: int,
    sendBase: int,
    nextSeqNum: int,
    packetBuf: seq<Packet>,
    messageBuf: seq<Message>,
    sent: seq<Packet>,
    timer: seq<TimerOp>)

  /** The data packet Output builds: acknowledgment field 0 and the checksum of its own fields. */
  function DataPacket(seqNum: int, data: string): Packet
  {
    MakePacket(seqNum, 0, data)
  }

  /** The last timer call was a start. */
  predicate TimerRunning(timer: seq<TimerOp>)
  {
    0 < |timer| && timer[|timer| - 1].Start?
  }

  /** True when Output would transmit rather than queue. */
  predicate WindowOpen(s: SenderState)
  {
    s.nextSeqNum < s.sendBase + s.windowSize
  }

  /**
   * What holds after every handler and also between the steps of Input's queue drain.
   */
  predicate Core(s: SenderState)
  {
    && s.windowSize == WindowSize
    && 0 <= s.sendBase
    && s.nextSeqNum - s.sendBase <= s.windowSize
    && |s.packetBuf| == s.nextSeqNum
    && (forall i :: 0 <= i < |s.packetBuf| ==> s.packetBuf[i] == DataPacket(i, s.packetBuf[i].payload))
    && |s.messageBuf| <= QueueLimit + 1
    && (forall j :: 0 <= j < |s.sent| ==> s.sent[j] in s.packetBuf)
    && (s.sendBase < s.nextSeqNum ==> TimerRunning(s.timer))
  }

  /** The Sender's invariant: Core, and messages wait in the queue only while the window is full. */
  predicate Valid(s: SenderState)
  {
    Core(s) && (s.messageBuf != [] ==> !WindowOpen(s))
  }

  // ---------------------------------------------------------------------------------------------
  // Transitions
  // ---------------------------------------------------------------------------------------------

  /** Init sets the window and both counters; it leaves packetBuf and messageBuf as they are. */
  function Init(s: SenderState): SenderState
  {
    s.(windowSize := WindowSize, sendBase := 0, nextSeqNum := 0, sent := [], timer := [])
  }

  /** Output(message): transmit in a free slot, queue when the window is full, drop when the queue is long. */
  function Output(s: SenderState, m: Message): SenderState
  {
    if |s.messageBuf| <= QueueLimit then
      if WindowOpen(s) then
        var p := DataPacket(s.nextSeqNum, m.data);
        s.(sent := s.sent + [p],
           packetBuf := s.packetBuf + [p],
           timer := s.timer + (if s.sendBase == s.nextSeqNum then [Start(TimerInterval)] else []),
           nextSeqNum := s.nextSeqNum + 1)
      else
        s.(messageBuf := s.messageBuf + [m])
    else
      s
  }

  /** The test Input applies to an incoming acknowledgment. */
  predicate Accepts(s: SenderState, p: Packet)
  {
    IsValid(p) && s.sendBase <= p.acknum
  }

  /** The timer calls an accepted acknowledgment makes: stop, then start again unless nothing is outstanding. */
  function AckTimer(s: SenderState, p: Packet): seq<TimerOp>
  {
    if Accepts(s, p) then
      if p.acknum + 1 != s.nextSeqNum then [Stop, Start(TimerInterval)] else [Stop]
    else []
  }

  /** The first half of Input: a cumulative acknowledgment moves sendBase and restarts or stops the timer. */
  function Acknowledge(s: SenderState, p: Packet): SenderState
  {
    if Accepts(s, p) then s.(sendBase := p.acknum + 1, timer := s.timer + AckTimer(s, p)) else s
  }

  /** The second half of Input: hand queued messages to Output while there are some and a slot is free. */
  function Drain(s: SenderState): SenderState
    decreases |s.messageBuf|
  {
    if s.messageBuf != [] && WindowOpen(s) then
      Drain(Output(s.(messageBuf := s.messageBuf[1..]), s.messageBuf[0]))
    else
      s
  }

  /** Input(packet). */
  function Input(s: SenderState, p: Packet): SenderState
  {
    Drain(Acknowledge(s, p))
  }

  /** TimerInterrupt fails on an index out of bounds exactly when this does not hold. */
  predicate InBounds(s: SenderState)
  {
    s.sendBase < s.nextSeqNum ==> 0 <= s.sendBase && s.nextSeqNum <= |s.packetBuf|
  }

  /** The outstanding packets, those with sequence numbers in [sendBase, nextSeqNum). */
  function Outstanding(s: SenderState): seq<Packet>
    requires InBounds(s)
  {
    if s.sendBase < s.nextSeqNum then s.packetBuf[s.sendBase..s.nextSeqNum] else []
  }

  /** TimerInterrupt: restart the timer and resend every outstanding packet. */
  function TimerInterrupt(s: SenderState): SenderState
    requires InBounds(s)
  {
    s.(timer := s.timer + [Start(TimerInterval)], sent := s.sent + Outstanding(s))
  }

  // ---------------------------------------------------------------------------------------------
  // Init and Output
  // ---------------------------------------------------------------------------------------------

  /** Init on a Sender whose buffers are still empty establishes the invariant. */
  lemma InitValid(s: SenderState)
    requires s.packetBuf == [] && s.messageBuf == []
    ensures Valid(Init(s))
    ensures Init(s).sendBase == Init(s).nextSeqNum == 0 && Init(s).windowSize == 8
  {
  }

  /**
   * Output's three outcomes. With room in the queue and the window open exactly one packet is
   * sent and buffered, with seq = nextSeqNum and ack 0, the timer is started (for 40 units) iff that
   * packet is the only outstanding one, and nothing else changes. With the window full the message joins the tail of the
   * queue. With more than 50 already queued nothing changes.
   */
  lemma OutputOutcome(s: SenderState, m: Message)
    requires Core(s)
    ensures var r := Output(s, m);
      && r.windowSize == s.windowSize && r.sendBase == s.sendBase
      && (|s.messageBuf| <= QueueLimit && WindowOpen(s) ==>
            && |r.sent| == |s.sent| + 1 && r.sent[..|s.sent|] == s.sent
            && r.packetBuf == s.packetBuf + [r.sent[|s.sent|]]
            && r.sent[|s.sent|].seqnum == s.nextSeqNum && r.sent[|s.sent|].acknum == 0
            && r.sent[|s.sent|].payload == m.data && IsValid(r.sent[|s.sent|])
            && r.nextSeqNum == s.nextSeqNum + 1 && r.messageBuf == s.messageBuf
            && r.timer == s.timer + (if s.sendBase == s.nextSeqNum then [Start(TimerInterval)] else []))
      && (|s.messageBuf| <= QueueLimit && !WindowOpen(s) ==>
            r == s.(messageBuf := s.messageBuf + [m]))
      && (|s.messageBuf| > QueueLimit ==> r == s)
  {
  }

  lemma OutputCore(s: SenderState, m: Message)
    requires Core(s)
    ensures Core(Output(s, m))
  {
    var r := Output(s, m);
    if |s.messageBuf| <= QueueLimit && WindowOpen(s) {
      var p := DataPacket(s.nextSeqNum, m.data);
      forall i | 0 <= i < |r.packetBuf| ensures r.packetBuf[i] == DataPacket(i, r.packetBuf[i].payload) {
        if i < |s.packetBuf| {
          assert r.packetBuf[i] == s.packetBuf[i];
        }
      }
      forall j | 0 <= j < |r.sent| ensures r.sent[j] in r.packetBuf {
        if j < |s.sent| {
          assert r.sent[j] == s.sent[j];
        } else {
          assert r.sent[j] == r.packetBuf[|s.packetBuf|];
        }
      }
    }
  }

  /** Output keeps the invariant; in particular the queue never holds more than 51 messages. */
  lemma OutputValid(s: SenderState, m: Message)
    requires Valid(s)
    ensures Valid(Output(s, m)) && |Output(s, m).messageBuf| <= QueueLimit + 1
  {
    OutputCore(s, m);
  }

  /** The queue can reach 51 entries: with the window full, a 51st message is still queued, a 52nd is dropped. */
  lemma QueueHoldsFiftyOne(s: SenderState, m: Message, m': Message)
    requires Valid(s) && !WindowOpen(s) && |s.messageBuf| == QueueLimit
    ensures |Output(s, m).messageBuf| == QueueLimit + 1
    ensures Output(Output(s, m), m') == Output(s, m)
  {
  }

  // ---------------------------------------------------------------------------------------------
  // Input
  // ---------------------------------------------------------------------------------------------

  /** The packets the drain builds for queued messages q, numbered from `from` upwards. */
  function DataPackets(q: seq<Message>, from: int): (ps: seq<Packet>)
  {
    seq(|q|, j requires 0 <= j < |q| => DataPacket(from + j, q[j].data))
  }

  /** How many queued messages the drain can transmit. */
  function DrainCount(s: SenderState): nat
  {
    if WindowOpen(s) then
      var free := s.sendBase + s.windowSize - s.nextSeqNum;
      if |s.messageBuf| < free then |s.messageBuf| else free
    else 0
  }

  /** The timer calls the drain makes: one start, when it transmits the packet numbered sendBase. */
  function DrainTimer(s: SenderState): seq<TimerOp>
  {
    if s.nextSeqNum <= s.sendBase < s.nextSeqNum + DrainCount(s) then [Start(TimerInterval)] else []
  }

  /**
   * The drain in closed form: the first DrainCount queued messages are transmitted in FIFO order
   * with consecutive sequence numbers from nextSeqNum, buffered, and taken off the queue.
   */
  function Drained(s: SenderState): SenderState
  {
    var k := DrainCount(s);
    var ps := DataPackets(s.messageBuf[..k], s.nextSeqNum);
    s.(nextSeqNum := s.nextSeqNum + k,
       packetBuf := s.packetBuf + ps,
       sent := s.sent + ps,
       messageBuf := s.messageBuf[k..],
       timer := s.timer + DrainTimer(s))
  }

  lemma DataPacketsSplit(q: seq<Message>, k: nat, from: int)
    requires 0 < k <= |q|
    ensures DataPackets(q[..k], from) == [DataPacket(from, q[0].data)] + DataPackets(q[1..][..k - 1], from + 1)
  {
    assert q[..k][1..] == q[1..][..k - 1];
  }

  /** Appending x and then b is appending [x] + b. */
  lemma AppendOne<T>(a: seq<T>, x: T, b: seq<T>, c: seq<T>)
    requires c == [x] + b
    ensures a + [x] + b == a + c
  {
    assert a + [x] + b == a + ([x] + b);
  }

  /** One transmitting step of the drain. */
  lemma DrainStep(s: SenderState)
    requires s.messageBuf != [] && WindowOpen(s) && |s.messageBuf| <= QueueLimit + 1
    ensures var p, t := DataPacket(s.nextSeqNum, s.messageBuf[0].data), Output(s.(messageBuf := s.messageBuf[1..]), s.messageBuf[0]);
      && t.windowSize == s.windowSize && t.sendBase == s.sendBase && t.nextSeqNum == s.nextSeqNum + 1
      && t.messageBuf == s.messageBuf[1..]
      && t.sent == s.sent + [p] && t.packetBuf == s.packetBuf + [p]
      && t.timer == s.timer + (if s.sendBase == s.nextSeqNum then [Start(TimerInterval)] else [])
      && DrainCount(t) == DrainCount(s) - 1
  {
  }

  /** The timer calls of one step followed by those of the rest of the drain are those of the whole drain. */
  lemma DrainTimerStep(s: SenderState, t: SenderState)
    requires 0 < DrainCount(s) && DrainCount(t) == DrainCount(s) - 1
    requires t.sendBase == s.sendBase && t.nextSeqNum == s.nextSeqNum + 1
    ensures (if s.sendBase == s.nextSeqNum then [Start(TimerInterval)] else []) + DrainTimer(t) == DrainTimer(s)
  {
  }

  /** The closed form is unchanged by one transmitting step. */
  lemma DrainedStep(s: SenderState)
    requires s.messageBuf != [] && WindowOpen(s) && |s.messageBuf| <= QueueLimit + 1
    ensures Drained(Output(s.(messageBuf := s.messageBuf[1..]), s.messageBuf[0])) == Drained(s)
  {
    var q, k := s.messageBuf, DrainCount(s);
    var t := Output(s.(messageBuf := q[1..]), q[0]);
    var p := DataPacket(s.nextSeqNum, q[0].data);
    var start := if s.sendBase == s.nextSeqNum then [Start(TimerInterval)] else [];
    DrainStep(s);
    DataPacketsSplit(q, k, s.nextSeqNum);
    var ps, ps' := DataPackets(q[..k], s.nextSeqNum), DataPackets(q[1..][..k - 1], s.nextSeqNum + 1);
    AppendOne(s.packetBuf, p, ps', ps);
    AppendOne(s.sent, p, ps', ps);
    DrainTimerStep(s, t);
    assert s.timer + start + DrainTimer(t) == s.timer + (start + DrainTimer(t));
    assert q[1..][k - 1..] == q[k..];
  }

  /** The drain is its closed form, as long as the queue holds no more than 51 messages. */
  lemma {:induction false} DrainClosedForm(s: SenderState)
    requires |s.messageBuf| <= QueueLimit + 1
    ensures Drain(s) == Drained(s)
    decreases |s.messageBuf|
  {
    if s.messageBuf != [] && WindowOpen(s) {
      DrainStep(s);
      DrainedStep(s);
      DrainClosedForm(Output(s.(messageBuf := s.messageBuf[1..]), s.messageBuf[0]));
    } else {
      assert s.messageBuf[..0] == [] && s.messageBuf[0..] == s.messageBuf;
    }
  }

  /** Every step of the drain keeps Core. */
  lemma {:induction false} DrainCore(s: SenderState)
    requires Core(s)
    ensures Core(Drain(s))
    decreases |s.messageBuf|
  {
    if s.messageBuf != [] && WindowOpen(s) {
      OutputCore(s.(messageBuf := s.messageBuf[1..]), s.messageBuf[0]);
      DrainCore(Output(s.(messageBuf := s.messageBuf[1..]), s.messageBuf[0]));
    }
  }

  lemma AcknowledgeCore(s: SenderState, p: Packet)
    requires Core(s)
    ensures Core(Acknowledge(s, p))
  {
  }

  /** After the drain the queue is empty or the window is full. */
  lemma DrainStops(s: SenderState)
    requires Core(s)
    ensures Drain(s).messageBuf == [] || !WindowOpen(Drain(s))
  {
    DrainClosedForm(s);
  }

  /** Input keeps the invariant: afterwards the queue is empty or the window is full. */
  lemma InputValid(s: SenderState, p: Packet)
    requires Valid(s)
    ensures Valid(Input(s, p))
  {
    AcknowledgeCore(s, p);
    DrainCore(Acknowledge(s, p));
    DrainStops(Acknowledge(s, p));
  }

  /**
   * An acknowledgment is accepted iff its checksum holds and ackNum >= sendBase; then sendBase
   * becomes ackNum + 1, so it strictly increases. A rejected acknowledgment changes nothing at
   * all, so sendBase never decreases. The timer calls are those of the acknowledgment followed
   * by those of the drain.
   */
  lemma InputAcknowledges(s: SenderState, p: Packet)
    requires Valid(s)
    ensures var r := Input(s, p);
      && (Accepts(s, p) <==> IsValid(p) && p.acknum >= s.sendBase)
      && (Accepts(s, p) ==> r.sendBase == p.acknum + 1 > s.sendBase)
      && (!Accepts(s, p) ==> r == s)
      && s.sendBase <= r.sendBase
      && r.timer == s.timer + AckTimer(s, p) + DrainTimer(Acknowledge(s, p))
  {
    DrainClosedForm(Acknowledge(s, p));
  }

  /**
   * After an accepted acknowledgment below nextSeqNum, and the drain that follows it, the timer is
   * running exactly when packets are outstanding: it was stopped when sendBase reached nextSeqNum
   * and nothing was queued, and restarted otherwise.
   */
  lemma InputTimer(s: SenderState, p: Packet)
    requires Valid(s) && Accepts(s, p) && p.acknum < s.nextSeqNum
    ensures TimerRunning(Input(s, p).timer) <==> Input(s, p).sendBase != Input(s, p).nextSeqNum
  {
    var a := Acknowledge(s, p);
    DrainClosedForm(a);
    var r := Input(s, p);
    if p.acknum + 1 == s.nextSeqNum {
      assert a.timer == s.timer + [Stop];
      if DrainCount(a) == 0 {
        assert r.timer == a.timer;
      } else {
        assert r.timer == a.timer + [Start(TimerInterval)];
      }
    } else {
      assert r.timer == s.timer + [Stop, Start(TimerInterval)];
    }
  }

  /**
   * Input's queue drain, seen from the old state: the k messages it takes from the head of the
   * queue are sent in FIFO order with consecutive sequence numbers starting at the old nextSeqNum.
   */
  lemma InputDrainsInOrder(s: SenderState, p: Packet)
    requires Valid(s)
    ensures var r := Input(s, p);
      && s.nextSeqNum <= r.nextSeqNum
      && var k := r.nextSeqNum - s.nextSeqNum;
      && k <= |s.messageBuf|
      && r.messageBuf == s.messageBuf[k..]
      && r.packetBuf == s.packetBuf + DataPackets(s.messageBuf[..k], s.nextSeqNum)
      && r.sent == s.sent + DataPackets(s.messageBuf[..k], s.nextSeqNum)
      && (r.messageBuf == [] || r.nextSeqNum == r.sendBase + r.windowSize)
  {
    var a := Acknowledge(s, p);
    assert a.messageBuf == s.messageBuf && a.nextSeqNum == s.nextSeqNum && a.packetBuf == s.packetBuf;
    DrainClosedForm(a);
  }

  /** If the accepted ackNum is below nextSeqNum, sendBase <= nextSeqNum still holds afterwards. */
  lemma InputKeepsBaseBelowNext(s: SenderState, p: Packet)
    requires Valid(s) && s.sendBase <= s.nextSeqNum
    requires Accepts(s, p) ==> p.acknum < s.nextSeqNum
    ensures Input(s, p).sendBase <= Input(s, p).nextSeqNum
  {
    InputDrainsInOrder(s, p);
    InputAcknowledges(s, p);
  }

  /**
   * Input does not enforce sendBase <= nextSeqNum: with nothing queued, an accepted ack for a
   * sequence number at or beyond nextSeqNum leaves sendBase past nextSeqNum, and the timer running.
   */
  lemma AckBeyondNextSeqNum(s: SenderState, p: Packet)
    requires Valid(s) && s.messageBuf == []
    requires IsValid(p) && p.acknum >= s.nextSeqNum && p.acknum >= s.sendBase
    ensures Input(s, p).sendBase == p.acknum + 1 > Input(s, p).nextSeqNum == s.nextSeqNum
    ensures TimerRunning(Input(s, p).timer)
  {
  }

  // ---------------------------------------------------------------------------------------------
  // TimerInterrupt
  // ---------------------------------------------------------------------------------------------

  /**
   * TimerInterrupt restarts the timer and sends exactly the outstanding packets, in ascending
   * order of position in packetBuf; the window, the counters and both buffers are unchanged.
   */
  lemma TimerInterruptResends(s: SenderState)
    requires InBounds(s)
    ensures var r := TimerInterrupt(s);
      && r.timer == s.timer + [Start(TimerInterval)] && TimerRunning(r.timer)
      && r.windowSize == s.windowSize && r.sendBase == s.sendBase && r.nextSeqNum == s.nextSeqNum
      && r.packetBuf == s.packetBuf && r.messageBuf == s.messageBuf
      && r.sent == s.sent + Outstanding(s)
      && |Outstanding(s)| == (if s.sendBase < s.nextSeqNum then s.nextSeqNum - s.sendBase else 0)
  {
  }

  /** Under the invariant the outstanding packets carry sequence numbers sendBase, sendBase + 1, ... */
  lemma OutstandingNumbered(s: SenderState)
    requires Core(s)
    ensures forall j :: 0 <= j < |Outstanding(s)| ==>
      Outstanding(s)[j].seqnum == s.sendBase + j && Outstanding(s)[j].acknum == 0 && IsValid(Outstanding(s)[j])
  {
    forall j | 0 <= j < |Outstanding(s)|
      ensures Outstanding(s)[j].seqnum == s.sendBase + j && Outstanding(s)[j].acknum == 0 && IsValid(Outstanding(s)[j])
    {
      var i := s.sendBase + j;
      assert Outstanding(s)[j] == s.packetBuf[i];
      assert s.packetBuf[i] == DataPacket(i, s.packetBuf[i].payload);
    }
  }

  lemma TimerInterruptValid(s: SenderState)
    requires Valid(s)
    ensures Valid(TimerInterrupt(s))
  {
    var r := TimerInterrupt(s);
    assert r == s.(timer := r.timer, sent := r.sent);
    forall j | 0 <= j < |r.sent| ensures r.sent[j] in s.packetBuf {
      if j < |s.sent| {
        assert r.sent[j] == s.sent[j];
      } else {
        assert r.sent[j] == s.packetBuf[s.sendBase + j - |s.sent|];
      }
    }
  }
}
