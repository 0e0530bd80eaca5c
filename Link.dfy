/**
 * Properties of the two endpoints taken together: what each accepts of what the other builds,
 * in-order delivery, and what the Receiver's acknowledgment before its first delivery does to the
 * Sender's window.
 */
module Link {
  import opened Types
  import S = SenderSpec
  import R = ReceiverSpec

  /**
   * The Receiver accepts a packet the Sender built exactly when it is the one numbered
   * expectSeqNum: both ends compute the same checksum, so a packet from packetBuf always passes.
   */
  lemma ReceiverAcceptsInOrder(s: S.SenderState, r: R.ReceiverState, i: int)
    requires S.Core(s) && 0 <= i < |s.packetBuf|
    ensures R.Accepts(r, s.packetBuf[i]) <==> i == r.expectSeqNum
  {
    assert s.packetBuf[i] == S.DataPacket(i, s.packetBuf[i].payload);
  }

  /**
   * The Sender accepts every acknowledgment the Receiver builds whose ackNum is at least
   * sendBase, and no other: the acknowledgment's checksum always holds.
   */
  lemma SenderAcceptsAck(s: S.SenderState, r: R.ReceiverState)
    ensures S.Accepts(s, R.Ack(r)) <==> s.sendBase <= r.ackNum
  {
  }

  /** An accepted packet that the Sender built sits at its own position k in packetBuf. */
  lemma AcceptedAtItsPosition(s: S.SenderState, r: R.ReceiverState, k: int)
    requires S.Core(s) && R.Valid(r) && 0 <= k < |r.accepted| && r.accepted[k] in s.packetBuf
    ensures k < |s.packetBuf| && r.accepted[k] == s.packetBuf[k]
  {
    var i :| 0 <= i < |s.packetBuf| && s.packetBuf[i] == r.accepted[k];
    assert s.packetBuf[i] == S.DataPacket(i, s.packetBuf[i].payload);
  }

  /**
   * In-order delivery. If every packet the Receiver accepted is one the Sender built (no corrupted
   * packet happened to pass the checksum), then the k-th payload delivered is that of packet k,
   * and the Receiver is never ahead of the Sender's nextSeqNum.
   */
  lemma InOrderDelivery(s: S.SenderState, r: R.ReceiverState)
    requires S.Core(s) && R.Valid(r)
    requires forall k :: 0 <= k < |r.accepted| ==> r.accepted[k] in s.packetBuf
    ensures r.expectSeqNum <= s.nextSeqNum
    ensures forall k :: 0 <= k < |r.delivered| ==> r.delivered[k] == s.packetBuf[k].payload
  {
    forall k | 0 <= k < |r.delivered|
      ensures k < |s.packetBuf| && r.delivered[k] == s.packetBuf[k].payload
    {
      AcceptedAtItsPosition(s, r, k);
    }
    if 0 < |r.accepted| {
      AcceptedAtItsPosition(s, r, |r.accepted| - 1);
    }
  }

  /**
   * The acknowledgment the Receiver sends before its first delivery carries ackNum 0, and the
   * Sender takes it as an acknowledgment of packet 0: with packet 0 outstanding, sendBase moves
   * to 1 although the Receiver still expects packet 0.
   */
  lemma AckBeforeFirstDeliveryMovesWindow(s: S.SenderState, r: R.ReceiverState, p: Packet)
    requires S.Valid(s) && s.sendBase == 0 < s.nextSeqNum
    requires R.Valid(r) && r.expectSeqNum == 0 && !R.Accepts(r, p)
    ensures var r' := R.Input(r, p);
      && r'.expectSeqNum == 0 && r'.delivered == []
      && S.Input(s, r'.sent[|r.sent|]).sendBase == 1
  {
    var r' := R.Input(r, p);
    R.InputAcksOnce(r, p);
    SenderAcceptsAck(s, r');
    S.InputAcknowledges(s, r'.sent[|r.sent|]);
  }

  /**
   * Once sendBase has passed packet 0 while the Receiver still expects it, no retransmission can
   * be accepted: every outstanding packet is numbered sendBase or above.
   */
  lemma ResendsAfterSkipRejected(s: S.SenderState, r: R.ReceiverState)
    requires S.Core(s) && 1 <= s.sendBase && r.expectSeqNum == 0
    ensures forall j :: 0 <= j < |S.Outstanding(s)| ==> !R.Accepts(r, S.Outstanding(s)[j])
  {
    S.OutstandingNumbered(s);
  }
}
