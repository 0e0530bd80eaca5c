/** Value types shared by both endpoints of the link. */
module Types {

  /** A packet on the simulated link. Packets are values: building one never aliases another. */
  datatype Packet = Packet(seqnum: int, acknum: int, checksum: int, payload: string)

  /** A message handed down by the sending application. */
  datatype Message = Message(data: string)

  /** A call the Sender makes into the host's single retransmission timer. */
  datatype TimerOp = Start(duration: int) | Stop
}
