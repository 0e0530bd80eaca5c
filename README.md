# Go-Back-N sender and receiver

This project models the two protocol endpoints of a reliable-transfer simulator: a Go-Back-N
**Sender** and its **Receiver**, both written in Java. They share a small 8-bit checksum.

- The Sender numbers each outgoing message and sends it while its window of 8 has a free slot.
  When the window is full it queues the message, and it drops messages once more than 50 are queued.
  It keeps every packet it built, so that a timer interrupt can resend the outstanding ones.
  A cumulative acknowledgment moves `sendBase` and restarts or stops the timer. After each
  acknowledgment, queued messages are sent until the queue is empty or the window is full.
- The Receiver accepts only the packet it expects next, and only when that packet's checksum holds.
  It delivers the payload of an accepted packet. After every packet, accepted or not, it sends one
  acknowledgment built from its own fields.
- The checksum is a running sum over the payload followed by the decimal forms of the sequence and
  acknowledgment numbers. After each addition the sum is folded on its hexadecimal string. A packet
  is valid when its checksum plus this sum is 0xFF.

Modules:

- `Types`: the packet, message and timer-call values.
- `Checksum`: the checksum loop as a method, the function that specifies it, and its properties.
  Its properties include agreement with the byte-wise end-around-carry sum and the detection of a
  corrupted byte. Both Java classes carry identical copies of `getComplementSum` and
  `validCheckSum` (src/Receiver.java:94-125 duplicates src/Sender.java:99-133). One model serves both,
  so the two ends agree on validity by construction.
- `SenderSpec` and `ReceiverSpec`: each endpoint's state as a datatype. Each handler is a pure
  transition function. Each module also holds the invariant the handlers keep and the lemmas
  stating what each handler promises.
- `SenderImpl` and `ReceiverImpl`: each endpoint as a class whose methods update its fields in place,
  with the source's loops. Each method is proved to perform exactly its transition:
  `State() == Transition(old(State()), ...)`. Each method also keeps the invariant.
- `Link`: properties of the two endpoints together. These cover what each end accepts of what the
  other builds, in-order delivery, and the effect of the Receiver's acknowledgment before its first
  delivery.

The host's primitives become ghost logs:

- `udtSend`, `deliverData`, `startTimer` and `stopTimer` are recorded in ghost logs on the state.
  The logs are `sent` and `timer` for the Sender, and `delivered`, `accepted` and `sent` for the
  Receiver.
- The properties are stated over these logs.

## Model

| member | source | states |
|---|---|---|
| Checksum.Decimal | src/Sender.java:101-102 | Integer.toString: a minus sign for a negative number, then the decimal digits of its magnitude without leading zeros |
| Checksum.Content | src/Sender.java:103 | the string the sum runs over: the payload, then the decimal forms of seq and ack |
| Checksum.Hex | src/Sender.java:111 | Integer.toHexString of a non-negative number: lower-case hexadecimal digits, most significant first, no leading zeros; never empty |
| Checksum.HexValue | src/Sender.java:115-117 | Integer.parseInt(_, 16) of a string of lower-case hexadecimal digits, which is all toHexString produces and so all the fold passes it (upper-case digits are not read) |
| Checksum.HexRoundTrip | src/Sender.java:111-117 | parsing the hexadecimal form of any non-negative number gives that number back |
| Checksum.HexFold | src/Sender.java:111-118 | the code's fold on the hexadecimal string: with more than two digits, the value of the second and third digits plus the value of the first; otherwise the sum unchanged |
| Checksum.Fold | src/Sender.java:111-118 | the same fold on numbers: below 0x100 the sum itself, otherwise the low byte plus the high digit of the three leading hexadecimal digits |
| Checksum.Accumulate | src/Sender.java:109-121 | the running sum after a whole string: each character code added to the sum so far, then folded, from left to right |
| Checksum.ComplementSumOf | src/Sender.java:99-123 | what getComplementSum returns: Accumulate over the content of payload, seq and ack |
| Checksum.IsValid | src/Sender.java:125-133 | a packet is valid when its checksum plus the complement sum of its own fields equals 0xFF |
| Checksum.GetComplementSum | src/Sender.java:99-123 | the loop, with its string-based hexadecimal carry fold, returns exactly the complement sum of payload ++ decimal(seq) ++ decimal(ack), accumulated left to right |
| Checksum.ValidCheckSum | src/Sender.java:125-133 | true exactly when the packet's checksum plus the recomputed complement sum equals 0xFF |
| Checksum.FoldIsHexFold | src/Sender.java:111-118 | for every running sum, the numeric fold used in the specification equals the code's fold on the hexadecimal string (second and third digits plus the first digit) |
| Checksum.HexLeadingDigits | src/Sender.java:111-116 | from 0x100 on, the hexadecimal string has at least three digits, and its first three are the three-digit number the fold reads |
| Checksum.HexFoldThreeDigits | src/Sender.java:113-118 | with exactly three hexadecimal digits, the string fold is the low byte plus the carry out of it |
| Checksum.FoldDropsLowDigits | src/Sender.java:113-118 | from four hexadecimal digits on, the fold reads only the three leading digits (LeadingDigits) and drops the rest, so its result is at most 0x10E; for instance 0x1234 folds to 0x24 where an end-around carry gives 0x46 |
| Checksum.DecimalRoundTrip | src/Sender.java:101-102 | the decimal form of any integer, negative ones included, reads back as that integer |
| Checksum.DecimalChars | src/Sender.java:101-103 | the decimal form is nonempty, consists of '-' and digits, and ends in a digit |
| Checksum.AccumulateIsEndAroundCarry | src/Sender.java:109-121 | when every character code is at most 0xFF, the code's accumulation equals the byte-wise sum with end-around carry after each byte, and stays at most 0xFF |
| Checksum.EndAroundCarryClosedForm | src/Sender.java:109-121 | over bytes, the end-around-carry sum is 0 for a zero total and otherwise the total reduced into [1, 255] modulo 255 |
| Checksum.ComplementSumClosedForm | src/Sender.java:99-123 | for a byte payload, the complement sum is the total of the content's character codes reduced into [1, 255] modulo 255 |
| Checksum.ComplementSumRange | src/Sender.java:99-123 | for a byte payload, the complement sum lies in [1, 0xFF] |
| Checksum.ChecksumFor | src/Sender.java:161-162 | the embedded checksum plus the complement sum is 0xFF, and for a byte payload the checksum lies in [0, 0xFF) |
| Checksum.MakePacket | src/Sender.java:161-163 | a packet built with 0xFF minus its own complement sum carries the given fields and passes validCheckSum |
| Checksum.CorruptedByteDetected | src/Sender.java:125-133 | replacing one payload byte of a valid packet with one that differs by other than a multiple of 255 makes validCheckSum fail |
| SenderSpec.DataPacket | src/Sender.java:159-163 | the packet Output builds: seq nextSeqNum, ack 0, the message's data and checksum 0xFF minus the complement sum of those fields |
| SenderSpec.WindowOpen | src/Sender.java:158 | the free-slot test of Output and of the polling loop (src/Sender.java:204): nextSeqNum < sendBase + windowSize |
| SenderSpec.Accepts | src/Sender.java:188 | the test an incoming acknowledgment must pass: validCheckSum holds and sendBase <= its ackNum |
| SenderSpec.AckTimer | src/Sender.java:190-196 | the timer calls of an accepted acknowledgment: stop then start(40), or stop alone when ackNum + 1 reaches nextSeqNum; none for a rejected one |
| SenderSpec.InBounds | src/Sender.java:218-219 | the condition under which every packetBuf.get(i) of the resend loop is in range: when sendBase < nextSeqNum, 0 <= sendBase and nextSeqNum <= the size of packetBuf |
| SenderSpec.Outstanding | src/Sender.java:218-219 | the packets the resend loop sends: packetBuf[sendBase..nextSeqNum), empty when sendBase >= nextSeqNum |
| SenderSpec.Init | src/Sender.java:227-233 | Init: window 8, sendBase and nextSeqNum 0, both buffers left as they are |
| SenderSpec.Output | src/Sender.java:150-180 | Output: with at most 50 queued and a free slot, the data packet numbered nextSeqNum is sent and buffered, the timer started if it is the only outstanding packet, and nextSeqNum incremented; with the window full the message is queued; otherwise nothing changes |
| SenderSpec.Acknowledge | src/Sender.java:188-199 | the acknowledgment half of Input: a valid acknowledgment with ackNum >= sendBase sets sendBase to ackNum + 1 and stops the timer, restarting it unless sendBase reaches nextSeqNum; any other packet changes nothing |
| SenderSpec.Drain | src/Sender.java:204-206 | the polling loop of Input: while the queue is nonempty and a slot is free, remove the head of the queue and Output it |
| SenderSpec.Input | src/Sender.java:186-207 | Input: Acknowledge, then Drain |
| SenderSpec.TimerInterrupt | src/Sender.java:213-221 | TimerInterrupt: start the timer, then send packetBuf[sendBase..nextSeqNum) in order |
| SenderSpec.InitValid | src/Sender.java:227-233 | Init sets windowSize 8 and both counters to 0, and on empty buffers it establishes the invariant |
| SenderSpec.OutputOutcome | src/Sender.java:157-179 | with room in the queue and a free slot: exactly one packet is sent and buffered, with seq = nextSeqNum, ack 0, the message's data and a valid checksum; nextSeqNum goes up by 1; the timer log gains Start(40) iff sendBase == nextSeqNum and nothing otherwise. With the window full: only the queue changes, by appending the message. With more than 50 queued: nothing changes |
| SenderSpec.OutputCore | src/Sender.java:157-179 | Output keeps the core invariant: window 8, nextSeqNum - sendBase <= 8, packetBuf[i] is the valid data packet numbered i, queue of at most 51, every sent packet in packetBuf, timer running while packets are outstanding |
| SenderSpec.OutputValid | src/Sender.java:157-179 | Output keeps the invariant, including the bound of 51 queued messages |
| SenderSpec.QueueHoldsFiftyOne | src/Sender.java:157 | with 50 queued and the window full, a 51st message is still queued and a 52nd is dropped |
| SenderSpec.DataPacketsSplit | src/Sender.java:204-206 | the packets built for a queue prefix are the packet for its head followed by those for the rest, numbered one higher |
| SenderSpec.DrainStep | src/Sender.java:204-205 | one step of the drain sends and buffers the packet for the head of the queue, numbered nextSeqNum, removes the head, and leaves one fewer slot to fill |
| SenderSpec.DrainedStep | src/Sender.java:204-206 | one transmitting step of the drain leaves its closed form unchanged |
| SenderSpec.DrainClosedForm | src/Sender.java:204-206 | the drain sends the first min(queue length, free slots) messages in FIFO order, numbered consecutively from nextSeqNum, buffers them, removes them from the queue, and starts the timer once if it sends packet sendBase |
| SenderSpec.DrainCore | src/Sender.java:204-206 | every step of the drain keeps the core invariant |
| SenderSpec.AcknowledgeCore | src/Sender.java:188-199 | accepting or rejecting an acknowledgment keeps the core invariant |
| SenderSpec.DrainStops | src/Sender.java:204 | after the drain the queue is empty or the window is full |
| SenderSpec.InputValid | src/Sender.java:186-207 | Input keeps the invariant; in particular, afterwards the queue is empty or the window is full |
| SenderSpec.InputAcknowledges | src/Sender.java:188-199 | an acknowledgment is accepted iff its checksum holds and ackNum >= sendBase; then sendBase becomes ackNum + 1 and strictly increases; a rejected one changes nothing, so sendBase never decreases; the timer calls are stop then start, or stop alone when sendBase reaches nextSeqNum, followed by those of the drain |
| SenderSpec.InputTimer | src/Sender.java:188-206 | after an accepted acknowledgment below nextSeqNum and the drain, the timer runs exactly when packets are outstanding |
| SenderSpec.InputDrainsInOrder | src/Sender.java:204-206 | Input sends, buffers and dequeues the first k queued messages in FIFO order, with consecutive sequence numbers from the old nextSeqNum; afterwards the queue is empty or the window is full |
| SenderSpec.InputKeepsBaseBelowNext | src/Sender.java:188-189 | sendBase <= nextSeqNum is preserved when an accepted ackNum is below nextSeqNum |
| SenderSpec.AckBeyondNextSeqNum | src/Sender.java:188-193 | an accepted acknowledgment at or beyond nextSeqNum, with nothing queued, leaves sendBase past nextSeqNum and the timer running |
| SenderSpec.TimerInterruptResends | src/Sender.java:213-221 | the timer restarts and exactly packetBuf[sendBase..nextSeqNum) is sent, in ascending order; the window, the counters and both buffers are unchanged |
| SenderSpec.OutstandingNumbered | src/Sender.java:218-220 | under the invariant, the j-th packet resent has seq sendBase + j and ack 0, and passes validCheckSum |
| SenderSpec.TimerInterruptValid | src/Sender.java:213-221 | TimerInterrupt keeps the invariant |
| SenderImpl.Sender.constructor | src/Sender.java:90-96 | the Java field defaults: counters and window 0, both buffers empty |
| SenderImpl.Sender.Init | src/Sender.java:227-233 | performs SenderSpec.Init: windowSize 8, sendBase and nextSeqNum 0, buffers untouched; on a Sender whose buffers are still empty it establishes the invariant |
| SenderImpl.Sender.Output | src/Sender.java:150-180 | performs SenderSpec.Output on the fields and keeps the invariant |
| SenderImpl.Sender.Input | src/Sender.java:186-207 | the acknowledgment step followed by the polling loop performs SenderSpec.Input, and keeps the invariant |
| SenderImpl.Sender.TimerInterrupt | src/Sender.java:213-221 | the resend loop performs SenderSpec.TimerInterrupt and keeps the invariant |
| ReceiverSpec.ValidSeqNum | src/Receiver.java:127-131 | validSeqNum: the packet's seq equals expectSeqNum |
| ReceiverSpec.Accepts | src/Receiver.java:155 | the accept test of Input: validSeqNum and validCheckSum both hold |
| ReceiverSpec.Ack | src/Receiver.java:165-167 | the acknowledgment built from the Receiver's seqNum, ackNum and payload, with checksum 0xFF minus their complement sum |
| ReceiverSpec.Init | src/Receiver.java:176-182 | Init: all three counters 0, payload "", logs empty |
| ReceiverSpec.Deliver | src/Receiver.java:155-163 | the delivery half of Input: an accepted packet's payload is delivered, ackNum becomes its seq and expectSeqNum goes up by 1; otherwise nothing changes |
| ReceiverSpec.Input | src/Receiver.java:149-170 | Input: Deliver, then send the acknowledgment of the resulting fields |
| ReceiverSpec.InitValid | src/Receiver.java:176-182 | after Init the three counters are 0, the payload is "", and the invariant holds |
| ReceiverSpec.AckBeforeFirstDelivery | src/Receiver.java:165-167 | an acknowledgment sent before any acceptance carries ackNum 0, and is the same packet as the acknowledgment of packet 0 |
| ReceiverSpec.InputDelivers | src/Receiver.java:155-163 | a packet is accepted iff seq == expectSeqNum and its checksum holds; acceptance delivers its payload once, sets ackNum to its seq and increments expectSeqNum by 1; rejection delivers nothing and changes no field; seqNum and payload never change |
| ReceiverSpec.InputAcksOnce | src/Receiver.java:165-169 | every Input sends exactly one acknowledgment, in both branches: seq 0, the current ackNum, payload "", and a checksum that passes validCheckSum |
| ReceiverSpec.DeliverKeepsLog | src/Receiver.java:155-160 | delivery keeps the delivery invariant (the k-th delivery came from a valid packet numbered k, deliveries == expectSeqNum, ackNum == max(expectSeqNum - 1, 0)) and never lowers ackNum |
| ReceiverSpec.AckKeepsLog | src/Receiver.java:165-169 | sending the acknowledgment keeps the acknowledgment invariant: every acknowledgment sent is valid, with seq 0 and payload "", and the acknowledgment numbers never decrease and never exceed ackNum |
| ReceiverSpec.InputValid | src/Receiver.java:149-170 | Input keeps the invariant |
| ReceiverSpec.NoRedelivery | src/Receiver.java:155-160 | expectSeqNum never decreases, and a duplicate (seq below expectSeqNum) is never delivered again |
| ReceiverSpec.InputAllValid | src/Receiver.java:149-170 | over any sequence of packets from a valid state: the invariant holds, one acknowledgment is sent per packet, expectSeqNum does not decrease, and earlier deliveries are kept |
| ReceiverImpl.Receiver.constructor | src/Receiver.java:88-91 | the Java field defaults for the counters; the payload starts as "" |
| ReceiverImpl.Receiver.ValidSeqNum | src/Receiver.java:127-131 | the field-reading test holds exactly when ReceiverSpec.ValidSeqNum holds of the current state |
| ReceiverImpl.Receiver.Init | src/Receiver.java:176-182 | performs ReceiverSpec.Init and establishes the invariant |
| ReceiverImpl.Receiver.Input | src/Receiver.java:149-170 | the accept test, delivery and acknowledgment perform ReceiverSpec.Input and keep the invariant |
| Link.ReceiverAcceptsInOrder | src/Receiver.java:155 | the Receiver accepts a packet from the Sender's packetBuf exactly when it is the packet numbered expectSeqNum |
| Link.SenderAcceptsAck | src/Sender.java:188 | the Sender accepts a Receiver acknowledgment exactly when its ackNum is at least sendBase |
| Link.AcceptedAtItsPosition | src/Receiver.java:155-160 | an accepted packet that the Sender built is packetBuf's entry at its own position |
| Link.InOrderDelivery | src/Receiver.java:155-160 | if every accepted packet is one the Sender built, the k-th delivered payload is that of packet k, and expectSeqNum <= nextSeqNum |
| Link.AckBeforeFirstDeliveryMovesWindow | src/Receiver.java:165-167 | the Receiver's acknowledgment before its first delivery moves the Sender's sendBase from 0 to 1, while the Receiver still expects packet 0 |
| Link.ResendsAfterSkipRejected | src/Sender.java:218-220 | once sendBase has passed packet 0 while the Receiver still expects it, no resent packet is accepted |

## Left out

- The `NetworkHost` base class and the constructors that call it (src/Sender.java:136-144, src/Receiver.java:134-142) are not part of this model: they belong to the simulator. The classes' own constructors set the Java field defaults.
- `udtSend`, `deliverData`, `startTimer` and `stopTimer` are recorded in ghost logs, which are emptied at Init. The simulated channel, loss, corruption, `Random`, `getTime` and timer expiry are not modelled. Eventual delivery is a probabilistic property of the simulation, not of these handlers.
- The timer duration is the integer 40. Java converts it to a `double`; floating point is not modelled.
- The `System.out.println` diagnostics (src/Sender.java:178, 198; src/Receiver.java:162) have no effect on state and are left out.
- Java's 32-bit `int`: sequence numbers, sums and checksums are unbounded integers, so wrap-around past 2^31 - 1 is not modelled. `Integer.toString` of a negative number is modelled, with its minus sign.
- Java strings are UTF-16: a character above U+FFFF is two surrogate code units, and the loop at src/Sender.java:109-110 adds each of them. The model's payload is a sequence of Dafny `char`s, each a whole Unicode scalar value, so for payloads with such characters the model adds one code where Java adds two, and the sums differ. Range and corruption lemmas ask for character codes of at most 0xFF, where the two agree. The fold itself is modelled for every sum, including the four-digit case shown by `FoldDropsLowDigits`.
- Packets are values. Java shares the same `Packet` object between `packetBuf` and the channel, an aliasing the model does not capture. Nothing in the handlers mutates a packet.
- The Receiver's `payload` is `null` until `Init` in Java; the model starts it at `""`.
- SenderImpl.Sender.TimerInterrupt: requires `sendBase < nextSeqNum ==> 0 <= sendBase && nextSeqNum <= |packetBuf|` (`InBounds`). Without it, `packetBuf.get(i)` would throw, and exceptions are not modelled. The invariant implies it.
- SenderSpec.DrainClosedForm: requires a queue of at most 51 messages, which the invariant guarantees.

## Behaviour kept from the code

These are not omissions: the model reproduces them as the code behaves.

- Sender `Init` sets only the window and the two counters. It does not clear `packetBuf` or `messageBuf`. So `SenderSpec.InitValid` and `SenderImpl.Sender.Init` promise the invariant only for buffers that are still empty, as on a fresh object.
- The queue guard is `size() <= 50`, so the queue can hold 51 messages (`SenderSpec.QueueHoldsFiftyOne`).
- The Receiver's acknowledgment before its first delivery carries ackNum 0, the same as the acknowledgment of packet 0. The Sender accepts it as an acknowledgment of packet 0 and moves sendBase to 1 (`Link.AckBeforeFirstDeliveryMovesWindow`). Once the Receiver's acknowledgment sent before its first delivery reaches the Sender intact (after packet 0 arrives corrupted, or is lost while a later packet gets through), the Sender never resends packet 0: every retransmission is numbered 1 or above, and the Receiver rejects them all while it waits for packet 0 (`Link.ResendsAfterSkipRejected`). The link then stalls. If packet 0 is simply lost and no acknowledgment reaches the Sender, the timer fires and packet 0 is resent as usual.
