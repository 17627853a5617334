# Verified models of the core of a C systems-programming collection

The repository collects network, storage and concurrency programs. This project models its
most intricate parts in Dafny 4.11 and proves what they are for:

- **KCP** (`kcp_*.dfy`), the reliable-transport engine. `kcp_spec.dfy` gives each entry point as
  a function, `kcp.dfy` has the control block as a class whose methods update it in place and are
  proved equal to those functions, `kcp_wire.dfy` has the wire format, `kcp_queue.dfy` the
  intrusive queues. `kcp_net.dfy` joins two endpoints by a network that keeps every datagram ever
  emitted and delivers any of them at any time, any number of times or never. `kcp_safety.dfy`
  proves safety over all runs, first on unbounded sequence numbers; `kcp_wrap.dfy` and
  `kcp_machine.dfy` transfer it to the 32-bit code, `kcp_stale.dfy` shows that the condition for
  this is exact for each number, and `kcp_overrun.dfy` has a run that breaks it. `kcp_stream.dfy`
  says when a stream delivers bytes that `ikcp_send` refused. `kcp_hosts.dfy` drives two objects of
  the class over a network of bytes. `kcp_calls.dfy` trusts nobody: one endpoint, any calls, any
  bytes. `kcp_congestion.dfy`, `kcp_timer.dfy`, `kcp_resend.dfy`, `kcp_rtt.dfy` and
  `kcp_probe.dfy` treat the congestion window, the schedule, retransmission, its timeout and the
  window probe; `kcp_loss.dfy` the answer to loss and to progress, `kcp_sample.dfy` where the
  round-trip samples come from, `kcp_feedback.dfy` what the two sides tell each other,
  `kcp_datagram.dfy` what a datagram releases and stores, `kcp_bytes.dfy` input on any bytes, and
  `kcp_fill.dfy` how data are cut.
- **The key-value store** (`kvs_*.dfy`): the red-black tree with its sentinel and parent pointers,
  the chained hash table, the command dispatcher over both, their observational equivalence over
  whole command runs, its replies byte by byte (`kvs_replies.dfy`), and the skip list. Heap nodes, links rewritten in place.
- **The splay tree** of the user-space stack (`nty_splay.dfy`), on the heap, and what splaying does
  to depths (`nty_depth.dfy`).
- **Concurrent machines**: the coroutine scheduler (`coroutines.dfy`), and the thread pool as
  interleaved steps (`thread_pool.dfy`).
- **The hyphen-aware word counter** (`word_trie.dfy`), against the words of a text as strings
  (`word_text.dfy`).
- **Two algorithm pairs** in which a fast form must equal a simple one (`lis.dfy`, `median.dfy`).

Classes carry ghost fields with the abstract value (a tree, a list, a map) and a `Valid`
predicate that ties the heap to it; the methods state the new abstract value, and lemmas prove
what that value promises. The comparison of sequence numbers follows section 3.2 of RFC 1982 in
style; the smoothing of the retransmission timeout follows sections 2.2 and 2.3 of RFC 6298.

Where the code and its comments disagree the model follows the code:

- `kvs_rbtree_set` documents 2 for an updated value but returns 0, so the UPDATED response is
  never produced (`RbTree.Set`, `HashTable.Set`).
- `kvs_hash_del` does not test for a negative index as its siblings do, so a DEL of a key with a
  negative index has no defined outcome; `HashTable.Del` and the run theorems leave it out.
- `ikcp_send` in stream mode queues the bytes that fill the last segment even when it then
  returns -2, so bytes of a refused message are delivered (`KcpStream.RefusedBytesArrive`); the
  bytes delivered are those of accepted messages exactly when no refused call did so.
- `lengthOfLIS` in its quadratic form returns 1 for an empty array (`Lis.Agree`).
- The partitioned median adds the two middle values as 32-bit integers before halving, and
  returns -0.5 for two empty arrays (`Median.BothMedians` gives the exact condition).
- The last return of the partitioned median is documented as unreachable, which is proved.

Parameters of the model: the clock (`current`), the bytes and datagrams that arrive, the height
a skip-list node draws, the order of events, wake-ups and scheduling. Buffers handed to an output
callback or printed become returned values.

## Model

| member | source | states |
|---|---|---|
| KcpSafety.EndToEnd | 0voice/advanced/2.2网络原理/2.2.2 UDP的可靠传输协议QUIC/2.2.3-udp-kcp-quic/ikcp.c:361-566 | For every run of two endpoints over a network that drops, duplicates and reorders datagrams, in both directions: outside stream mode the messages one application has received are a prefix of the messages the other one's sends accepted; in both modes the bytes received are a prefix of the bytes the other one's sends put into snd_queue, which in stream mode include those with which a refused send filled a segment |
| KcpStream.BytesEndToEnd | 0voice/advanced/2.2网络原理/2.2.2 UDP的可靠传输协议QUIC/2.2.3-udp-kcp-quic/ikcp.c:490-566 | In both modes the bytes received are a prefix of the bytes of the accepted messages, for every run in which no refused send extended a segment |
| KcpStream.RunBytes | 0voice/advanced/2.2网络原理/2.2.2 UDP的可靠传输协议QUIC/2.2.3-udp-kcp-quic/ikcp.c:502-539 | The bytes queued in a run are those of the accepted messages if and only if no refused send of the run extended a segment |
| KcpStream.BytesInOrderExactly | 0voice/advanced/2.2网络原理/2.2.2 UDP的可靠传输协议QUIC/2.2.3-udp-kcp-quic/ikcp.c:490-566 | Once everything queued has been received, the bytes received are a prefix of those of the accepted messages if and only if no refused send extended a segment |
| KcpStream.SendRefuses | 0voice/advanced/2.2网络原理/2.2.2 UDP的可靠传输协议QUIC/2.2.3-udp-kcp-quic/ikcp.c:533-539 | A send is refused, with -2, if and only if more than 127 full segments remain of its data after the extension of the last queued segment; otherwise it returns 0 |
| KcpStream.RefusalChanges | 0voice/advanced/2.2网络原理/2.2.2 UDP的可靠传输协议QUIC/2.2.3-udp-kcp-quic/ikcp.c:502-539 | A refused send leaves the control block as it was if and only if it extended no segment |
| KcpStream.SmallIsClean | 0voice/advanced/2.2网络原理/2.2.2 UDP的可靠传输协议QUIC/2.2.3-udp-kcp-quic/ikcp.c:533-539 | A run whose messages never exceed 127 full segments has no refused send, so that condition holds |
| KcpStream.RefusedBytesArrive | 0voice/advanced/2.2网络原理/2.2.2 UDP的可靠传输协议QUIC/2.2.3-udp-kcp-quic/ikcp.c:502-539 | Without the condition the property fails: a stream run, of the unbounded protocol and of the 32-bit code, in which one byte is accepted, a too long message is refused with -2, and 26 bytes are delivered |
| KcpWrap.MachineEndToEnd | 0voice/advanced/2.2网络原理/2.2.2 UDP的可靠传输协议QUIC/2.2.3-udp-kcp-quic/ikcp.c:754-997 | EndToEnd for the 32-bit code exchanging bytes, messages and queued bytes alike, for every run in which each delivered packet is clear: its una, ack and data numbers, however old, do not look to the 32-bit comparisons like other numbers than they are |
| KcpStream.MachineBytesEndToEnd | 0voice/advanced/2.2网络原理/2.2.2 UDP的可靠传输协议QUIC/2.2.3-udp-kcp-quic/ikcp.c:490-997 | The same for the bytes of accepted messages, if also no refused send extended a segment |
| KcpWrap.MachineRunsWrapped | 0voice/advanced/2.2网络原理/2.2.2 UDP的可靠传输协议QUIC/2.2.3-udp-kcp-quic/ikcp.c:136-139 | Under that condition every state of the 32-bit run is the state of the run on unbounded numbers, with each sequence number taken modulo 2^32, for any configuration |
| KcpStale.UnaExact | 0voice/advanced/2.2网络原理/2.2.2 UDP的可靠传输协议QUIC/2.2.3-udp-kcp-quic/ikcp.c:607-659 | For a una of any age: the code reads it as the unbounded protocol does if and only if snd_buf is empty, or it is not below snd_una, or it is at most 2^31 below it modulo 2^32 |
| KcpStale.AckExact | 0voice/advanced/2.2网络原理/2.2.2 UDP的可靠传输协议QUIC/2.2.3-udp-kcp-quic/ikcp.c:619-692 | For a selective ack of any age: the code removes and counts as the unbounded protocol does if and only if the number is not below snd_una, or not in the send window modulo 2^32 |
| KcpStale.PushExact | 0voice/advanced/2.2网络原理/2.2.2 UDP的可靠传输协议QUIC/2.2.3-udp-kcp-quic/ikcp.c:754-785 | For any data number the peer has assigned: the code acknowledges and stores as the unbounded protocol does if and only if the number is in the window, or above it by less than 2^31 modulo 2^32, or at least 1 and at most 2^31 - rcv_wnd below rcv_nxt modulo 2^32, or below it with the residue of a buffered packet while nothing can move to rcv_queue |
| KcpStale.MaxExact | 0voice/advanced/2.2网络原理/2.2.2 UDP的可靠传输协议QUIC/2.2.3-udp-kcp-quic/ikcp.c:893-905 | Of two acks of one datagram the code keeps the greater one if and only if they differ by less than 2^31 modulo 2^32 in the right direction |
| KcpStale.RunSettled | 0voice/advanced/2.2网络原理/2.2.2 UDP的可靠传输协议QUIC/2.2.3-udp-kcp-quic/ikcp.c:754-804 | In every state of every run nothing in rcv_buf can move to rcv_queue, so a repeat of a buffered residue is always read as meant |
| KcpStale.RecentIsTimely | 0voice/advanced/2.2网络原理/2.2.2 UDP的可靠传输协议QUIC/2.2.3-udp-kcp-quic/ikcp.c:828-960 | A datagram is read as meant when none of its numbers is more than 2^31 behind the newest of its direction, less the receiving window for data |
| KcpStale.ShortRunsAreTimely | 0voice/advanced/2.2网络原理/2.2.2 UDP的可靠传输协议QUIC/2.2.3-udp-kcp-quic/ikcp.c:754-764 | A run that numbers at most 2^31 segments in each direction, less the receiving window, meets the condition of MachineEndToEnd, whatever the network does |
| KcpOverrun.StaleBreaksOrder | 0voice/advanced/2.2网络原理/2.2.2 UDP的可靠传输协议QUIC/2.2.3-udp-kcp-quic/ikcp.c:759-804 | Without the condition end-to-end safety fails: a run of the 32-bit code, from creation, in which each message is delivered and acknowledged for any whole number of 2^32 messages, each delivery read as meant, and then the first datagram is delivered again, gives the application more messages than were sent |
| KcpOverrun.AfterRounds | 0voice/advanced/2.2网络原理/2.2.2 UDP的可靠传输协议QUIC/2.2.3-udp-kcp-quic/ikcp.c:490-997 | The state after n such rounds of send, flush, delivery, receive and acknowledgement, on unbounded numbers |
| KcpMachine.MachineWindows | 0voice/advanced/2.2网络原理/2.2.2 UDP的可靠传输协议QUIC/2.2.3-udp-kcp-quic/ikcp.c:607-617 | The windows of the 32-bit code in every state of every such run, in its own comparisons: snd_buf ascends from snd_una below snd_nxt, rcv_buf ascends inside the window, rcv_queue is the run ending below rcv_nxt, counters are lengths, a full receive queue is readable |
| KcpMachine.MachineCustody | 0voice/advanced/2.2网络原理/2.2.2 UDP的可靠传输协议QUIC/2.2.3-udp-kcp-quic/ikcp.c:607-659 | In every state of every such run of the 32-bit code, each fragment a sender has numbered is in its snd_buf, or in the peer's rcv_buf, rcv_queue or delivered messages; and every ack pending, and every ack and una in any bytes ever sent, names by its residue only what its sender has |
| KcpMachine.MachineKeepsCwnd | 0voice/advanced/2.2网络原理/2.2.2 UDP的可靠传输协议QUIC/2.2.3-udp-kcp-quic/ikcp.c:970-994 | The relation of incr to cwnd, and ssthresh >= 2, in every state of every such run of the 32-bit code |
| KcpHosts.Simulate | 0voice/advanced/2.2网络原理/2.2.2 UDP的可靠传输协议QUIC/2.2.3-udp-kcp-quic/ikcp.c:231-1309 | Two control blocks on the heap, driven through any run of events over a network of bytes, end in the state of the 32-bit run |
| KcpHosts.Converse | 0voice/advanced/2.2网络原理/2.2.2 UDP的可靠传输协议QUIC/2.2.3-udp-kcp-quic/ikcp.c:361-566 | End to end on those objects, for every run that meets the condition on deliveries: the messages, outside stream mode, and the bytes received are a prefix of what the other side's sends accepted and queued; the bytes are a prefix of those of accepted messages if no refused send extended a segment, as when no message exceeds 127 full segments |
| KcpHosts.Host.Perform | 0voice/advanced/2.2网络原理/2.2.2 UDP的可靠传输协议QUIC/2.2.3-udp-kcp-quic/ikcp.c:490-566 | One event at one object is the step of the 32-bit run |
| KcpSafety.NothingReleasedEarly | 0voice/advanced/2.2网络原理/2.2.2 UDP的可靠传输协议QUIC/2.2.3-udp-kcp-quic/ikcp.c:607-659 | In every state of every run, each number a sender has assigned is still in its snd_buf or is kept by the peer, and every ack pending or sent, and every una sent, names only data the peer keeps |
| KcpSafety.RunWindows | 0voice/advanced/2.2网络原理/2.2.2 UDP的可靠传输协议QUIC/2.2.3-udp-kcp-quic/ikcp.c:607-617 | In every state of every run: snd_buf ascends inside [snd_una, snd_nxt) and snd_una is its head or snd_nxt; rcv_buf ascends without duplicates inside [rcv_nxt, rcv_nxt+rcv_wnd); rcv_queue is the run ending below rcv_nxt and starts at a message boundary; counters are queue lengths; a receive queue that fills the window holds a readable message |
| KcpSafety.FlushFillsWindow | 0voice/advanced/2.2网络原理/2.2.2 UDP的可靠传输协议QUIC/2.2.3-udp-kcp-quic/ikcp.c:1136-1170 | Flush numbers queued segments in order, advances snd_nxt only up to snd_una plus the least of the send, remote and (unless switched off) congestion windows, and stops only there or when nothing is queued |
| KcpSafety.RunInv | 0voice/advanced/2.2网络原理/2.2.2 UDP的可靠传输协议QUIC/2.2.3-udp-kcp-quic/ikcp.c:828-960 | The invariant from which these follow holds in every state of every run |
| KcpSerial.SerialAgrees | 0voice/advanced/2.2网络原理/2.2.2 UDP的可靠传输协议QUIC/2.2.3-udp-kcp-quic/ikcp.c:136-139 | The wrapped comparison of two numbers is their true difference if and only if that difference fits in a signed 32-bit word |
| KcpSerial.WrapAdd | 0voice/advanced/2.2网络原理/2.2.2 UDP的可靠传输协议QUIC/2.2.3-udp-kcp-quic/ikcp.c:1164 | Incrementing a wrapped number is incrementing the unbounded one and wrapping |
| KcpSerial.WrapInjective | 0voice/advanced/2.2网络原理/2.2.2 UDP的可靠传输协议QUIC/2.2.3-udp-kcp-quic/ikcp.c:770 | Wrapped numbers less than a cycle apart are equal exactly when the unbounded numbers are |
| KcpWire.DecodeEncode | 0voice/advanced/2.2网络原理/2.2.2 UDP的可靠传输协议QUIC/2.2.3-udp-kcp-quic/ikcp.c:54-121 | Decoding the bytes of an encoded segment gives back every header field and the payload, and the rest of the buffer |
| KcpWire.ParseEncodeAll | 0voice/advanced/2.2网络原理/2.2.2 UDP的可靠传输协议QUIC/2.2.3-udp-kcp-quic/ikcp.c:843-960 | The parsing loop recovers exactly the list of encoded packets, in order, consuming every byte |
| KcpWire.DatagramsCorrect | 0voice/advanced/2.2网络原理/2.2.2 UDP的可靠传输协议QUIC/2.2.3-udp-kcp-quic/ikcp.c:1071-1132 | Packing loses, duplicates and reorders nothing; no datagram is empty and none exceeds the mtu |
| KcpWire.WireRoundTrip | 0voice/advanced/2.2网络原理/2.2.2 UDP的可靠传输协议QUIC/2.2.3-udp-kcp-quic/ikcp.c:1221-1252 | Each datagram flush packs is at most one mtu and parses back to the packets packed into it |
| KcpWire.OutputIsPacked | 0voice/advanced/2.2网络原理/2.2.2 UDP的可靠传输协议QUIC/2.2.3-udp-kcp-quic/ikcp.c:1074-1081 | The byte buffer with its early sends hands out exactly the packed datagrams, encoded |
| KcpWire.Write | 0voice/advanced/2.2网络原理/2.2.2 UDP的可靠传输协议QUIC/2.2.3-udp-kcp-quic/ikcp.c:1227-1240 | Writing one packet sends the buffer first when it would exceed the mtu |
| KcpBytes.DecodeLayout | 0voice/advanced/2.2网络原理/2.2.2 UDP的可靠传输协议QUIC/2.2.3-udp-kcp-quic/ikcp.c:54-121 | Where each field is read: conv at 0, cmd at 4, frg at 5, wnd at 6, ts at 8, sn at 12, una at 16, len at 20, lowest byte first, and len bytes from 24 |
| KcpBytes.EncodeLayout | 0voice/advanced/2.2网络原理/2.2.2 UDP的可靠传输协议QUIC/2.2.3-udp-kcp-quic/ikcp.c:1003-1014 | Each field is written at those places |
| KcpBytes.EncodeDecode | 0voice/advanced/2.2网络原理/2.2.2 UDP的可靠传输协议QUIC/2.2.3-udp-kcp-quic/ikcp.c:54-121 | Encoding what was read gives back the bytes it was read from |
| KcpBytes.InputAnyBytes | 0voice/advanced/2.2网络原理/2.2.2 UDP的可靠传输协议QUIC/2.2.3-udp-kcp-quic/ikcp.c:828-997 | ikcp_input on any bytes at all: fewer than 24 give -1 and change nothing; otherwise they are accepted packets and a rest, the packets are processed as a datagram if the rest is shorter than a header, and else the call returns after them with -1, -2 or -3, for the conversation, the length or the command of the rest in this order, without counting skips or growing the window |
| KcpBytes.OtherConversation | 0voice/advanced/2.2网络原理/2.2.2 UDP的可靠传输协议QUIC/2.2.3-udp-kcp-quic/ikcp.c:852 | Bytes that start with another conversation are answered with -1 and change nothing |
| KcpBytes.PackFills | 0voice/advanced/2.2网络原理/2.2.2 UDP的可靠传输协议QUIC/2.2.3-udp-kcp-quic/ikcp.c:1221-1232 | A datagram is started only when its first packet does not fit into the one before |
| KcpFill.MessageCut | 0voice/advanced/2.2网络原理/2.2.2 UDP的可靠传输协议QUIC/2.2.3-udp-kcp-quic/ikcp.c:534-566 | Outside stream mode a message is appended as fragments that are full but the last, which is not empty unless the message is, and the queue before it is untouched |
| KcpFill.RunFills | 0voice/advanced/2.2网络原理/2.2.2 UDP的可靠传输协议QUIC/2.2.3-udp-kcp-quic/ikcp.c:500-566 | In every state of every run of a stream, in both arithmetics, all queued segments hold mss bytes but the last, and none is empty |
| KcpCalls.EveryDatagramFits | 0voice/advanced/2.2网络原理/2.2.2 UDP的可靠传输协议QUIC/2.2.3-udp-kcp-quic/ikcp.c:1045-1252 | After any sequence of calls at one endpoint, with any bytes fed to input, every datagram a flush emits is non-empty, at most mtu bytes, and parses back to the packets written |
| KcpCalls.PerformAllSound | 0voice/advanced/2.2网络原理/2.2.2 UDP的可靠传输协议QUIC/2.2.3-udp-kcp-quic/ikcp.c:828-997 | After any such calls the counters are the queue lengths, the receive queue is within its window, and every field fits its wire width |
| KcpCongestion.RunKeepsCwnd | 0voice/advanced/2.2网络原理/2.2.2 UDP的可靠传输协议QUIC/2.2.3-udp-kcp-quic/ikcp.c:970-994 | With a fixed mss and no 32-bit overflow, every state of every run has (cwnd-1)*mss < incr < (cwnd+1)*mss and ssthresh >= 2 |
| KcpCongestion.GrowKeeps | 0voice/advanced/2.2网络原理/2.2.2 UDP的可靠传输协议QUIC/2.2.3-udp-kcp-quic/ikcp.c:970-994 | Input keeps that relation, and if it grows cwnd leaves it at most rmt_wnd |
| KcpCongestion.ReactKeeps | 0voice/advanced/2.2网络原理/2.2.2 UDP的可靠传输协议QUIC/2.2.3-udp-kcp-quic/ikcp.c:1254-1275 | The reaction of flush to loss and fast retransmission keeps the relation and leaves cwnd at least 1; after a loss the window is one segment with half of the effective window, at least 2, as threshold, and without loss or early resend it is unchanged |
| KcpCongestion.FlushCc | 0voice/advanced/2.2网络原理/2.2.2 UDP的可靠传输协议QUIC/2.2.3-udp-kcp-quic/ikcp.c:1045-1276 | Every flush of a run that is not skipped leaves cwnd at least 1 |
| KcpLoss.FlushAnswersLoss | 0voice/advanced/2.2网络原理/2.2.2 UDP的可靠传输协议QUIC/2.2.3-udp-kcp-quic/ikcp.c:1134-1275 | In both arithmetics, of any state: if a segment already sent is due, cwnd is 1, incr is mss and ssthresh half of the least of the windows that apply, at least 2; else if one is resent early, ssthresh is half of snd_nxt - snd_una after admission, at least 2, cwnd that plus the resend limit and incr cwnd*mss; else the congestion state is unchanged but for the floor of one segment |
| KcpLoss.FlushTreats | 0voice/advanced/2.2网络原理/2.2.2 UDP的可靠传输协议QUIC/2.2.3-udp-kcp-quic/ikcp.c:1173-1252 | Each segment in flight: a new one gets the current timeout, an eighth more when nodelay is 0, and one transmission; a due one is counted and rescheduled by its new timeout; one skipped often enough keeps its timeout, is counted and starts counting skips anew; any other is untouched. What goes out carries the clock, the next number expected and otherwise its own packet |
| KcpLoss.FlushCountsTimeouts | 0voice/advanced/2.2网络原理/2.2.2 UDP的可靠传输协议QUIC/2.2.3-udp-kcp-quic/ikcp.c:1197-1199 | The control block's xmit grows by the number of segments that were due |
| KcpLoss.FlushGivesUp | 0voice/advanced/2.2网络原理/2.2.2 UDP的可靠传输协议QUIC/2.2.3-udp-kcp-quic/ikcp.c:1242-1244 | The link is marked dead exactly when a segment goes out for the deadLink-th time or later |
| KcpLoss.RunAnswersLoss | 0voice/advanced/2.2网络原理/2.2.2 UDP的可靠传输协议QUIC/2.2.3-udp-kcp-quic/ikcp.c:1045-1310 | The reaction to loss, the treatment of each segment and the count of timeouts, for every flush of every run, in both arithmetics |
| KcpLoss.DatagramGrows | 0voice/advanced/2.2网络原理/2.2.2 UDP的可靠传输协议QUIC/2.2.3-udp-kcp-quic/ikcp.c:964-995 | A datagram grows the congestion window exactly when snd_una advanced and cwnd is below the peer's window: by one segment and mss below ssthresh; else incr grows by mss*mss/incr + mss/16 and, once it reaches another segment, cwnd is the number of segments it needs, at most the peer's window |
| KcpLoss.RunGrows | 0voice/advanced/2.2网络原理/2.2.2 UDP的可靠传输协议QUIC/2.2.3-udp-kcp-quic/ikcp.c:964-995 | The same of every delivery of every run |
| KcpTimer.NothingBeforeCheck | 0voice/advanced/2.2网络原理/2.2.2 UDP的可靠传输协议QUIC/2.2.3-udp-kcp-quic/ikcp.c:1321-1357 | At any time from now up to but excluding the answer of ikcp_check, ikcp_update does not flush and no segment is due; the answer is at most one interval ahead |
| KcpTimer.SomethingAtCheck | 0voice/advanced/2.2网络原理/2.2.2 UDP的可靠传输协议QUIC/2.2.3-udp-kcp-quic/ikcp.c:1344-1356 | At the answer itself a flush or a segment is due, unless it was cut to one interval |
| KcpTimer.CheckNowMeansWork | 0voice/advanced/2.2网络原理/2.2.2 UDP的可靠传输协议QUIC/2.2.3-udp-kcp-quic/ikcp.c:1329-1351 | When ikcp_check answers now, an update flushes or a segment is due |
| KcpTimer.FlushReschedules | 0voice/advanced/2.2网络原理/2.2.2 UDP的可靠传输协议QUIC/2.2.3-udp-kcp-quic/ikcp.c:1295-1308 | After an update that flushes, ts_flush lies in (current, current + interval] |
| KcpTimer.TickExact | 0voice/advanced/2.2网络原理/2.2.2 UDP的可靠传输协议QUIC/2.2.3-udp-kcp-quic/ikcp.c:1284-1310 | When an update flushes and what it plans: the first call and one 10 seconds or more off the plan flush and start over from the clock; an early one does neither; a late one flushes and keeps the phase, unless it is a whole interval late |
| KcpTimer.FirstUpdateFlushes | 0voice/advanced/2.2网络原理/2.2.2 UDP的可靠传输协议QUIC/2.2.3-udp-kcp-quic/ikcp.c:1284-1310 | The first update of a new control block flushes at whatever time it comes |
| KcpTimer.Fresh | 0voice/advanced/2.2网络原理/2.2.2 UDP的可靠传输协议QUIC/2.2.3-udp-kcp-quic/ikcp.c:231-293 | A new control block, field by field, with its constants |
| KcpTimer.PacketWaitIs | 0voice/advanced/2.2网络原理/2.2.2 UDP的可靠传输协议QUIC/2.2.3-udp-kcp-quic/ikcp.c:1344-1351 | The scan of snd_buf finds that a segment is due, or the least time to one |
| KcpResend.FlushSendsWanted | 0voice/advanced/2.2网络原理/2.2.2 UDP的可靠传输协议QUIC/2.2.3-udp-kcp-quic/ikcp.c:1186-1246 | A flush sends exactly the segments that are new, whose time has come, or that enough later acks skipped while early resends are allowed, each once and in order |
| KcpResend.BacksOff | 0voice/advanced/2.2网络原理/2.2.2 UDP的可靠传输协议QUIC/2.2.3-udp-kcp-quic/ikcp.c:1193-1219 | The timeout of a segment never falls, and at its time it is at least doubled, or grows by half of itself, or by half of the estimate, as nodelay says, while it stays below 2^30 |
| KcpResend.RunBackoff | 0voice/advanced/2.2网络原理/2.2.2 UDP的可靠传输协议QUIC/2.2.3-udp-kcp-quic/ikcp.c:1186-1219 | In every state of every run, of the unbounded protocol and of the 32-bit code, the timeout of a segment sent k <= 15 times is positive and at most 60 seconds doubled k - 1 times |
| KcpResend.NothingDueAfterFlush | 0voice/advanced/2.2网络原理/2.2.2 UDP的可靠传输协议QUIC/2.2.3-udp-kcp-quic/ikcp.c:1186-1219 | After a flush the time of every segment in flight is still to come, while timeouts stay below 2^30 and the clock is not half a cycle from a segment's time |
| KcpResend.RunCheckIsLater | 0voice/advanced/2.2网络原理/2.2.2 UDP的可靠传输协议QUIC/2.2.3-udp-kcp-quic/ikcp.c:1284-1357 | In any run, right after an update that flushes, ikcp_check answers later than now, by at most one interval, as long as no segment was sent more than 15 times and the clock is not half a cycle from a segment's time |
| KcpSender.ParseUnaKeeps | 0voice/advanced/2.2网络原理/2.2.2 UDP的可靠传输协议QUIC/2.2.3-udp-kcp-quic/ikcp.c:644-659 | A cumulative ack releases exactly the segments below it and keeps the send window |
| KcpSender.ParseAckKeeps | 0voice/advanced/2.2网络原理/2.2.2 UDP的可靠传输协议QUIC/2.2.3-udp-kcp-quic/ikcp.c:619-640 | A selective ack releases at most its own segment and keeps the send window |
| KcpSender.ParseFastAckKeeps | 0voice/advanced/2.2网络原理/2.2.2 UDP的可靠传输协议QUIC/2.2.3-udp-kcp-quic/ikcp.c:664-692 | Counting skipped segments keeps the send window, the queue and every unacknowledged number |
| KcpSender.ParseFastAckCounts | 0voice/advanced/2.2网络原理/2.2.2 UDP的可靠传输协议QUIC/2.2.3-udp-kcp-quic/ikcp.c:664-692 | An ack of a number in flight counts exactly the segments below it as skipped, each once; any other ack counts none |
| KcpSender.AdmitKeeps | 0voice/advanced/2.2网络原理/2.2.2 UDP的可靠传输协议QUIC/2.2.3-udp-kcp-quic/ikcp.c:1148-1170 | Admission keeps the send window and every unacknowledged number |
| KcpSender.ResendKeeps | 0voice/advanced/2.2网络原理/2.2.2 UDP的可靠传输协议QUIC/2.2.3-udp-kcp-quic/ikcp.c:1186-1246 | The retransmission loop keeps every number, fragment and payload |
| KcpSender.ResendSends | 0voice/advanced/2.2网络原理/2.2.2 UDP的可靠传输协议QUIC/2.2.3-udp-kcp-quic/ikcp.c:1221-1240 | Every packet the loop sends is a segment of snd_buf, stamped with the current window and rcv_nxt |
| KcpReceiver.InsertAdds | 0voice/advanced/2.2网络原理/2.2.2 UDP的可靠传输协议QUIC/2.2.3-udp-kcp-quic/ikcp.c:767-785 | Insertion into rcv_buf adds exactly the packet's number, once, and a repeated number changes nothing |
| KcpReceiver.ParseDataKeeps | 0voice/advanced/2.2网络原理/2.2.2 UDP的可靠传输协议QUIC/2.2.3-udp-kcp-quic/ikcp.c:754-804 | Taking a data packet keeps the receive window and stores exactly its number if it is inside |
| KcpReceiver.MoveReadyKeeps | 0voice/advanced/2.2网络原理/2.2.2 UDP的可靠传输协议QUIC/2.2.3-udp-kcp-quic/ikcp.c:793-804 | Moving ready packets loses nothing and keeps the receive window |
| KcpReceiver.PeekSizeIs | 0voice/advanced/2.2网络原理/2.2.2 UDP的可靠传输协议QUIC/2.2.3-udp-kcp-quic/ikcp.c:447-469 | ikcp_peeksize is the size of the first complete message, or negative when there is none; so the assertion len == peeksize in ikcp_recv holds |
| KcpReceiver.FullQueueIsReadable | 0voice/advanced/2.2网络原理/2.2.2 UDP的可靠传输协议QUIC/2.2.3-udp-kcp-quic/ikcp.c:1411-1421 | A receive queue that fills rcv_wnd always holds a complete message |
| KcpReceiver.MessagesNext | 0voice/advanced/2.2网络原理/2.2.2 UDP的可靠传输协议QUIC/2.2.3-udp-kcp-quic/ikcp.c:388-413 | Fragments taken at a boundary up to the next fragment 0 are exactly the next message |
| KcpSafety.FragmentsAre | 0voice/advanced/2.2网络原理/2.2.2 UDP的可靠传输协议QUIC/2.2.3-udp-kcp-quic/ikcp.c:541-563 | The fragments of a message concatenate to it and count down to 0 |
| KcpSafety.SendAccounted | 0voice/advanced/2.2网络原理/2.2.2 UDP的可靠传输协议QUIC/2.2.3-udp-kcp-quic/ikcp.c:490-566 | Whatever ikcp_send returns, the fragments queued and numbered so far carry exactly the accepted messages, outside stream mode, and the queued bytes, which grow by the data of an accepted call and by the extension of a refused one |
| KcpSafety.RecvSucceeds | 0voice/advanced/2.2网络原理/2.2.2 UDP的可靠传输协议QUIC/2.2.3-udp-kcp-quic/ikcp.c:361-469 | ikcp_recv succeeds exactly when the peer's next message is complete in rcv_queue and fits the buffer |
| KcpSafety.RecvOne | 0voice/advanced/2.2网络原理/2.2.2 UDP的可靠传输协议QUIC/2.2.3-udp-kcp-quic/ikcp.c:361-442 | A call that succeeds returns exactly the peer's next message and, unless it peeks, takes exactly its fragments; otherwise nothing changes |
| KcpSafety.RecvTakes | 0voice/advanced/2.2网络原理/2.2.2 UDP的可靠传输协议QUIC/2.2.3-udp-kcp-quic/ikcp.c:361-442 | Receiving keeps the window, what is stored, and the correspondence of delivered messages to fragments taken |
| KcpPlain.RunPlain | 0voice/advanced/2.2网络原理/2.2.2 UDP的可靠传输协议QUIC/2.2.3-udp-kcp-quic/ikcp.c:1003-1014 | In every run each field of each packet fits its wire width and each payload fits into mss |
| KcpWrap.InputIsDatagram | 0voice/advanced/2.2网络原理/2.2.2 UDP的可靠传输协议QUIC/2.2.3-udp-kcp-quic/ikcp.c:843-960 | Feeding a datagram's bytes to ikcp_input is processing its packets one by one |
| Kcp.Endpoint.constructor | 0voice/advanced/2.2网络原理/2.2.2 UDP的可靠传输协议QUIC/2.2.3-udp-kcp-quic/ikcp.c:231-293 | The control block ikcp_create makes |
| Kcp.Endpoint.Send | 0voice/advanced/2.2网络原理/2.2.2 UDP的可靠传输协议QUIC/2.2.3-udp-kcp-quic/ikcp.c:490-566 | Updates the block in place exactly as the specification function of ikcp_send, and returns its code |
| Kcp.Endpoint.Recv | 0voice/advanced/2.2网络原理/2.2.2 UDP的可靠传输协议QUIC/2.2.3-udp-kcp-quic/ikcp.c:361-442 | In place, equal to the specification of ikcp_recv with its codes and data |
| Kcp.Endpoint.Peek | 0voice/advanced/2.2网络原理/2.2.2 UDP的可靠传输协议QUIC/2.2.3-udp-kcp-quic/ikcp.c:447-469 | Equal to the specification of ikcp_peeksize |
| KcpRtt.FollowsRfc6298 | 0voice/advanced/2.2网络原理/2.2.2 UDP的可靠传输协议QUIC/2.2.3-udp-kcp-quic/ikcp.c:587-604 | The smoothing is that of sections 2.2 and 2.3 of RFC 6298 on real numbers, rounded down to milliseconds, the smoothed time to at least one |
| KcpSample.InputSamples | 0voice/advanced/2.2网络原理/2.2.2 UDP的可靠传输协议QUIC/2.2.3-udp-kcp-quic/ikcp.c:877-880 | Of one packet in ikcp_input, in both arithmetics: an ACK whose time lies ms milliseconds back on the 32-bit clock is one step of the estimators of RFC 6298 with the sample ms and sets the timeout that goes with them; an ACK with a later time, and any other packet, leaves the estimate unchanged |
| KcpSample.SampleIsRoundTrip | 0voice/advanced/2.2网络原理/2.2.2 UDP的可靠传输协议QUIC/2.2.3-udp-kcp-quic/ikcp.c:828-1252 | In every run, in both arithmetics and whatever is delivered, every ACK the network can deliver names a data packet that its receiver emitted in some earlier step and carries the receiver's clock of that step, so the sample fed to the estimator is the time since that emission on the receiver's own clock |
| KcpSample.RunAnswers | 0voice/advanced/2.2网络原理/2.2.2 UDP的可靠传输协议QUIC/2.2.3-udp-kcp-quic/ikcp.c:906-960 | In every state of every run, in both arithmetics, every pending ack and every ACK sent carries number and time of a data packet the peer has sent |
| KcpFeedback.FlushSpeaks | 0voice/advanced/2.2网络原理/2.2.2 UDP的可靠传输协议QUIC/2.2.3-udp-kcp-quic/ikcp.c:1061-1240 | A flush sends first the pending acknowledgements, each once, in order, and no other ACK; a WINS exactly when a report is due; every packet has the conversation, rcv_nxt as una and max(rcv_wnd - queue length, 0) modulo 65536 as window |
| KcpFeedback.PacketHeard | 0voice/advanced/2.2网络原理/2.2.2 UDP的可靠传输协议QUIC/2.2.3-udp-kcp-quic/ikcp.c:872-948 | Any packet sets rmt_wnd to its window; WASK alone makes a report due; a data packet below rcv_nxt + rcv_wnd, duplicates included, and no other is to be acknowledged |
| KcpFeedback.DatagramHeard | 0voice/advanced/2.2网络原理/2.2.2 UDP的可靠传输协议QUIC/2.2.3-udp-kcp-quic/ikcp.c:843-960 | After a datagram rmt_wnd is the window of its last packet, and a report is due if one was or a WASK is among them |
| KcpFeedback.RecvTells | 0voice/advanced/2.2网络原理/2.2.2 UDP的可靠传输协议QUIC/2.2.3-udp-kcp-quic/ikcp.c:383-439 | A read makes a report due exactly when the receive queue filled the window and no longer does |
| KcpFeedback.RecvCodes | 0voice/advanced/2.2网络原理/2.2.2 UDP的可靠传输协议QUIC/2.2.3-udp-kcp-quic/ikcp.c:361-383 | -1 for an empty queue, -2 for an incomplete message, -3 for one that does not fit, else its size |
| KcpFeedback.RunReports | 0voice/advanced/2.2网络原理/2.2.2 UDP的可靠传输协议QUIC/2.2.3-udp-kcp-quic/ikcp.c:361-1276 | In every run, in both arithmetics: a call that flushes sends what FlushSpeaks says and leaves no report due and no ack pending; any other keeps a report that is due, and only a delivered WASK or a reopened window makes one due |
| KcpFeedback.RunAnnounces | 0voice/advanced/2.2网络原理/2.2.2 UDP的可靠传输协议QUIC/2.2.3-udp-kcp-quic/ikcp.c:1061-1240 | In every run, in both arithmetics, every packet in the network carries the una and the free window its sender had when it left |
| KcpFeedback.RunPeerWindow | 0voice/advanced/2.2网络原理/2.2.2 UDP的可靠传输协议QUIC/2.2.3-udp-kcp-quic/ikcp.c:872-873 | In every run, in both arithmetics, the peer window a side keeps to is the initial 128 or the room, modulo 65536, that its peer had in some earlier state |
| KcpFeedback.DeliveryIsDatagram | 0voice/advanced/2.2网络原理/2.2.2 UDP的可靠传输协议QUIC/2.2.3-udp-kcp-quic/ikcp.c:843-960 | In every run a delivered datagram, as bytes or not, is processed as the packets packed into it, all of them |
| KcpDatagram.DatagramReleases | 0voice/advanced/2.2网络原理/2.2.2 UDP的可靠传输协议QUIC/2.2.3-udp-kcp-quic/ikcp.c:607-702 | A datagram of the peer removes from snd_buf exactly the numbers that one of its packets acknowledges, by una or by ACK, and counts as skipped, once, exactly the remaining segments below one of its ACKs |
| KcpDatagram.RunReleases | 0voice/advanced/2.2网络原理/2.2.2 UDP的可靠传输协议QUIC/2.2.3-udp-kcp-quic/ikcp.c:843-964 | The same of every delivery of every run |
| KcpDatagram.PacketStores | 0voice/advanced/2.2网络原理/2.2.2 UDP的可靠传输协议QUIC/2.2.3-udp-kcp-quic/ikcp.c:906-935 | A packet adds to what is kept exactly its own number, if it is data below rcv_nxt + rcv_wnd |
| KcpRtt.SampleMoves | 0voice/advanced/2.2网络原理/2.2.2 UDP的可靠传输协议QUIC/2.2.3-udp-kcp-quic/ikcp.c:587-604 | The new smoothed time lies between the old one and the sample, an eighth of the way; the variation moves a quarter of the way to the distance |
| KcpRtt.TimeoutCovers | 0voice/advanced/2.2网络原理/2.2.2 UDP的可靠传输协议QUIC/2.2.3-udp-kcp-quic/ikcp.c:587-604 | The timeout lies between the configured minimum and 60 seconds, and below 60 seconds covers the smoothed time plus four variations and plus one interval |
| KcpRtt.EstimateSettles | 0voice/advanced/2.2网络原理/2.2.2 UDP的可靠传输协议QUIC/2.2.3-udp-kcp-quic/ikcp.c:587-604 | On a constant round trip the smoothed time settles to less than 8 ms below it, the variation to less than 8 ms, and the timeout accordingly, within a number of samples given by the starting distance |
| KcpRtt.RunTimeouts | 0voice/advanced/2.2网络原理/2.2.2 UDP的可靠传输协议QUIC/2.2.3-udp-kcp-quic/ikcp.c:587-604 | In every state of every run, of the unbounded protocol and of the 32-bit code, each timeout is the initial one or lies between the configured minimum and 60 seconds |
| Kcp.Endpoint.ParseUna | 0voice/advanced/2.2网络原理/2.2.2 UDP的可靠传输协议QUIC/2.2.3-udp-kcp-quic/ikcp.c:644-659 | In place, equal to dropping the acknowledged prefix of snd_buf |
| Kcp.Endpoint.ParseAck | 0voice/advanced/2.2网络原理/2.2.2 UDP的可靠传输协议QUIC/2.2.3-udp-kcp-quic/ikcp.c:619-640 | In place, equal to removing one number from snd_buf |
| Kcp.Endpoint.ParseFastAck | 0voice/advanced/2.2网络原理/2.2.2 UDP的可靠传输协议QUIC/2.2.3-udp-kcp-quic/ikcp.c:664-692 | In place, equal to counting skipped segments |
| Kcp.Endpoint.ParseData | 0voice/advanced/2.2网络原理/2.2.2 UDP的可靠传输协议QUIC/2.2.3-udp-kcp-quic/ikcp.c:754-804 | In place, equal to inserting a packet and moving ready ones |
| Kcp.Endpoint.Input | 0voice/advanced/2.2网络原理/2.2.2 UDP的可靠传输协议QUIC/2.2.3-udp-kcp-quic/ikcp.c:828-997 | In place, equal to the specification of ikcp_input on any bytes, with its codes; KcpBytes.InputAnyBytes, KcpSample.InputSamples, KcpFeedback.PacketHeard, KcpDatagram.DatagramReleases and KcpLoss.DatagramGrows say what that does |
| Kcp.Endpoint.Flush | 0voice/advanced/2.2网络原理/2.2.2 UDP的可靠传输协议QUIC/2.2.3-udp-kcp-quic/ikcp.c:1045-1276 | In place, equal to the specification of ikcp_flush; returns the datagrams sent. KcpFeedback.FlushSpeaks, KcpLoss.FlushTreats, KcpLoss.FlushAnswersLoss and KcpSafety.FlushFillsWindow say what that does |
| Kcp.Endpoint.AdmitSegments | 0voice/advanced/2.2网络原理/2.2.2 UDP的可靠传输协议QUIC/2.2.3-udp-kcp-quic/ikcp.c:1148-1170 | In place, equal to admission from snd_queue |
| Kcp.Endpoint.Retransmit | 0voice/advanced/2.2网络原理/2.2.2 UDP的可靠传输协议QUIC/2.2.3-udp-kcp-quic/ikcp.c:1186-1246 | In place, equal to the decisions for each segment of snd_buf |
| KcpProbe.AsksWhenDue | 0voice/advanced/2.2网络原理/2.2.2 UDP的可靠传输协议QUIC/2.2.3-udp-kcp-quic/ikcp.c:1087-1127 | A flush sends a window probe exactly when the peer's window is closed and the running timer is due |
| KcpProbe.RunAsksWhenDue | 0voice/advanced/2.2网络原理/2.2.2 UDP的可靠传输协议QUIC/2.2.3-udp-kcp-quic/ikcp.c:1087-1127 | The same in every state of every run on unbounded numbers |
| KcpProbe.FlushWait | 0voice/advanced/2.2网络原理/2.2.2 UDP的可靠传输协议QUIC/2.2.3-udp-kcp-quic/ikcp.c:1087-1110 | With a closed window the wait is at least 7 seconds, never falls, never exceeds two minutes, and sets the next time; an open window switches the timer off |
| KcpProbe.ClosedWindowWaits | 0voice/advanced/2.2网络原理/2.2.2 UDP的可靠传输协议QUIC/2.2.3-udp-kcp-quic/ikcp.c:1087-1110 | Over any stretch of any run, of the unbounded protocol and of the 32-bit code, in which the peer's window stays closed, the wait never falls |
| KcpProbe.WaitLimit | 0voice/advanced/2.2网络原理/2.2.2 UDP的可靠传输协议QUIC/2.2.3-udp-kcp-quic/ikcp.c:1099-1106 | The wait grows with each probe and stands at two minutes exactly from the eighth on |
| KcpProbe.DueWaits | 0voice/advanced/2.2网络原理/2.2.2 UDP的可靠传输协议QUIC/2.2.3-udp-kcp-quic/ikcp.c:1099-1106 | Each due probe advances the timer by one step of that sequence |
| Kcp.Endpoint.Update | 0voice/advanced/2.2网络原理/2.2.2 UDP的可靠传输协议QUIC/2.2.3-udp-kcp-quic/ikcp.c:1284-1309 | In place, equal to the specification of ikcp_update |
| Kcp.Endpoint.Check | 0voice/advanced/2.2网络原理/2.2.2 UDP的可靠传输协议QUIC/2.2.3-udp-kcp-quic/ikcp.c:1321-1357 | Equal to the specification of ikcp_check |
| KcpQueue.Add | 0voice/advanced/2.2网络原理/2.2.2 UDP的可靠传输协议QUIC/2.2.3-udp-kcp-quic/ikcp.h:165-167 | IQUEUE_ADD puts the node right after the given one in the ring |
| KcpQueue.AddTail | 0voice/advanced/2.2网络原理/2.2.2 UDP的可靠传输协议QUIC/2.2.3-udp-kcp-quic/ikcp.h:169-171 | IQUEUE_ADD_TAIL appends the node to the ring |
| KcpQueue.Del | 0voice/advanced/2.2网络原理/2.2.2 UDP的可靠传输协议QUIC/2.2.3-udp-kcp-quic/ikcp.h:175-178 | IQUEUE_DEL removes exactly the entry and clears its links |
| KcpQueue.IsEmpty | 0voice/advanced/2.2网络原理/2.2.2 UDP的可靠传输协议QUIC/2.2.3-udp-kcp-quic/ikcp.h:183 | IQUEUE_IS_EMPTY holds exactly for a head alone in its ring |
| KcpQueue.Walk | 0voice/advanced/2.2网络原理/2.2.2 UDP的可靠传输协议QUIC/2.2.3-udp-kcp-quic/ikcp.h:193-196 | Following next from the head visits the ring in order and meets the head again only at its end |
| KcpQueue.MoveFirst | 0voice/advanced/2.2网络原理/2.2.2 UDP的可靠传输协议QUIC/2.2.3-udp-kcp-quic/ikcp.c:1150-1156 | Moving the first node of one queue to the tail of another loses and shares no node |
| KvsRbtree.RbTree.RotateLeft | projects/project1_kv/zzx_kvstore/kvs_rbtree.c:44-71 | In place: the stored tree is the left rotation of the old one, links and parents consistent |
| KvsRbtree.RbTree.RotateRight | projects/project1_kv/zzx_kvstore/kvs_rbtree.c:73-100 | In place: the right rotation |
| KvsRbtree.RbTree.InsertFixup | projects/project1_kv/zzx_kvstore/kvs_rbtree.c:102-159 | Terminates and leaves a red-black tree with the same entries |
| KvsRbtree.RbTree.InsertStep | projects/project1_kv/zzx_kvstore/kvs_rbtree.c:105-156 | One iteration keeps the loop invariant and the entries and comes closer to the root |
| KvsRbtree.RbTree.Insert | projects/project1_kv/zzx_kvstore/kvs_rbtree.c:161-226 | Keeps a sorted red-black tree with consistent links; adds exactly the new key, or changes nothing if it is there |
| KvsRbtree.RbTree.DeleteFixup | projects/project1_kv/zzx_kvstore/kvs_rbtree.c:228-309 | Terminates and leaves a red-black tree with the same entries |
| KvsRbtree.RbTree.Delete | projects/project1_kv/zzx_kvstore/kvs_rbtree.c:311-373 | Removes exactly the entry of the given node; the returned node is unlinked and carries that key and value after the exchange |
| KvsRbtree.RbTree.Successor | projects/project1_kv/zzx_kvstore/kvs_rbtree.c:27-42 | The node of the next entry in key order, or nil after the last |
| KvsRbtree.RbTree.Mini | projects/project1_kv/zzx_kvstore/kvs_rbtree.c:9-16 | The node of a subtree's first entry |
| KvsRbtree.RbTree.Search | projects/project1_kv/zzx_kvstore/kvs_rbtree.c:375-412 | The node of the key, or nil exactly when the key is absent |
| KvsRbtree.RbTree.constructor | projects/project1_kv/zzx_kvstore/kvs_rbtree.c:444-468 | An empty tree that is its black sentinel |
| KvsRbtree.RbTree.Set | projects/project1_kv/zzx_kvstore/kvs_rbtree.c:513-583 | The map gains or updates the key; 1 exactly when key and value were there already, else 0 |
| KvsRbtree.RbTree.Get | projects/project1_kv/zzx_kvstore/kvs_rbtree.c:594-610 | The value of the key, or null exactly when it is absent |
| KvsRbtree.RbTree.Del | projects/project1_kv/zzx_kvstore/kvs_rbtree.c:621-649 | The map loses exactly the key; 0 or 1 says whether it was there |
| KvsRbtree.RbTree.Mod | projects/project1_kv/zzx_kvstore/kvs_rbtree.c:661-689 | The value of an existing key changes; 0 or 1 says whether it was there |
| KvsRbtree.RbTree.Exist | projects/project1_kv/zzx_kvstore/kvs_rbtree.c:700-717 | 0 exactly when the key is there |
| KvsTree.RecoloredKeeps | projects/project1_kv/zzx_kvstore/kvs_rbtree.c:110-117 | The red-uncle case keeps the insertion invariant and the entries |
| KvsTree.LiftLeft | projects/project1_kv/zzx_kvstore/kvs_rbtree.c:127-129 | The final rotation of insertion restores the red-black rules around the focus |
| KvsTree.InsertDone | projects/project1_kv/zzx_kvstore/kvs_rbtree.c:158 | Painting the root black ends insertion with a red-black tree |
| KvsTree.RedSibling | projects/project1_kv/zzx_kvstore/kvs_rbtree.c:237-244 | Deletion's first case keeps its invariant and makes the sibling black |
| KvsTree.BlackSibling | projects/project1_kv/zzx_kvstore/kvs_rbtree.c:246-250 | The second case moves the missing black level up |
| KvsTree.NearRed | projects/project1_kv/zzx_kvstore/kvs_rbtree.c:254-260 | The third case makes the far child red |
| KvsTree.FarRed | projects/project1_kv/zzx_kvstore/kvs_rbtree.c:262-267 | The fourth case restores every black height |
| KvsTree.DeleteDone | projects/project1_kv/zzx_kvstore/kvs_rbtree.c:308 | Painting the focus black ends deletion with a red-black tree |
| KvsTree.RotLKeeps | projects/project1_kv/zzx_kvstore/kvs_rbtree.c:44-71 | A rotation keeps the sequence of entries |
| KvsTree.PlugRedBlack | projects/project1_kv/zzx_kvstore/kvs_rbtree.c:102-159 | A fitting subtree in fitting surroundings is a red-black tree |
| KvsOrder.SuccessorEntries | projects/project1_kv/zzx_kvstore/kvs_rbtree.c:349-365 | Exchanging payloads with the successor and unlinking it removes exactly the asked entry |
| KvsOrder.BetweenDown | projects/project1_kv/zzx_kvstore/kvs_rbtree.c:382-389 | One comparison of the search narrows the place of the key |
| KvsOrder.OneMore | projects/project1_kv/zzx_kvstore/kvs_rbtree.c:201-219 | One more entry in its place is one more key in the map, and back |
| KvsString.Trichotomy | projects/project1_kv/zzx_kvstore/kvs_rbtree.c:172-183 | Exactly one of the outcomes of strcmp applies |
| KvsString.LessTransitive | projects/project1_kv/zzx_kvstore/kvs_rbtree.c:172 | The order of strcmp is transitive |
| KvsHash.HashTable.constructor | projects/project1_kv/zzx_kvstore/kvs_hash.c:76-98 | An empty table, its buckets empty |
| KvsHash.HashTable.Hash | projects/project1_kv/zzx_kvstore/kvs_hash.c:10-26 | The signed sum of the characters with C's remainder; it may be negative |
| KvsHash.HashTable.Set | projects/project1_kv/zzx_kvstore/kvs_hash.c:150-223 | -2 when full, -1 for a negative index, 1 for the same value, else the map gains or updates the key |
| KvsHash.HashTable.Get | projects/project1_kv/zzx_kvstore/kvs_hash.c:232-262 | The value of the key, or null exactly when it is absent |
| KvsHash.HashTable.Mod | projects/project1_kv/zzx_kvstore/kvs_hash.c:274-320 | The value of an existing key changes; -1 for a negative index |
| KvsHash.HashTable.Del | projects/project1_kv/zzx_kvstore/kvs_hash.c:336-392 | The map loses exactly the key, from any position of its chain |
| KvsHash.HashTable.Exist | projects/project1_kv/zzx_kvstore/kvs_hash.c:401-417 | 0 exactly when the key is there |
| KvsHash.HashTable.CountIs | projects/project1_kv/zzx_kvstore/kvs_hash.c:322-325 | count is the number of keys |
| KvsEngine.EnginesAgree | projects/project1_kv/zzx_kvstore/kvstore.c:211-427 | For every sequence of commands the R* and H* responses are identical if and only if each SET finds fewer live keys than slots and every SET and MOD key has a non-negative index |
| KvsEngine.SevenBitRuns | projects/project1_kv/zzx_kvstore/kvstore.c:211-427 | With 7-bit keys the responses are identical if and only if each SET finds fewer live keys than slots |
| KvsEngine.EighthBitDiffers | projects/project1_kv/zzx_kvstore/kvs_hash.c:150-172 | A key whose character is beyond 7 bits for which the engines answer differently |
| KvsEngine.OneReply | projects/project1_kv/zzx_kvstore/kvstore.c:321-406 | One command is answered alike, and leaves the maps alike, exactly when the hash engine has room and a slot for it |
| KvsStore.Store.Filter | projects/project1_kv/zzx_kvstore/kvstore.c:77-436 | For any tokens of the R* and H* commands the response byte by byte over what the engine held (as PlainSays and HashSays), its length, the new engine contents, and the error returns |
| KvsStore.ReadAsks | projects/project1_kv/zzx_kvstore/kvstore.c:32-36 | A line is read as a command exactly when it spells it: RSET, RGET, RDEL, RMOD, REXIST or the same with H, a key, and for SET and MOD a value |
| KvsStore.ReadOthers | projects/project1_kv/zzx_kvstore/kvstore.c:79-96 | No tokens, one of the five array commands, an unknown name, and otherwise the wrong number of tokens |
| KvsReplies.PlainSays | projects/project1_kv/zzx_kvstore/kvstore.c:211-317 | The bytes of each reply of the red-black engine: EXIST answers EXIST or NOT EXIST by the key being there, GET the stored text or NOT FOUND, DEL and MOD OK or NOT FOUND, SET EXIST if the value is the stored one and else OK, each with CR LF |
| KvsReplies.HashSaysSo | projects/project1_kv/zzx_kvstore/kvstore.c:321-427 | The same of the hash engine, with ERROR for the commands it refuses: SET into a full table, and SET and MOD of a key whose characters sum to less than zero and not to a multiple of the table size |
| KvsReplies.ErrorWhen | projects/project1_kv/zzx_kvstore/kvstore.c:321-427 | ERROR is answered exactly to those, or by a GET whose stored text it is |
| KvsReplies.SumAdds | projects/project1_kv/zzx_kvstore/kvs_hash.c:16-23 | The hash adds each character of the key once |
| KvsReplies.PlainEffect | projects/project1_kv/zzx_kvstore/kvs_rbtree.c:513-689 | What each command leaves under each key |
| KvsReplies.HashEffect | projects/project1_kv/zzx_kvstore/kvs_hash.c:150-392 | The same in the hash engine, where a refused command leaves everything |
| KvsStore.Recognize | projects/project1_kv/zzx_kvstore/kvstore.c:88-96 | The search of the command table and the token counts |
| KvsStore.ReadTokens | projects/project1_kv/zzx_kvstore/kvstore.c:32-36 | The tokens written for a command are read back as that command |
| KvsStore.Session | projects/project1_kv/zzx_kvstore/kvstore.c:77-436 | A run sent to fresh engines through the dispatcher as R* and as H* commands: each reply is, byte by byte, that to its command given what the commands before it left under its key, or ERROR where the hash engine refuses; the two runs of replies are equal exactly under the condition of EnginesAgree |
| NtySplay.SplayTree.Splay | 0voice/advanced/2.4基于dpdk的用户态协议栈的实现/zzx_实现/nty_tree.h:202-234 | Keeps the in-order node sequence; the root carries the key if it is present, else it is a neighbour of the key's place; the shape is that of the top-down splay whose depths NtyDepth.SplayHalves and NtyDepth.SplaySinks bound |
| NtyDepth.SplayHalves | 0voice/advanced/2.4基于dpdk的用户态协议栈的实现/zzx_实现/nty_tree.h:202-234 | A node that the search passes at depth i is at most i/2 + 2 deep after the splay: the rotation at two turns to the same side is what halves the path |
| NtyDepth.SplaySinks | 0voice/advanced/2.4基于dpdk的用户态协议栈的实现/zzx_实现/nty_tree.h:202-234 | A node at depth i, anywhere in the tree, is at most i + 2 deep after the splay |
| NtySplay.SplayTree.Assemble | 0voice/advanced/2.4基于dpdk的用户态协议栈的实现/zzx_实现/nty_tree.h:110-115 | Reassembles the three parts into one tree |
| NtySplay.SplayTree.StepLeft | 0voice/advanced/2.4基于dpdk的用户态协议栈的实现/zzx_实现/nty_tree.h:211-220 | One round to the left keeps the order of all nodes and shrinks the middle part or stops next to the key's place |
| NtySplay.SplayTree.StepRight | 0voice/advanced/2.4基于dpdk的用户态协议栈的实现/zzx_实现/nty_tree.h:221-231 | The mirrored round |
| NtySplay.SplayTree.RotateRight | 0voice/advanced/2.4基于dpdk的用户态协议栈的实现/zzx_实现/nty_tree.h:86-90 | Rotates the root to the right in place |
| NtySplay.SplayTree.LinkLeft | 0voice/advanced/2.4基于dpdk的用户态协议栈的实现/zzx_实现/nty_tree.h:98-102 | The root and its right subtree join the right part |
| NtySplay.SplayTree.LinkRight | 0voice/advanced/2.4基于dpdk的用户态协议栈的实现/zzx_实现/nty_tree.h:104-108 | The root and its left subtree join the left part |
| NtySplay.SplayTree.Insert | 0voice/advanced/2.4基于dpdk的用户态协议栈的实现/zzx_实现/nty_tree.h:159-180 | Set insertion: null exactly when the element was linked, else the element with its key; the one or the other is the new root |
| NtySplay.SplayTree.Remove | 0voice/advanced/2.4基于dpdk的用户态协议栈的实现/zzx_实现/nty_tree.h:182-200 | Set deletion: the argument exactly when its key was present, and exactly one node with that key leaves the tree, which is splayed at the key, and its left subtree again |
| NtySplay.SplayTree.JoinChildren | 0voice/advanced/2.4基于dpdk的用户态协议栈的实现/zzx_实现/nty_tree.h:191-195 | Re-splaying the left subtree leaves it without a right child, so the right subtree can be attached |
| NtySplay.SplayTree.Find | 0voice/advanced/2.4基于dpdk的用户态协议栈的实现/zzx_实现/nty_tree.h:127-134 | The node with the key, which is then the root, or null exactly when it is absent; the tree is splayed |
| NtySplay.StopsNear | 0voice/advanced/2.4基于dpdk的用户态协议栈的实现/zzx_实现/nty_tree.h:210-233 | Where the search stops, the reassembled root carries the key or is a neighbour of its place |
| NtySplay.NoRight | 0voice/advanced/2.4基于dpdk的用户态协议栈的实现/zzx_实现/nty_tree.h:193-195 | A splayed tree whose keys are all below the key has no right child |
| NtySplay.AssembledOrder | 0voice/advanced/2.4基于dpdk的用户态协议栈的实现/zzx_实现/nty_tree.h:110-115 | Reassembly keeps the in-order sequence of the three parts |
| KvsSkipList.SkipList.Insert | projects/project1_kv/zzx_kvstore/kvs_skiptable.c:50-85 | False exactly for a key already present, leaving the list unchanged; else exactly the key is added, at the given height, and all levels stay linked |
| KvsSkipList.SkipList.Search | projects/project1_kv/zzx_kvstore/kvs_skiptable.c:103-120 | True exactly for the inserted keys |
| KvsSkipList.SkipList.Splice | projects/project1_kv/zzx_kvstore/kvs_skiptable.c:73-76 | Splicing one level puts the node in its place there and touches no other level |
| KvsSkipList.SkipList.Walk | projects/project1_kv/zzx_kvstore/kvs_skiptable.c:55-57 | One level of the search stops at the last smaller node |
| KvsSkipList.SkipList.constructor | projects/project1_kv/zzx_kvstore/kvs_skiptable.c:30-41 | An empty list |
| KvsSkipList.LevelSorted | projects/project1_kv/zzx_kvstore/kvs_skiptable.c:54-58 | Every level is strictly ascending |
| KvsSkipList.LevelSublist | projects/project1_kv/zzx_kvstore/kvs_skiptable.c:73-76 | Every level is a sub-list of the level below, for any heights |
| KvsSkipList.LevelPut | projects/project1_kv/zzx_kvstore/kvs_skiptable.c:73-76 | Putting a node into the list puts it into exactly the levels of its height |
| Lis.LengthQuadratic | study_notes/leecode/Hot87.cpp:19-34 | The longest strictly increasing subsequence of a non-empty input; 1 for an empty one |
| Lis.LengthPatience | study_notes/leecode/Hot87.cpp:40-51 | The longest strictly increasing subsequence of any input |
| Lis.Agree | study_notes/leecode/Hot87.cpp:17-52 | The patience version is the longest length for every input, the quadratic one for every non-empty input and 1 for the empty one; so they agree exactly on the non-empty inputs |
| Lis.PlaceLeast | study_notes/leecode/Hot87.cpp:43-48 | The piles stay strictly increasing and each top is the least last element of its length |
| Lis.PlaceReachable | study_notes/leecode/Hot87.cpp:43-48 | Each top ends an increasing subsequence of its length |
| Median.WalkMedian | study_notes/leecode/Hot68.cpp:24-98 | The median of the sorted union; 0 for two empty arrays |
| Median.CutMedian | study_notes/leecode/Hot68.cpp:112-152 | Always finds a good cut, with the second cut inside its array, so the last return is unreachable |
| Median.PartitionMedian | study_notes/leecode/Hot68.cpp:104-153 | The middle value, or half the 32-bit sum of the two middle values, of the sorted union |
| Median.CutValues | study_notes/leecode/Hot68.cpp:123-139 | At a good cut the greatest value on the left and the least on the right are the middle values of the sorted union |
| Median.PartitionExact | study_notes/leecode/Hot68.cpp:133-140 | That result is the median exactly when the sum of the two middle values fits in 32 bits |
| Median.SumOverflows | study_notes/leecode/Hot68.cpp:133-140 | Two elements for which it does not: the partition returns -1 where the median is the greatest int |
| Median.PartitionWraps | study_notes/leecode/Hot68.cpp:133-140 | When the two middle values do not fit, the partition is off the median by exactly 2^31 |
| Median.MedianIs | study_notes/leecode/Hot68.cpp:30-31 | The median of a union is the mean of two elements with equally many before the first as after the second, the same one exactly when their number is odd |
| Median.BothMedians | study_notes/leecode/Hot68.cpp:21-154 | The two versions agree exactly when the arrays are not both empty and that sum fits; the walk always returns the median |
| Median.UnionIsMerge | study_notes/leecode/Hot68.cpp:33-63 | The sorted union of two sorted arrays is their merge |
| Coroutines.Scheduler.AddToReady | 0voice/advanced/2.3自研协程框架/2.3.1 协程设计原理与汇编实现/2.3.1-coroutine/Final_hook_zzx_tcp.c:66-78 | Appends to the ready queue and keeps both lists well formed |
| Coroutines.Scheduler.PopReady | 0voice/advanced/2.3自研协程框架/2.3.1 协程设计原理与汇编实现/2.3.1-coroutine/Final_hook_zzx_tcp.c:80-92 | Takes the first of the ready queue, or null from an empty one |
| Coroutines.Scheduler.InsertWait | 0voice/advanced/2.3自研协程框架/2.3.1 协程设计原理与汇编实现/2.3.1-coroutine/Final_hook_zzx_tcp.c:102-114 | Puts the coroutine first on the wait list with state WAIT |
| Coroutines.Scheduler.RemoveWait | 0voice/advanced/2.3自研协程框架/2.3.1 协程设计原理与汇编实现/2.3.1-coroutine/Final_hook_zzx_tcp.c:116-121 | Removes exactly this coroutine from any position of the wait list |
| Coroutines.Scheduler.Wait | 0voice/advanced/2.3自研协程框架/2.3.1 协程设计原理与汇编实现/2.3.1-coroutine/Final_hook_zzx_tcp.c:129-140 | The running coroutine moves to the wait list and control returns |
| Coroutines.Scheduler.Spawn | 0voice/advanced/2.3自研协程框架/2.3.1 协程设计原理与汇编实现/2.3.1-coroutine/Final_hook_zzx_tcp.c:143-163 | A new coroutine joins the ready queue |
| Coroutines.Scheduler.Wake | 0voice/advanced/2.3自研协程框架/2.3.1 协程设计原理与汇编实现/2.3.1-coroutine/Final_hook_zzx_tcp.c:313-327 | The first coroutine waiting for the descriptor, if any, moves to the ready queue |
| Coroutines.Scheduler.Dispatch | 0voice/advanced/2.3自研协程框架/2.3.1 协程设计原理与汇编实现/2.3.1-coroutine/Final_hook_zzx_tcp.c:290-296 | The head of the ready queue runs: served in the order queued |
| Coroutines.Run | 0voice/advanced/2.3自研协程框架/2.3.1 协程设计原理与汇编实现/2.3.1-coroutine/Final_hook_zzx_tcp.c:287-330 | After any steps the scheduler on the heap, its two linked lists, the running coroutine and the descriptors waited for, is the state of the machine over creation numbers after these steps, and each live coroutine is in state WAIT exactly on the wait list |
| Coroutines.RunPlaces | 0voice/advanced/2.3自研协程框架/2.3.1 协程设计原理与汇编实现/2.3.1-coroutine/Final_hook_zzx_tcp.c:66-140 | After any steps of that machine each coroutine created is in exactly one of running, ready, waiting and returned, once, and what was queued is what was served followed by the ready queue |
| Coroutines.ServedInOrder | 0voice/advanced/2.3自研协程框架/2.3.1 协程设计原理与汇编实现/2.3.1-coroutine/Final_hook_zzx_tcp.c:66-92 | First in, first out: the ready queue at any point of a run is served next and in this order, whatever is created, woken or closed meanwhile |
| Coroutines.AfterDoes | 0voice/advanced/2.3自研协程框架/2.3.1 协程设计原理与汇编实现/2.3.1-coroutine/Final_hook_zzx_tcp.c:231-330 | What each step of that machine does: a close, and an event while nothing runs, makes the coroutine ready that blocked last on the descriptor and changes no other waiter, or nothing when none waits; a block puts the running one on top of the waiters for its descriptor; a turn runs the one ready longest |
| Coroutines.ClosesWake | 0voice/advanced/2.3自研协程框架/2.3.1 协程设计原理与汇编实现/2.3.1-coroutine/Final_hook_zzx_tcp.c:231-249 | Closing a descriptor k times makes the last k coroutines that blocked on it ready, the last one first |
| ThreadPool.StepKeeps | 0voice/Linux_base/并发下的技术方案/线程池/threadpool.c:61-89 | Every step of every worker, push and destroy keeps the invariant, and keeps every claimed task executed or in a worker's hand |
| ThreadPool.RunAccounts | 0voice/Linux_base/并发下的技术方案/线程池/threadpool.c:162-168 | In every run a pushed task is claimed at most once, nothing else is claimed, and until destroy resets the list pushed = queued + claimed |
| ThreadPool.RunExecutes | 0voice/Linux_base/并发下的技术方案/线程池/threadpool.c:78-85 | In every run each task is claimed as often as it was executed or is in a worker's hand; none is executed twice or without having been pushed; once all workers are done exactly the claimed tasks have been executed |
| ThreadPool.ClaimsNewest | 0voice/Linux_base/并发下的技术方案/线程池/threadpool.c:78-81 | In every run a worker that takes a task takes the one pushed last of those queued, and leaves the others |
| ThreadPool.RunNeverSleepsOnTasks | 0voice/Linux_base/并发下的技术方案/线程池/threadpool.c:67-71 | While the pool is in use queued tasks never meet a pool whose workers are all asleep, unless the push that queued the last one is about to signal |
| ThreadPool.AfterBroadcast | 0voice/Linux_base/并发下的技术方案/线程池/threadpool.c:140-153 | After destroy's broadcast no worker is blocked or blocks again and none takes a task, so the unlocked reset meets no worker; the workers have boundedly many steps left |
| ThreadPool.ResetAgainstPush | 0voice/Linux_base/并发下的技术方案/线程池/threadpool.c:150-168 | Against a push in progress the reset is lost, the dropped tasks being back in the list, exactly when the push has read the list and not yet stored its new head |
| ThreadPool.ResetIsLost | 0voice/Linux_base/并发下的技术方案/线程池/threadpool.c:140-168 | A run from creation that ends so: destroy has finished, and a task queued before it and one pushed into the reset are both in the list |
| ThreadPool.SomeoneCanMove | 0voice/Linux_base/并发下的技术方案/线程池/threadpool.c:140-153 | Until all workers are done one of them can move, or destroy or a push that holds the lock can |
| ThreadPool.StuckIsDone | 0voice/Linux_base/并发下的技术方案/线程池/threadpool.c:61-89 | When nothing can move after the broadcast, all workers are done and every claimed task has been executed |
| ThreadPool.CreateInv | 0voice/Linux_base/并发下的技术方案/线程池/threadpool.c:100-130 | The invariant holds after creation |
| WordTrie.MachineFindsWords | 0voice/Linux_base/统计文件单词数量（文件操作）/homework_count_perword.c:43-142 | The four-state machine finds exactly the words of the text, in order: letters, with a hyphen kept inside a line and dropped across a newline |
| WordTrie.Trie.CountWord | 0voice/Linux_base/统计文件单词数量（文件操作）/homework_count_perword.c:31-145 | Every node counts its word's occurrences in the text, and word_num is the number of words |
| WordTrie.Trie.Read | 0voice/Linux_base/统计文件单词数量（文件操作）/homework_count_perword.c:45-138 | One character: at every point word_num is the number of completed words, plus one exactly when a word is open |
| WordTrie.Trie.Child | 0voice/Linux_base/统计文件单词数量（文件操作）/homework_count_perword.c:66-70 | The child for a letter is found or made, and every other node is unchanged |
| WordTrie.Trie.Traverse | 0voice/Linux_base/统计文件单词数量（文件操作）/homework_count_perword.c:164-194 | Lists exactly the counted words at or below a node, each once with its count, as text, shorter before longer and letters in order before the hyphen |
| WordTrie.Trie.PrintResult | 0voice/Linux_base/统计文件单词数量（文件操作）/homework_count_perword.c:150-162 | Lists exactly the counted words, each once, in that order |
| WordTrie.Trie.Report | 0voice/Linux_base/统计文件单词数量（文件操作）/homework_count_perword.c:196-216 | Reading and printing: the lines are exactly the words of the text as strings of small letters and hyphens, each once, in order, with the number of its occurrences, and the counts add up to word_num |
| WordTrie.WordsAreTextWords | 0voice/Linux_base/统计文件单词数量（文件操作）/homework_count_perword.c:43-142 | The words read, printed letter by letter, are the words of the text as strings: hyphens and line ends between letters taken out, cut at everything but letters and hyphens between letters, in small letters |
| WordTrie.LetterOfCode | 0voice/Linux_base/统计文件单词数量（文件操作）/homework_count_perword.c:182-190 | What is printed for a letter read is its small letter, by its place in the alphabet |
| WordText.TextWordsShaped | 0voice/Linux_base/统计文件单词数量（文件操作）/homework_count_perword.c:43-142 | Each of those strings consists of small letters with single hyphens between them |
| WordTrie.SumCovers | 0voice/Linux_base/统计文件单词数量（文件操作）/homework_count_perword.c:141-144 | The counts of distinct words that cover all words add up to the number of words |

## Left out

- KCP compiled with IKCP_FASTACK_CONSERVE; logging, allocator hooks, malloc failure, the effect of the output callback, real clocks, and liveness or timing under loss.
- `ikcp_setmtu`, `ikcp_wndsize`, `ikcp_nodelay`, `ikcp_interval` during a run: configuration is fixed at creation to any value these calls can leave, and `ikcp_release` and `ikcp_waitsnd` are not modelled.
- KCP pointer cases: a null buffer in `ikcp_recv` and `ikcp_send`, a null `data` in `ikcp_input`, a negative length in `ikcp_send`; the growth of the acklist array is a sequence.
- Kcp.Endpoint.Send: its four queues are sequences inside the control block, and the struct's fields are grouped into records; the links themselves are modelled separately in KcpQueue, so node identity across the four queues of one endpoint is not captured.
- KcpRtt.FollowsRfc6298: does not model signed overflow of the smoothed round trip, which C leaves undefined.
- KcpWrap.MachineEndToEnd: requires every delivered packet to be clear, because without it the property is false of the code (KcpOverrun.StaleBreaksOrder); the condition on each number by itself is exact (KcpStale.UnaExact, KcpStale.AckExact, KcpStale.MaxExact, KcpStale.PushExact), which leaves out that two misread numbers of one packet may cancel.
- KcpResend.NothingDueAfterFlush: says nothing of timeouts from 2^30 on, which doubling reaches after more than 15 resends and where the 32-bit sums wrap around.
- KcpCongestion.RunKeepsCwnd: requires mss times (65536 + fastresend + 4) below 2^32, so that the products in the window arithmetic do not wrap.
- KcpQueue.MoveFirst: moves the node only; splicing whole queues (`iqueue_splice`) is not modelled.
- The KCP C++ session, server and client wrappers and the echo test.
- Allocation failure in the key-value store (returns -2, -3 and -4 that only malloc can cause), null arguments, `kvs_rbtree_destory`, `rbtree_traversal`, `rbtree_maxi`, and freeing of removed nodes.
- KvsHash.HashTable.constructor: starts from empty buckets, because kvs_hash_create does not clear them.
- KvsHash.HashTable.Hash: does not model overflow of the 32-bit sum, which needs keys of more than sixteen million characters.
- KvsHash.HashTable.Del: requires a non-negative index, because the code reads outside its table otherwise.
- KvsStore.Store.Filter: does not serve the five commands of the array engine, whose `total` is neither a count nor a high-water mark over a table that is never zeroed; splitting a line into tokens, and sockets, are not modelled either.
- KvsSkipList.SkipList.Insert: the height is an argument, any value randomLevel can return; `display` is not modelled.
- NtySplay.SplayTree.Splay: keys are integers compared by value in place of the macro's comparison function; SPLAY_MINMAX, SPLAY_NEXT and the red-black macros with null leaves of the same header are not modelled.
- Coroutines.Run: contexts, stacks and epoll registration are not modelled, so a descriptor with several waiters wakes one of them per event; `remove_from_ready` is never called and is left out; a returned coroutine leaves the live set and is not freed.
- ThreadPool.RunAccounts: waiting for the lock is not a state of a push, which begins when it has the lock; the back links of the task list, and freeing of worker structs while destroy may still walk the list, are not modelled.
- WordTrie.Trie.CountWord: `temp_node` starts as null, because the code leaves it uninitialised; opening the file is not modelled.
- WordTrie.Trie.Report: requires words shorter than 1024 characters, the size of the code's print buffer.
- Lis.LengthPatience: `lower_bound` of the standard library is its contract.
- Median.WalkMedian: computes in real numbers.
- Median.PartitionMedian: the sum of the two middle values wraps around, where C leaves signed overflow undefined.
- Other files of the collection: N-Queens, largest rectangle, quickselect, jump count, decodeString, two-heap median, daily temperatures, partition labels and the other exercises would add easier members; NtyCo's scheduler, nepoll, WebSocket and DNS codecs, servers, databases and the DPDK packet loops are not modelled.
