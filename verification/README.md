# Verified models of xl2tpd and rp-pppoe

This project models the parts of two protocol stacks that carry state from one
packet to the next, and proves what they keep:

- **xl2tpd** (L2TP, RFC 2661): the reliable control channel, tunnel set-up and
  tear-down, AVP building, hiding and walking, the streaming MD5 that hiding uses,
  the address pool and the timer queue.
- **rp-pppoe** (PPPoE, RFC 2516): the relay with its linked session table and its
  Relay-Session-Id tag, the asynchronous framing and its check sequence, MSS clamping,
  the session slots of the server and the re-entrant event selector.

Code that works by assignment is modelled by classes and loops, and each method is
proved against a function of the old state; the theorems are lemmas about these
functions and about runs of them. A run is `Exec(state, actions)` over a finite list of
actions, so "every run" means every list, and an action that is not possible in a state
changes nothing.

To check the project, run `dafny verify dfyconfig.toml` with Dafny 4.11.

## Files

| file | subject |
|---|---|
| `Octets.dfy` | octets, 16- and 32-bit numbers, MAC addresses |
| `ControlTunnel.dfy`, `ControlChannel.dfy` | numbering and acceptance on one tunnel; two peers over a network that loses, duplicates and reorders |
| `ControlLiveness.dfy` | old messages are answered, and the answer ends their retransmission |
| `TunnelLifetime.dfy`, `TunnelDaemon.dfy` | retransmission, backoff, closing and destruction; the same on the event list in place |
| `TunnelEvents.dfy` | what each timer and pass does to a tunnel's events; the Hello and a silent peer |
| `TunnelSetup.dfy`, `TunnelStop.dfy` | the tunnel handshake between an initiator and a responder over the control channel; how it is refused and how a StopCCN ends it |
| `LinkedLists.dfy` | intrusive lists threaded through arrays |
| `RelayTable.dfy`, `RelayOrder.dfy`, `RelayHeap.dfy` | the relay's linked tables, the order within a hash bucket, the same in arrays, all refining a plain table |
| `RelaySessions.dfy` | keys and relaying over runs of table operations |
| `PppoeTags.dfy`, `RelayDiscovery.dfy` | tags in a packet, the discovery exchange |
| `RelayFrames.dfy`, `RelayAgent.dfy` | runs of received frames; the packet handlers in place |
| `RelayPackets.dfy` | discovery packets tag by tag and byte by byte, by their codes |
| `RelayLiveness.dfy` | how long a relayed session lives |
| `Md5.dfy` | MD5 in pieces |
| `AvpHiding.dfy`, `AvpBuffer.dfy` | hiding and unhiding of AVPs, as functions and in place |
| `AvpCipher.dfy` | a hidden AVP on the wire, digit by digit and segment by segment |
| `AvpWalk.dfy`, `AvpBounds.dfy`, `AvpReader.dfy` | the AVP walk, when it leaves the packet, the walk in place |
| `AvpMessage.dfy`, `AvpSend.dfy` | whole message bodies, the builders |
| `AvpDelivery.dfy` | what handlers and an observer in their place are given, and what refuses a message |
| `Fcs.dfy`, `AsyncFraming.dfy`, `AsyncPppoe.dfy` | the frame check sequence, byte stuffing, encoder and decoder in place |
| `SyncAsync.dfy` | xl2tpd's own conversion between tunnel packets and asynchronous frames |
| `FrameBytes.dfy` | the bytes of both stuffings on the wire, the check value of the check sequence |
| `ServerSessions.dfy`, `ServerPool.dfy` | session slots of the PPPoE server, and their linked lists |
| `ServerGrants.dfy` | which requests are granted a slot, and how it is given up |
| `EventSelector.dfy`, `EventDispatch.dfy` | the event selector as a step machine, and in place |
| `EventTurns.dfy` | whose turn comes in a pass, and who is called |
| `TcpClamp.dfy`, `TcpReference.dfy` | TCP checksum and MSS clamping; the checksum and the SYN test in the network's terms |
| `AddrPool.dfy`, `AddrLeases.dfy` | address ranges and the table of addresses in use; which address a call gets |
| `Scheduler.dfy`, `SchedulerRuns.dfy` | the timer queue; every event that is due runs |

## Assumptions

- Byte order is little-endian where the code depends on it (checksum words, MD5, the
  interface index in the relay tag). Addresses of the pool are numbers in host order:
  `htonl` and `ntohl` cancel.
- Pointers into arrays allocated once are indices, with -1 for NULL; records are kept as
  parallel arrays of links and data.
- The second disjunct of the old-packet test (xl2tpd/control.c:1213) is `int` arithmetic and
  never holds, and the comparison with `cLr` (xl2tpd/network.c:225) is not modular. The channel
  is safe for fewer than 65536 numbered messages each way, and `BoundIsSharp` gives a run with
  65536 in which it is not. A message is answered as old only if its number was passed fewer than
  32768 numbers ago (`ControlLiveness.AgainExactly`). The comparison with `cLr` can also toss the StopCCN of a closing tunnel unsent:
  `StopQueuedIff` says exactly when, `WrappedTunnelStays` what follows.
- Control packets go through `handle_packet`; `handle_special` does not take the receive count
  back for a ZLB (xl2tpd/control.c:1750-1759) and is not part of the model. Packets shorter than
  a control header are not modelled.
- Timers are prompt: the clock never passes the time of a queued event. Redialling is off.
- Every Message Type AVP carries the M bit, as `add_message_type_avp` writes it.
- In the handshake a message is its type and its assigned tunnel id; `Verdict` stands for
  authorization, challenges, tunnel lookup, the StopCCN result code and the peer that puts the
  receiver's tunnel id into its StopCCN.
- Two ends of relayed sessions can come to share a key, and then answers are misdirected.
  `RelaySessions.Harmless` is the exact condition on each creation, `InvolutiveExactly` says so for
  runs; clients and access concentrators with different MACs satisfy it always. The packet handlers
  assume none of this: with a shared key the look-up takes the newest session, as the bucket does.
- A concentrator that reuses the number of a session still held for another client leaves the
  new client bound to nothing; `RelayDiscovery.Confirmed` says exactly when.
- `Epoch` does not change during a cleaning pass. A received frame has a valid version, type and
  length field.
- The block function of MD5 and the bucket function of the relay table are parameters
  (`RELAY_BUCKETING` is the relay's own).
- `encrypt_avp` finds the plain AVP two bytes above the place of the hidden one, and a hidden
  AVP has fewer than 4096 bytes; the walker reads lengths up to 1023.
- `handle_avps` swaps six header bytes without looking whether six are left; in a buffer that the
  packet fills this can write behind it. The walk then ends in `Overrun`; `AvpBounds` says exactly
  when, and that the builders' messages never get there.
- `clampMSS` stops at the first MSS option, or at one of the wrong length: options behind it stay
  as they are (`TcpClamp.AllClampedExactly`, `SecondStays`, `BogusHides`). The buffer it is given
  has room for the largest headers.
- The relay does not compare the interface a session frame comes in on with the one recorded for
  its sender; the answer leaves through the recorded one (`RelayFrames.AnswerLeavesWhereRecorded`).
- Times in the event selector are single numbers; the comparison of its `timeval`s is
  lexicographic on normalized values.

## Model

| member | source | states |
|---|---|---|
| ControlTunnel.HandleControl | xl2tpd/control.c:1777-1817 | a ZLB leaves both counters where they were if and only if it does not have the right length and number together with a version word that is checked and bad |
| ControlTunnel.BadVersionZlbCounts | xl2tpd/control.c:1245-1303 | such a ZLB takes a number, and the next message with that number is refused as old |
| ControlTunnel.Tunnel.AddControlHdr | xl2tpd/control.c:106-120 | the header carries the two counters as they were; the send counter advances by one modulo 65536 |
| ControlTunnel.Tunnel.ControlZlb | xl2tpd/control.c:149-159 | a ZLB carries the current counters and leaves the tunnel as it was |
| ControlTunnel.Tunnel.CheckControlPacket | xl2tpd/control.c:1169-1307 | the verdict, the new counters and flags, and the ZLB sent for an old packet |
| ControlTunnel.Tunnel.HandleControlPacket | xl2tpd/control.c:1777-1817 | acceptance followed by the ZLB's retraction of the receive count and the closing test |
| ControlChannel.ReceiveKeeps | xl2tpd/control.c:1205-1254 | taking in any packet of the wire keeps the channel invariant of both directions |
| ControlChannel.RunKeeps | xl2tpd/network.c:221-234 | the channel invariant holds after every bounded run |
| ControlChannel.ChannelSafety | xl2tpd/control.c:1205-1254 | in every run with fewer than 65536 messages each way each end has accepted a prefix of what the other numbered, and every buffer dropped as acknowledged was accepted by the other end |
| ControlChannel.AllAckedMeansAllDelivered | xl2tpd/network.c:221-234 | when every number was dropped as acknowledged, the peer accepted exactly everything |
| ControlChannel.ZlbsNeverCount | xl2tpd/control.c:1787-1808 | a ZLB arriving in any reachable state moves no counter and is not accepted as a message |
| ControlChannel.BoundIsSharp | xl2tpd/control.c:1205-1215 | a run with 65536 messages in which the first one is accepted twice |
| ControlLiveness.OutOfTurnExactly | xl2tpd/control.c:1205-1243 | for any channel a packet out of turn moves no counter, and is answered by exactly one ZLB with the current counters if and only if it is a message whose number was passed fewer than 32768 numbers ago |
| ControlLiveness.AgainExactly | xl2tpd/control.c:1217-1233 | in every bounded run, delivering a message again that was accepted puts a ZLB with the current counts on the wire, changing no count, if and only if it was accepted fewer than 32768 messages ago |
| ControlLiveness.ZlbEndsRetransmission | xl2tpd/network.c:221-234 | a peer that has taken in everything takes in that ZLB, and the buffer it covers is dropped as acknowledged when its timer runs |
| ControlLiveness.LostAckIsMadeGood | xl2tpd/control.c:1217-1233 | in every such run a lost acknowledgement is made good: delivered again, answered, and retransmission ends |
| ControlLiveness.AcceptedIsAcknowledged | xl2tpd/network.c:665-675 | a message accepted in turn is acknowledged by the ZLB of the next pass of the loop, which ends its retransmission |
| TunnelLifetime.BackoffIsPow2Minus1 | xl2tpd/network.c:265-275 | the first k delays add up to 2^k - 1 seconds for k up to 32 |
| TunnelLifetime.BackoffOverRuns | xl2tpd/network.c:199-282 | in every run no buffer is sent more than max_retries times, and every transmission and expiry lies on the backoff curve |
| TunnelLifetime.CloseSendsStop | xl2tpd/call.c:219-324 | closing leaves one StopCCN of the tunnel in the queue, no call, and other tunnels' events untouched |
| TunnelLifetime.FirstExpirySendsStop | xl2tpd/network.c:235-260 | the first expiry sends StopCCN and removes every other pending packet, Hello and call of the tunnel |
| TunnelLifetime.SecondExpiryDestroys | xl2tpd/call.c:265-275 | an expiry on a tunnel already asked to close destroys it and all its events, and no other's |
| TunnelLifetime.SilentPeerDeadline | xl2tpd/network.c:199-282 | once two full backoffs have gone by after the first transmission of an unacknowledged packet, the tunnel no longer exists, whatever the daemon did meanwhile, unless closing the tunnel tossed the StopCCN |
| TunnelLifetime.DeadlineExactly | xl2tpd/network.c:199-282 | while only timers run, that deadline is met if and only if no step closed the tunnel with its send number below cLr |
| TunnelLifetime.WrapExample | xl2tpd/network.c:221-234 | a concrete world, number 65535 sent and waiting and the tunnel to be closed, in which the deadline is missed for ever |
| TunnelLifetime.StopQueuedIff | xl2tpd/network.c:221-234 | closing queues a StopCCN if and only if its number is not below cLr |
| TunnelLifetime.WrappedTunnelStays | xl2tpd/network.c:221-234 | if the number has wrapped below cLr the closing tunnel survives every run of timers and closing passes |
| TunnelEvents.CloseClears | xl2tpd/call.c:226-275 | closing takes every transmission and Hello of the tunnel out of the queue and nothing of any other; at most one StopCCN comes in; a closing tunnel is gone |
| TunnelEvents.ClosePassExactly | xl2tpd/network.c:420-433 | the pass closes a tunnel asked to close, destroys one its peer has closed, and leaves every other alone |
| TunnelEvents.TimerExactly | xl2tpd/network.c:221-282 | an acknowledged buffer is dropped; one with retries left is sent again and comes up after twice the time, at most 2^31 seconds |
| TunnelEvents.XmitExactly | xl2tpd/network.c:221-275 | a buffer sent k times is dropped, given up after max_retries, or sent again after the next of the doubling delays |
| TunnelEvents.ExpiryWhileClosing | xl2tpd/network.c:235-260 | the last retry of a tunnel that is closing destroys it with all its events, whoever closed it |
| TunnelEvents.LocalMessageWaits | xl2tpd/control.c:106-120 | a message takes the next number and waits one second for its acknowledgement |
| TunnelEvents.HelloExactly | xl2tpd/control.c:122-147 | a Hello that comes due is sent like any message, and the next one is due 60 seconds later |
| TunnelEvents.HelloNoticesSilence | xl2tpd/control.c:122-147 | in every run, a tunnel with a Hello in the queue whose peer is silent is gone two full backoffs after the Hello was due, even if nothing was waiting, unless its StopCCN or the Hello was tossed |
| TunnelDaemon.Daemon.Schedule | xl2tpd/scheduler.c:81-122 | the event is linked behind all that are not later |
| TunnelDaemon.Daemon.SendPacket | xl2tpd/control.c:106-120 | number taken, buffer armed for one second or tossed |
| TunnelDaemon.Daemon.DescheduleTunnel | xl2tpd/call.c:226-263 | exactly the tunnel's events leave the list that is being walked |
| TunnelDaemon.Daemon.CallClose | xl2tpd/call.c:208-324 | first close: StopCCN, calls closed, closing set; second: the tunnel is destroyed |
| TunnelDaemon.Daemon.ControlXmit | xl2tpd/network.c:199-282 | toss, give up and close, or send again with doubled delay |
| TunnelDaemon.SameInsert | xl2tpd/scheduler.c:81-122 | insertion by whole seconds is insertion into the timer queue of `Scheduler` |
| TunnelDaemon.SameWithout | xl2tpd/call.c:226-263 | taking a tunnel's events out is descheduling each of them from that queue |
| TunnelSetup.TunnelRecord.Receive | xl2tpd/control.c:219-679 | state, tunnel ids, flags and replies after each message, including refusal, duplicate tunnel, a challenge that fails after the state has moved on, and a StopCCN without result code |
| TunnelSetup.HandshakeAgreement | xl2tpd/control.c:219-679 | in every run a connected responder has a connected initiator, and connected ends know each other's tunnel id |
| TunnelSetup.StatesNeverGoBack | xl2tpd/avp.c:182-218 | no tunnel state is taken back over a whole run |
| TunnelSetup.StepGoesForward | xl2tpd/avp.c:1771-1790 | no single step takes a tunnel state back |
| TunnelSetup.HandshakeCanComplete | xl2tpd/control.c:219-293 | for any two non-zero ids some run connects both ends, and neither is asked to close |
| TunnelStop.StopExactly | xl2tpd/control.c:680-720 | a StopCCN answers nothing and keeps the state; the tunnel is then closed by its peer if and only if it names the expected id, or none is known, and has a result code |
| TunnelStop.RequestExactly | xl2tpd/control.c:377-522 | what a request does to any tunnel: refused with needclose, closed as a duplicate, or answered |
| TunnelStop.ReplyExactly | xl2tpd/control.c:523-645 | a reply connects a tunnel that has sent a request and is answered; any other tunnel is to be closed |
| TunnelStop.ConnectedExactly | xl2tpd/control.c:646-679 | the last message connects a replier; any other tunnel is to be closed |
| TunnelStop.StopClosesTheOther | xl2tpd/control.c:680-720 | in every run an end that knows its peer and takes in the peer's StopCCN with a result code has closing set and needclose clear, keeps state and id, and answers nothing |
| TunnelStop.StopArrives | xl2tpd/control.c:680-720 | in every run with a connected initiator that has taken in everything, the responder's StopCCN is on the wire when sent and closes the initiator when taken in |
| RelayTable.AddHashKeeps | rp-pppoe/src/relay.c:619-628 | linking an entry into its bucket keeps all chains and the free list well formed |
| RelayTable.UnhashKeeps | rp-pppoe/src/relay.c:591-607 | unlinking an entry and freeing it keeps all chains and the free list well formed |
| RelayTable.CreateKeeps | rp-pppoe/src/relay.c:462-531 | creation keeps the whole heap well formed and fills the two entries and the session that were free |
| RelayTable.FreeKeeps | rp-pppoe/src/relay.c:545-578 | freeing keeps the whole heap well formed and takes exactly that session off the active list |
| RelayTable.CreateRefines | rp-pppoe/src/relay.c:462-531 | on the abstract table creation puts one session, in the next free slot, in front |
| RelayTable.FreeRefines | rp-pppoe/src/relay.c:545-578 | on the abstract table freeing removes one session and makes its slot the next to be used |
| RelayTable.ChainHoldsKey | rp-pppoe/src/relay.c:664-675 | a key met in its bucket belongs to an active session |
| RelayTable.KeyIsInChain | rp-pppoe/src/relay.c:664-675 | both keys of every active session are in their buckets |
| RelayTable.PeerOf | rp-pppoe/src/relay.c:898-922 | the peer pointer leads to the other end of the same session |
| RelayOrder.CreateNewest | rp-pppoe/src/relay.c:513-514 | creation keeps every bucket in the order of the active sessions, of each session the client's entry first |
| RelayOrder.FreeNewest | rp-pppoe/src/relay.c:591-607 | so does freeing |
| RelayOrder.FoundAgrees | rp-pppoe/src/relay.c:664-675 | the first match in the bucket is the entry of the newest active session with that key, whether keys are unique or not; none if and only if there is none |
| RelayHeap.FreshIsOk | rp-pppoe/src/relay.c:396-446 | the arrays as set up are a well-formed empty table |
| RelayHeap.CleaningIsExact | rp-pppoe/src/relay.c:1528-1548 | a cleaning pass removes exactly the sessions idle for longer than the timeout, modulo 2^32, and keeps the others in order |
| RelayHeap.Relay.constructor | rp-pppoe/src/relay.c:396-446 | sessions and hash entries linked in array order, numbered from 1 |
| RelayHeap.Relay.CreateSession | rp-pppoe/src/relay.c:462-531 | opens the session in place, or nothing when no slot is left |
| RelayHeap.Relay.FreeSession | rp-pppoe/src/relay.c:545-578 | closes the session in place |
| RelayHeap.Relay.FindSession | rp-pppoe/src/relay.c:664-675 | the loop over the bucket returns the entry of the newest active session with that key, or nothing if and only if none has it |
| RelayHeap.Relay.CleanSessions | rp-pppoe/src/relay.c:1528-1548 | the pass over the list it shortens equals the abstract pass, and both ends of each freed session are told |
| RelaySessions.NumbersAreDistinct | rp-pppoe/src/relay.c:430-433 | in every run, whoever takes part, the slots stay partitioned and client-visible numbers are distinct and not zero |
| RelaySessions.OpenUniqueExactly | rp-pppoe/src/relay.c:491-514 | a creation keeps keys unique if and only if the client's new key is no key of the table and not the concentrator's |
| RelaySessions.UniqueExactly | rp-pppoe/src/relay.c:462-531 | keys are unique throughout a run if and only if every creation in it was harmless in that sense |
| RelaySessions.HarmMisdirects | rp-pppoe/src/relay.c:491-514 | a creation that is not harmless misdirects the answers of some endpoint at once |
| RelaySessions.InvolutiveExactly | rp-pppoe/src/relay.c:898-922 | relaying is an involution throughout a run if and only if every creation in it was harmless |
| RelaySessions.KeysAreUnique | rp-pppoe/src/relay.c:430-433 | in every run with disjoint MACs no two endpoints share a key, and client-visible numbers are distinct and not zero |
| RelaySessions.ForwardingIsAnInvolution | rp-pppoe/src/relay.c:898-922 | in every run with disjoint MACs a frame's answer is addressed to the MAC and number the frame came from, within one session, and leaves through the interface recorded for them |
| RelaySessions.SharedMacBreaksIt | rp-pppoe/src/relay.c:491-514 | with a station that is both client and concentrator an answer can reach a third station |
| RelayFrames.InputIsOp | rp-pppoe/src/relay.c:827-848 | every received frame, and every cleaning pass, is one operation on the table or none |
| RelayFrames.InputKeepsIfaces | rp-pppoe/src/relay.c:1383-1390 | no received frame records an interface that is not configured |
| RelayFrames.EveryRunKeeps | rp-pppoe/src/relay.c:734-791 | after any received frames the slots are partitioned, numbers distinct and not zero, and all interfaces configured |
| RelayFrames.ApartRunKeeps | rp-pppoe/src/relay.c:734-791 | if every PADS comes from a concentrator and names a client that is none, keys are unique and relaying is an involution after any received frames |
| RelayFrames.FramesInvolutiveExactly | rp-pppoe/src/relay.c:734-791 | with no such assumption relaying is an involution throughout if and only if every PADS that opened a session was harmless |
| RelayFrames.AnswerReachesSender | rp-pppoe/src/relay.c:859-923 | what the receiver of a relayed session frame sends back is addressed to the first sender's MAC, under the sender's own number |
| RelayFrames.AnswerLeavesWhereRecorded | rp-pppoe/src/relay.c:859-923 | the answer leaves through the interface recorded for the sender, which is the frame's own if and only if the frame came in there |
| RelayFrames.AnswerGoesElsewhere | rp-pppoe/src/relay.c:859-923 | a reachable table and a frame that comes in on another interface: it is relayed, and the answer leaves elsewhere |
| RelayFrames.AnswerReachesSenderInPlace | rp-pppoe/src/relay.c:734-791 | after any received frames, if stations stay behind their interfaces and concentrators are no clients, every answer goes back to MAC, number and interface of the sender |
| RelayLiveness.InputEndsExactly | rp-pppoe/src/relay.c:906-962 | what an input does to one session: it ends it, or leaves it there, with the input's time if it is a session frame of one of its ends |
| RelayLiveness.SessionLivesExactly | rp-pppoe/src/relay.c:1528-1548 | over every run both ends of a session are relayed to each other until the first PADT of one of them or the first cleaning pass more than the timeout after its last frame, modulo 2^32, and neither is from then on |
| RelayLiveness.ActivityKeepsAlive | rp-pppoe/src/relay.c:906-908 | in any table, the sender of a relayed frame is relayed to the same place after a cleaning pass within the timeout |
| RelayLiveness.OnlyAddressesChange | rp-pppoe/src/relay.c:906-922 | of a relayed frame only the addresses and the session number are new |
| RelayLiveness.PadtEndsBoth | rp-pppoe/src/relay.c:936-962 | a PADT of one end is passed on to the other under its own number, and neither end is relayed afterwards |
| RelayLiveness.NoticesAreTheEnds | rp-pppoe/src/relay.c:1528-1548 | a cleaning pass tells the two ends of the idle sessions and nobody else |
| RelayLiveness.OpenedIsEntered | rp-pppoe/src/relay.c:1391-1408 | a confirmation that opens a session enters it with its time, in the next slot, between the two stations it is about |
| RelayAgent.Agent.Start | rp-pppoe/src/relay.c:396-446 | the relay starts with an empty table, hashed by its own bucket function, ready for any frame |
| RelayAgent.Agent.constructor | rp-pppoe/src/relay.c:396-446 | an agent on an empty table is ready for any frame |
| RelayAgent.Agent.GotDiscoveryPacket | rp-pppoe/src/relay.c:827-848 | each code goes to its handler, and the agent is ready for the next frame |
| RelayAgent.Agent.CleanIdle | rp-pppoe/src/relay.c:781-788 | the cleaning pass, after which the agent is ready for the next frame |
| RelayAgent.Agent.GotSessionPacket | rp-pppoe/src/relay.c:859-923 | a session frame is passed on with the other end's address and number, or dropped; activity is recorded |
| RelayAgent.Agent.HandlePADT | rp-pppoe/src/relay.c:936-962 | the session is freed and the other end told |
| RelayAgent.Agent.HandlePADI | rp-pppoe/src/relay.c:975-1056 | which interfaces a PADI is flooded to, with the relay tag in front |
| RelayAgent.Agent.HandleTurn | rp-pppoe/src/relay.c:1069-1288 | where a PADO or PADR goes, with the tag turned round in place |
| RelayAgent.Agent.HandlePADS | rp-pppoe/src/relay.c:1301-1444 | the session found or opened, the tag removed, the number replaced, or the two error frames |
| RelayAgent.Agent.RefuseSession | rp-pppoe/src/relay.c:1462-1493 | the error frames for client and concentrator when no slot is left |
| PppoeTags.FindAfterRewrite | rp-pppoe/src/relay.c:1142-1171 | rewriting a tag's value does not change where tags are found |
| PppoeTags.FindAfterRemoval | rp-pppoe/src/relay.c:161-178 | after a tag is cut out the search finds what it would have found behind it |
| RelayPackets.EveryPayload | rp-pppoe/src/common.c:109-152 | every payload is a list of tags followed by something that ends it |
| RelayPackets.FindsFirst | rp-pppoe/src/common.c:109-152 | the search finds the first tag of a type, wherever it stands, and its data |
| PppoeTags.PacketBuffer.InsertBytes | rp-pppoe/src/relay.c:127-146 | the bytes are inserted or the packet is left alone |
| PppoeTags.PacketBuffer.RemoveBytes | rp-pppoe/src/relay.c:161-178 | the bytes are removed or the packet is left alone |
| PppoeTags.PacketBuffer.FindTagIn | rp-pppoe/src/common.c:109-152 | the first tag of the type before anything malformed, or none |
| RelayDiscovery.PadiNamesTheClient | rp-pppoe/src/relay.c:1027-1054 | every copy of a PADI goes to another interface that may have a concentrator and names its client; the rest of the packet is unchanged |
| RelayPackets.PadiExactly | rp-pppoe/src/relay.c:975-1056 | a PADI goes to every other interface that may have a concentrator, once, and to no other, with the bytes of the tag in front, if and only if it comes from a client, by broadcast, untagged and with room |
| RelayPackets.TurnExactly | rp-pppoe/src/relay.c:1069-1288 | byte for byte what a PADO or PADR becomes and where it goes, and that it goes nowhere unless tag, addresses and permissions are right |
| RelayPackets.PadsExactly | rp-pppoe/src/relay.c:1301-1444 | byte for byte what a PADS becomes, under which number, and what it does to the table |
| RelayPackets.RefusalExactly | rp-pppoe/src/relay.c:1408-1425 | without a slot the client is sent an error under number 0 with its Host-Uniq tag and the concentrator a PADT, byte for byte |
| RelayPackets.UntaggedIsDropped | rp-pppoe/src/relay.c:1113-1126 | without a relay tag an offer, request or confirmation goes nowhere |
| RelayDiscovery.TurnFindsTheWay | rp-pppoe/src/relay.c:1142-1171 | an echoed tag sends the reply to exactly the station it names, and then names the station the reply came from |
| RelayDiscovery.TurnedKeepsLayout | rp-pppoe/src/relay.c:1258-1287 | turning changes only the ten bytes of the tag's value |
| RelayDiscovery.StrippedHasNoTag | rp-pppoe/src/relay.c:1374-1443 | after a PADS no relay tag is left if and only if there was no second one |
| RelayDiscovery.SecondTagStays | rp-pppoe/src/relay.c:1374-1443 | a packet with two relay tags keeps the second |
| RelayDiscovery.DiscoveryRoundTrip | rp-pppoe/src/relay.c:975-1444 | from PADI to PADS each reply reaches the station it answers; the PADS is passed on, refused or answered by a session's number, and binds that client to that concentrator's session if and only if the key was not in use or the session was already the client's |
| RelayDiscovery.PadsConfirms | rp-pppoe/src/relay.c:1301-1444 | the same for every PADS whose tag names a client, whatever went before |
| RelayDiscovery.BoundIsConnected | rp-pppoe/src/relay.c:898-922 | with unique keys a bound client is reached by the concentrator's frames, and can use the number it was given if and only if the session is held for its MAC |
| RelayDiscovery.DuplicateConfirmation | rp-pppoe/src/relay.c:1394-1430 | a PADS whose key is held opens nothing and hands out that session's number, which its client can use if and only if the session is its own |
| RelayDiscovery.ReusedNumberMisbinds | rp-pppoe/src/relay.c:1394-1430 | a reachable table in which a client is given the number of another client's session |
| Md5.CounterAdds | xl2tpd/md5.c:82-88 | the two-word bit counter counts modulo 2^64, carry and all |
| Md5.PadLayout | xl2tpd/md5.c:129-170 | the padded message is whole blocks followed by one block, or two when the length does not fit |
| Md5.LittleEndianSplit | xl2tpd/md5.c:157-160 | the two counter words stored one after the other are the 64-bit length |
| Md5.Context.Update | xl2tpd/md5.c:77-123 | the piece is appended to the message, whatever is already buffered |
| Md5.Context.Final | xl2tpd/md5.c:129-170 | the digest of everything appended so far |
| Md5.DigestInPieces | xl2tpd/md5.c:62-170 | for every way of cutting a message the digest is the one-shot digest of the whole |
| Md5.InitBytes | xl2tpd/md5.c:62-71 | the initial registers as bytes, 01 23 45 67 and so on up to 76 54 32 10 |
| Md5.PaddingBytes | xl2tpd/md5.c:129-170 | what is digested: the message, 0x80, zeros and the bit length modulo 2^64, in as few blocks as hold it |
| Md5.DigestBlocks | xl2tpd/md5.c:92-122 | the digest is the block function run over the padded message from the first block on |
| AvpHiding.UnmaskInverts | xl2tpd/aaa.c:405-431 | unmasking undoes masking through any number of chained segments |
| AvpHiding.HiddenLengthFits | xl2tpd/aaa.c:380-383 | the hidden form holds the length word and the value and fills whole segments |
| AvpHiding.UnhidingRestores | xl2tpd/aaa.c:363-511 | hiding in place and unhiding restores flags, vendor, attribute, length and value for every value that fits |
| AvpCipher.XorAddsDigits | xl2tpd/aaa.c:416 | each of the eight binary digits of the exclusive or is the sum of the two digits modulo 2 |
| AvpCipher.XorSeqAdds | xl2tpd/aaa.c:414-417 | the same for a segment, which differs from the plain one exactly where the digest is not zero |
| AvpCipher.MaskChains | xl2tpd/aaa.c:393-431 | every masked segment is the plain one added to the digest of the first key, or of the secret and the cipher segment before it |
| AvpCipher.UnmaskChains | xl2tpd/aaa.c:458-494 | unmasking adds the same digests, a last short segment included |
| AvpCipher.HiddenOnWire | xl2tpd/aaa.c:363-432 | a value hidden in memory: header bytes with the H bit, then length, value and filling chained from the digest of attribute, secret and random vector; nothing else changes |
| AvpCipher.RefusedExactly | xl2tpd/aaa.c:498-503 | a hidden AVP is refused if and only if the length its unmasked bytes begin with is missing or does not fit |
| AvpBuffer.RewrittenLayout | xl2tpd/aaa.c:384-389 | the overlapping header assignments lose no field |
| AvpBuffer.MaskInPlace | xl2tpd/aaa.c:393-431 | the stretch is masked segment by segment with digests chained over the cipher |
| AvpBuffer.EncryptAvp | xl2tpd/aaa.c:363-432 | the buffer afterwards, and the new end of the packet |
| AvpBuffer.UnmaskInPlace | xl2tpd/aaa.c:458-494 | the same for unmasking, including a last short segment |
| AvpBuffer.DecryptAvp | xl2tpd/aaa.c:434-511 | the buffer afterwards, and whether the hidden length was acceptable |
| AvpWalk.LengthsMakeUpTheBody | xl2tpd/avp.c:1631-1818 | a message is accepted only if the lengths advanced by add up to its body |
| AvpWalk.TilesExactly | xl2tpd/avp.c:1655-1802 | an accepted message is tiled by the lengths it arrived with if and only if, following them, none is disturbed by the byte swaps of the headers before it |
| AvpWalk.TilesIfSteady | xl2tpd/avp.c:1655-1802 | in particular if following the lengths in the packet none but perhaps the last is shorter than a header |
| AvpWalk.AcceptedTiles | xl2tpd/avp.c:1792-1818 | in particular if the walk advanced by at least a header each time |
| AvpWalk.ShortUnknownShifts | xl2tpd/avp.c:1655-1682 | a concrete message with two three-byte unknown AVPs that is accepted although its lengths do not tile it |
| AvpWalk.CheckedFrame | xl2tpd/avp.c:1792-1802 | a turn of the loop advances by the length in the packet, hidden or not, and touches nothing behind it |
| AvpBounds.BehindExactly | xl2tpd/avp.c:1655 | in a buffer that ends with the packet the walk either overruns it or does what it does in any larger one |
| AvpBounds.RoomSuffices | xl2tpd/avp.c:1655 | five bytes behind the packet are always enough |
| AvpBounds.OverrunExactly | xl2tpd/avp.c:1631-1818 | in such a buffer a walk that is not refused overruns if and only if following the lengths, as the swaps leave them, meets a stub shorter than a header |
| AvpBounds.StubOverruns | xl2tpd/avp.c:1655-1682 | a six-byte packet that overruns for every peer |
| AvpMessage.HidingLimit | xl2tpd/aaa.c:380-383 | a plain AVP can be hidden within the largest AVP if and only if it has at most 1012 bytes |
| AvpMessage.TooLongToHide | xl2tpd/avp.c:1700-1716 | a longer one, hidden, reads as six bytes with a reserved bit: refused, or stepped into if optional |
| AvpMessage.BodyConcat | xl2tpd/avpsend.c:40-180 | a body appended to a body is the body of both, hidden items made for the reader as it is by then |
| AvpMessage.BuiltIsHandled | xl2tpd/avp.c:1631-1818 | AVPs appended one by one are handed over one by one, also when they fill the buffer |
| AvpMessage.UnhideItem | xl2tpd/avp.c:1717-1747 | a hidden AVP in the buffer is unhidden to the fields it was made of |
| AvpMessage.ItemTurn | xl2tpd/avp.c:1650-1802 | one AVP, plain or hidden, reaches its handler with its fields, and exactly its bytes are consumed |
| AvpMessage.WalkOfBody | xl2tpd/avp.c:1631-1818 | on a body made by the builders the walk hands over exactly its AVPs in order, up to the first mandatory one refused |
| AvpDelivery.HandlersAre | xl2tpd/avp.c:23-65 | which attributes have a handler |
| AvpDelivery.WordBits | xl2tpd/avp.h:50-61 | how a header word divides into M bit, H bit, reserved bits and length |
| AvpDelivery.MessageIsHandled | xl2tpd/avp.c:1750-1790 | for every reader, a built message is accepted with the state its handlers leave if no AVP is mandatory and without a handler or failed by it |
| AvpDelivery.MessageIsRefused | xl2tpd/avp.c:1750-1790 | the first such AVP refuses it, with the handlers before it called and those after it not |
| AvpDelivery.ObserverSeesAll | xl2tpd/avp.c:1771 | an observer in the handlers' place sees every AVP that has a handler once, in order, with the fields it was made of, plain or hidden |
| AvpDelivery.HeaderChecks | xl2tpd/avp.c:1656-1716 | the checks of a header in their order, by its bits: what refuses the message and what is only skipped |
| AvpDelivery.HiddenChecks | xl2tpd/avp.c:1717-1741 | an AVP that cannot be unhidden refuses the message if it is mandatory, and is skipped otherwise |
| AvpReader.SwapInPlace | xl2tpd/avp.c:1655 | the header bytes of one AVP are swapped pairwise |
| AvpReader.Turn | xl2tpd/avp.c:1650-1790 | every check of a loop turn, in order, with its outcome |
| AvpReader.HandleAvps | xl2tpd/avp.c:1631-1818 | the loop over the buffer, which ends, gives the outcome of the walk, for every walk that stays in the buffer |
| AvpSend.LongRoundTrip | xl2tpd/avp.c:1429-1430 | a 32-bit field split by its builder is put together again by its handler |
| AvpSend.LowHalfOnly | xl2tpd/avp.c:743-835 | the bearer and framing handlers get the value written if and only if it fits in 16 bits |
| AvpDelivery.ValueBytes | xl2tpd/avpsend.c:47-63 | 16- and 32-bit values stand on the wire highest byte first |
| AvpDelivery.PlainBytes | xl2tpd/avpsend.c:29-38 | a plain AVP on the wire, byte for byte |
| AvpSend.Packet.AddHeader | xl2tpd/avpsend.c:29-38 | length, vendor and type stand in network order at the end of the packet |
| AvpSend.Packet.AddAvp | xl2tpd/avpsend.c:135-157 | one whole AVP is appended |
| AvpSend.Packet.AddShortAvp | xl2tpd/avpsend.c:47-63 | an AVP is appended whose value reads back as written |
| AvpSend.Packet.AddLongAvp | xl2tpd/avpsend.c:193-251 | an AVP is appended whose split value reads back as written |
| AvpSend.Packet.AddResultCode | xl2tpd/avpsend.c:159-169 | result, error and text are appended and read back |
| AvpSend.Packet.AddStopCcn | xl2tpd/call.c:286-297 | the AVPs of a StopCCN are appended in order |
| AvpSend.StopIsHandled | xl2tpd/call.c:286-297 | every reader of them is handed message type, random vector if any, tunnel id and result code as they were put in |
| AvpDelivery.StopIsSeen | xl2tpd/call.c:286-297 | an observer sees the AVPs of a StopCCN byte for byte |
| AvpSend.Packet.AddHostName | xl2tpd/avpsend.c:96-107 | the name is cut to what an AVP can hold |
| AsyncFraming.OneAddressPerFrame | rp-pppoe/src/pppoe.c:727-750 | 0xFF stands in a frame once, second; the frame of any receivable packet fits 4096 bytes |
| AsyncFraming.FrameCheckIsGood | rp-pppoe/src/pppoe.c:720-725 | address, control, payload and tail have the good residue |
| AsyncFraming.FrameDecodes | rp-pppoe/src/ppp.c:178-231 | a waiting decoder passes on a payload of at most 1502 bytes, drops a longer one, and waits again |
| AsyncFraming.FramesDecode | rp-pppoe/src/ppp.c:178-231 | of any payloads framed one after the other exactly those of at most 1502 bytes come out, in order |
| AsyncFraming.Resynchronises | rp-pppoe/src/ppp.c:180-191 | a decoder waiting anywhere inside a frame takes the very next frame |
| AsyncFraming.ChunksDoNotMatter | rp-pppoe/src/ppp.c:159-232 | the result does not depend on where reads cut the stream |
| AsyncFraming.StreamRoundTrip | rp-pppoe/src/ppp.c:159-232 | payloads of at most 1502 bytes, framed, concatenated and cut into any reads, come out as they went in |
| AsyncPppoe.AsyncReader.Read | rp-pppoe/src/ppp.c:159-232 | one read advances the decoder byte by byte through all its states |
| AsyncPppoe.EncodeFrame | rp-pppoe/src/pppoe.c:719-750 | the buffer holds the frame and is never overrun |
| FrameBytes.FrameOnWire | rp-pppoe/src/pppoe.c:727-750 | between the flags of a frame stand the address, the escaped control byte, and bytes that are no control character, flag or address and give payload and check back to a receiver that knows the escape |
| FrameBytes.UnstuffedIs | rp-pppoe/src/pppoe.c:732-749 | such a receiver gets any stuffed string back, from either daemon |
| SyncAsync.WithFcsIsGood | xl2tpd/l2tp.h:212-214 | a packet behind `add_fcs` has the good residue |
| SyncAsync.WritePacket | xl2tpd/control.c:1676-1702 | the frame, or a refusal exactly when a byte would come too close to the end of the buffer, which is never overrun |
| SyncAsync.FrameIsReadBack | xl2tpd/call.c:152-197 | what write_packet frames read_packet gives back, without the check sequence and with everything behind the frame untouched |
| FrameBytes.PacketOnWire | xl2tpd/control.c:1676-1702 | the same for xl2tpd's frames, in which the address is not escaped |
| FrameBytes.RoomForPackets | xl2tpd/control.c:1676-1702 | any packet of at most 2044 bytes is framed, and none of 4090 bytes or more |
| FrameBytes.ReadBackExactly | xl2tpd/call.c:91-207 | a frame is read back, with everything behind it untouched, if and only if packet and check fit the buffer, and is an error otherwise |
| FrameBytes.OddEnds | xl2tpd/call.c:152-183 | an escaped flag is an error, and a flag after one byte gives that byte |
| ServerSessions.RunKeeps | rp-pppoe/src/pppoe-server.c:2078-2156 | in every run the two lists partition the slots, free slots have no owner, numbers stay, and no MAC exceeds its limit |
| ServerSessions.SlotsComeInTurn | rp-pppoe/src/pppoe-server.c:2115-2156 | slots are taken in exactly the order in which they stood free at first and were freed afterwards |
| ServerSessions.FailedForkKeeps | rp-pppoe/src/pppoe-server.c:967-972 | a slot whose process could not be started goes to the end of the free list |
| ServerSessions.PadtReaches | rp-pppoe/src/pppoe-server.c:780-787 | the index arithmetic inverts the numbering or falls out of range; a client with an address reaches busy slots only |
| ServerGrants.CountIsNumberOfSlots | rp-pppoe/src/pppoe-server.c:177-186 | the count is the number of busy slots that are the client's |
| ServerGrants.GrantedExactly | rp-pppoe/src/pppoe-server.c:844-978 | a request is granted the slot free longest if and only if it comes from a station below its limit, is acceptable and a slot is free; anything else changes nothing |
| ServerGrants.ExitExactly | rp-pppoe/src/pppoe-server.c:231-265 | the slot of an ended process is free again, behind the others, and nobody's; the other busy slots stay |
| ServerGrants.GrantedCanEnd | rp-pppoe/src/pppoe-server.c:771-830 | in every run a granted client can end its session with a PADT under the number it was given, and no other client can |
| ServerPool.Shuffle | rp-pppoe/src/pppoe-server.c:1531-1549 | the random order is a permutation of the slots |
| ServerPool.Pool.constructor | rp-pppoe/src/pppoe-server.c:1500-1566 | all slots numbered, free and linked, in array order or permuted |
| ServerPool.Pool.CountSessions | rp-pppoe/src/pppoe-server.c:177-186 | the number of busy slots of a MAC |
| ServerPool.Pool.AllocSession | rp-pppoe/src/pppoe-server.c:2078-2104 | the head of the free list becomes the head of the busy list, the tail pointer staying the tail |
| ServerPool.Pool.FreeSession | rp-pppoe/src/pppoe-server.c:2115-2156 | a busy slot moves to the end of the free list; any other is refused |
| ServerPool.Pool.ProcessPadr | rp-pppoe/src/pppoe-server.c:844-978 | refusals in order, then slot, owner and process |
| ServerPool.Pool.ProcessPadt | rp-pppoe/src/pppoe-server.c:771-830 | the slot a PADT stops, or none |
| ServerPool.Pool.ChildHandler | rp-pppoe/src/pppoe-server.c:231-265 | the slot of an ended process is freed |
| EventSelector.RunKeeps | rp-pppoe/src/libevent/event.c:177-221 | in every run passes stand on live handlers, marks are pending work of a running pass, every handler is listed or freed |
| EventSelector.NothingFreedWhileNested | rp-pppoe/src/libevent/event.c:407-432 | a step that frees anything ends outside every pass |
| EventSelector.NoPassMeetsFreed | rp-pppoe/src/libevent/event.c:177-221 | in every run, no handler that a running pass stands on or began with has been freed |
| EventSelector.SilencedForever | rp-pppoe/src/libevent/event.c:182-183 | a deleted handler is never called again, in any run |
| EventSelector.DeletingSilences | rp-pppoe/src/libevent/event.c:407-432 | deletion, immediate or deferred, silences a handler at once |
| EventSelector.TimersFireOnce | rp-pppoe/src/libevent/event.c:194-207 | a pure timer is called at most once in its life |
| EventSelector.NewcomersWait | rp-pppoe/src/libevent/event.c:260-266 | a pass calls only handlers that existed when it began |
| EventSelector.EntryListIsTail | rp-pppoe/src/libevent/event.c:177-221 | while a pass runs nothing it began with leaves the list |
| EventSelector.OutermostReturn | rp-pppoe/src/libevent/event.c:480-513 | the outermost return leaves exactly the undeleted handlers, in order |
| EventTurns.TurnExactly | rp-pppoe/src/libevent/event.c:182-213 | a turn calls the handler it has come to if and only if it is not deleted and its descriptor is ready or its time has come |
| EventTurns.EveryHandlerGetsItsTurn | rp-pppoe/src/libevent/event.c:177-221 | in every run, a pass that ends has given every handler listed when it began its turn, once and in order, whatever callbacks did |
| EventTurns.DestroyIsHonoured | rp-pppoe/src/libevent/event.c:58-67 | outside every pass everything is freed at once, inside it is left pending |
| EventTurns.PendingDestroyIsDone | rp-pppoe/src/libevent/event.c:480-513 | a pending destruction is done by the outermost return: every handler there ever was has been freed |
| EventDispatch.Selector.AddHandler | rp-pppoe/src/libevent/event.c:238-395 | the handler stands in front at once |
| EventDispatch.Selector.DelHandler | rp-pppoe/src/libevent/event.c:407-432 | unlinked and freed, or marked while a pass runs |
| EventDispatch.Selector.DestroySelector | rp-pppoe/src/libevent/event.c:58-67 | everything freed, or left pending while a pass runs |
| EventDispatch.Selector.DoPendingChanges | rp-pppoe/src/libevent/event.c:480-513 | marked handlers go, or everything goes |
| EventDispatch.Selector.Turn | rp-pppoe/src/libevent/event.c:179-213 | which handler is called in this turn, if any, a timer being marked first |
| EventDispatch.Selector.Leave | rp-pppoe/src/libevent/event.c:216-221 | one level less; the outermost one settles what is pending |
| TcpClamp.FoldsToOnes | rp-pppoe/src/common.c:309-312 | a sum folds to all ones exactly when it is a positive multiple of 65535 |
| TcpClamp.ChecksumMakesValid | rp-pppoe/src/common.c:461-465 | a checksum computed over a zeroed field makes the segment valid |
| TcpClamp.ClampIsRight | rp-pppoe/src/common.c:326-466 | a valid SYN stays valid, the first MSS option, if above the clamp, becomes the clamp, no other byte changes; any other packet is left alone |
| TcpClamp.AllClampedExactly | rp-pppoe/src/common.c:404-449 | of a valid SYN all MSS options are at most the clamp afterwards if and only if those behind the place where the walk stopped were so before |
| TcpClamp.SecondStays | rp-pppoe/src/common.c:404-449 | a valid SYN whose second MSS option stays above the clamp |
| TcpClamp.BogusHides | rp-pppoe/src/common.c:414-427 | a valid SYN whose MSS option stays above the clamp behind one of the wrong length |
| TcpReference.SynExactly | rp-pppoe/src/common.c:338-400 | a packet is looked at if and only if it is IPv4, long enough, no later fragment, and TCP with the SYN flag, whatever the other flags |
| TcpReference.ValidExactly | rp-pppoe/src/common.c:271-313 | the checksum counts as right if and only if pseudo header and segment, summed as big-endian words, give a positive multiple of 65535 |
| TcpReference.FindMssExactly | rp-pppoe/src/common.c:404-449 | in a list of options the walk finds the first MSS option if that has the right length, and otherwise nothing |
| TcpReference.AllMssExactly | rp-pppoe/src/common.c:404-449 | what it means that all MSS options of a list are low |
| TcpClamp.AddSegment | rp-pppoe/src/common.c:271-308 | the 32-bit accumulator holds the exact sum |
| TcpClamp.ComputeTcpChecksum | rp-pppoe/src/common.c:271-313 | the complement of the folded sum |
| TcpClamp.LookForMss | rp-pppoe/src/common.c:404-449 | the walk over the options ends and finds the MSS option or none |
| TcpClamp.ClampMss | rp-pppoe/src/common.c:326-466 | the packet afterwards |
| Fcs.TableDivides | rp-pppoe/src/ppp.c:44-77 | every entry of the table is the division of its index by the reflected polynomial 0x8408 |
| Fcs.UpdateDivides | xl2tpd/l2tp.h:214 | a table step is eight steps of bit-by-bit division |
| Fcs.GoodExactly | xl2tpd/l2tp.h:212-214 | a message has the residue 0xf0b8 if and only if its last two bytes are its complemented check sequence, low byte first |
| Fcs.PppFcs16 | rp-pppoe/src/ppp.c:245-254 | the table-driven loop equals bit-by-bit division of the whole message |
| Fcs.AddFcs | xl2tpd/control.c:89-104 | the check sequence is appended and the packet then has the good residue |
| FrameBytes.CheckValue | rp-pppoe/src/ppp.c:245-254 | the check value of "123456789" is 0x906e |
| AddrPool.PickedIsAvailable | xl2tpd/aaa.c:103-134 | the address returned is unused and allowed by the last range that holds it, if and only if the search did not wrap past 255.255.255.255 to an address no later range holds |
| AddrPool.ZeroExactly | xl2tpd/aaa.c:103-134 | nothing is returned, or the search never ends, although an address is available, only if the search stops at 0.0.0.0, and then nothing is returned |
| AddrPool.NonePickedExactly | xl2tpd/aaa.c:103-134 | a search that ends returns nothing if and only if it stops at 0.0.0.0, or nothing is available and it does not stray |
| AddrPool.NonePickedIff | xl2tpd/aaa.c:103-134 | with 0.0.0.0 in no range and 255.255.255.255 the end of no ALLOW range, none is returned if and only if none exists |
| AddrPool.ZeroEndsTheSearch | xl2tpd/aaa.c:115-128 | a range starting at 0.0.0.0 makes the search end with nothing although addresses are free |
| AddrPool.WrapLeavesTheRange | xl2tpd/aaa.c:110 | a spent range ending at 255.255.255.255 gives out an address that no range holds |
| AddrPool.RunKeeps | xl2tpd/control.c:772-787 | in every run the reserved addresses are exactly those of live calls, each of one call |
| AddrLeases.AvailableExactly | xl2tpd/aaa.c:115-128 | an address may be given out if and only if it is unused and the last range that holds it is an ALLOW range |
| AddrLeases.LowestOfTheFirst | xl2tpd/aaa.c:103-134 | the address is the lowest acceptable one of the first ALLOW range that has any |
| AddrLeases.CallGetsAddress | xl2tpd/control.c:772-787 | a call that is to be given an address gets an available one whenever there is one, and nobody else gets it then |
| AddrLeases.CallGivesBack | xl2tpd/call.c:398-408 | a destroyed call gives its address back, and only that |
| AddrPool.AddrTable.IpUsed | xl2tpd/aaa.c:37-48 | whether the address is in its bucket |
| AddrPool.AddrTable.Reserve | xl2tpd/aaa.c:60-72 | the set in use gains the address, once |
| AddrPool.AddrTable.Unreserve | xl2tpd/aaa.c:74-101 | the set in use loses the address |
| AddrPool.AddrTable.GetAddr | xl2tpd/aaa.c:103-134 | the nested search, counter wrap included, gives the first acceptable address |
| Scheduler.OrderIsReal | xl2tpd/scheduler.h:58-63 | the comparison never contradicts real time although microseconds may be 1000000 |
| Scheduler.DeadlinesInOrder | xl2tpd/scheduler.c:28-122 | in every run events fire in the order of their deadlines, never early, first in first out at equal timevals |
| Scheduler.NeverEarlyNeverLate | xl2tpd/scheduler.c:36-52 | an event is due if and only if its deadline is not after the clock |
| Scheduler.WaitIsPositive | xl2tpd/scheduler.c:57-74 | the alarm is the exact remaining time and strictly positive; the one-second escape is never taken |
| SchedulerRuns.CarryIsLate | xl2tpd/scheduler.c:95-100 | a million microseconds are not carried into the seconds, one more is |
| SchedulerRuns.AlarmExactly | xl2tpd/scheduler.c:57-74 | the alarm is set for the difference, with a borrow if need be |
| SchedulerRuns.AllDueRun | xl2tpd/scheduler.c:28-55 | processing the queue runs exactly the events whose time has come, earlier ones first, and leaves the others as they are |
| SchedulerRuns.ScheduledWaits | xl2tpd/scheduler.c:81-100 | what is scheduled waits for exactly the time asked for |
| SchedulerRuns.WaitingEventRuns | xl2tpd/scheduler.c:28-55 | in every run an event that is not descheduled has run once the queue was processed at or after its deadline |
| SchedulerRuns.DescheduledNeverRuns | xl2tpd/scheduler.c:141-164 | in every run a descheduled event never runs |
| Scheduler.Queue.Schedule | xl2tpd/scheduler.c:81-122 | the entry stands behind all that are not later |
| Scheduler.Queue.Deschedule | xl2tpd/scheduler.c:141-164 | exactly that entry leaves the queue |
| Scheduler.Queue.TakeDue | xl2tpd/scheduler.c:36-52 | the head runs if it is due |
| Scheduler.Queue.NextAlarm | xl2tpd/scheduler.c:54-79 | whether and when the next alarm is set |

## Left out

- TunnelLifetime.SilentPeerDeadline: is one-directional for runs with local activity, where a later packet of a tunnel whose StopCCN was tossed may still bring it down; `DeadlineExactly` is exact for timers alone.
- AvpReader.HandleAvps: excludes the walks that swap bytes behind the end of the buffer, `Walk(...) == Overrun`: what the program does then is not defined; `AvpBounds` says which they are.
- AddrPool.AddrTable.GetAddr: excludes the searches that never end, `Search(used, ranges) == Endless`, because a method has to end; `ZeroExactly` covers them.
- ControlTunnel.Tunnel.AddControlHdr: the tunnel and call ids written into the header are not modelled; one tunnel is looked at.
- ControlTunnel.Tunnel.CheckControlPacket: packets shorter than a control header, which are refused, are not modelled.
- TunnelDaemon.Daemon.CallClose: the calls of a tunnel are a list of numbers that is emptied; what closing or destroying a single call does is not modelled.
- TunnelSetup.TunnelRecord.Receive: why a message is refused, and the Hello timer set on connecting, are not modelled.
- RelayFrames.InputIsOp: the frames sent by a cleaning pass are stated by `RelayAgent.Agent.CleanIdle` only.
- AvpBuffer.DecryptAvp: the refusal when no random vector has arrived is taken by the walk (`AvpWalk.HandOverHidden`).
- ServerPool.Pool.ProcessPadr: whether cookie and service name are acceptable is a parameter.
- ServerPool.Pool.ChildHandler: the PADT sent to the client is not modelled.
- EventDispatch.Selector.AddHandler: the argument checks of the three adding functions are left out.
- AddrPool.RunKeeps: no local address range, and every ICRQ arrives on a fresh call.
- Md5.Context.Update: pieces are shorter than 2^32 bytes, as the length argument is.
- AvpSend.Packet.AddShortAvp: stands for the builders of 16-bit values; the capability builders (a zero half-word and a 16-bit one) and sequencing required (no value) are `AddAvp` with that value.
- Sockets, ptys, pppd, signals, kernel L2TP and the configuration files: foreign calls and user interface. Sending appends to a list of frames.
- Outgoing calls (OCRQ, OCRP, OCCN), call numbering and `get_call`: long, and easier than the tunnel part.
- The individual AVP handlers beyond message type, assigned tunnel id and the reading of 16- and 32-bit fields: field assignments behind length checks.
- `handle_special`, redialling, the unused `cap_backoff`, the TEST_HIDDEN branch and the claim that StopCCN itself was acknowledged.
- SyncAsync.FrameIsReadBack: is about a frame that arrives in one call; the escape flag of `read_packet` is a local variable and does not survive a short read (xl2tpd/call.c:95).
- `aschedule`, which turns an absolute time into a relative one and calls `schedule`.
- Callbacks of the event selector and of the timer queue are arbitrary sequences of operations; their data pointers are not modelled, nor is `Event_ChangeTimeout`.
- The event selector, the timer queue and the hash buckets of the address table are sequences, not linked cells: allocation failure and reuse of freed addresses are not captured.
- PADI, cookie and service-name processing of the server, and the discovery client: tag bookkeeping; whether a PADR is acceptable is a parameter.
- `parsePacket` beyond the search for one tag.
