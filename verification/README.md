# Flesnet timeslice building, CRC arithmetic and shared-memory rings

A Dafny model of three parts of Flesnet and proofs about them.

1. **The distributed timeslice building protocol** (`lib/fles_rdma`). Input nodes cut a
   microslice stream into timeslices and write timeslice `t` straight into the memory of
   compute node `t % C`. One status token per connection carries write pointers one way and
   acknowledge pointers the other way. The compute node follows its slowest input, hands
   out work items, takes completions in any order and advances one acknowledge index.
   The model is a state machine with any number of inputs and compute nodes; every
   connection has an in-order channel of remote writes and status messages (reliable
   connections, `lib/fles_rdma/IBConnection.cpp:113`), and everything else interleaves
   freely. `Runs.dfy` holds what is true in every state of every run. `Progress.dfy`,
   `Refusal.dfy`, `Abort.dfy` and `Ending.dfy` say exactly from which states the protocol can
   still come to its end, and `Witness.dfy` shows concrete runs.
2. **CRC arithmetic** (`lib/crcutil`). Multiplication modulo a polynomial in bit-reversed
   registers, power tables, extended Euclid, and the table-driven, interleaved, striped and
   rolling CRC loops. Every fast form equals the byte-at-a-time CRC. `MulX` is the linear
   step `b -> (b >> 1) ^ normalize[b & 1]`; `Poly.dfy` shows that it is multiplication by x
   in GF(2)[x]/P, and `Remainder.dfy` that the CRC is the remainder of a polynomial division.
3. **Rings in shared memory** (`lib/fles_core`): the managed ring buffer, the managed
   timeslice buffer and the microslice transmitter and receiver with their cached indices.

Objects whose methods change fields are classes; each method is proved equal to a function
on the value of the object (`State()`), and the theorems are about those functions.
Registers and counters are unbounded naturals; the places where 64-bit arithmetic matters
are written out modulo 2^64. Nothing here executes the original program.

| file | part |
|---|---|
| `RingMath`, `Bits`, `Wire` | index arithmetic, exclusive or, messages and component history |
| `Reorder` | the reorder ring used in three places |
| `InputChannelConnection`, `ComputeNodeConnection`, `Connection` | one connection |
| `InputChannelSender`, `SourceRing`, `Timeslices`, `ScatterGather` | the input node |
| `TimesliceBuilder`, `ComputeNode` | the compute node |
| `System`, `SystemProofs`, `Runs` | all nodes, all runs |
| `Cycle`, `Continuation`, `FlagInvariants` | runs that continue a state |
| `Room`, `Progress`, `Refusal` | when a run can be completed |
| `Abort`, `Afford`, `Ending`, `Witness` | when all connections can end, and concrete runs |
| `Gf`, `GfUtil`, `Poly`, `FindLcd`, `GfBase` | field arithmetic |
| `Crc`, `GenericCrc`, `Crc32c`, `RollingCrc`, `Remainder` | CRC definitions and loops |
| `ManagedRingBuffer`, `ManagedTimesliceBuffer`, `MicrosliceRing` | shared-memory rings |

Results where the code does not do what one would hope, with the exact condition:

- As long as nobody asks for an abort, everything can be completed if and only if every
  timeslice has room: `Refusal.CompleteExactly`. The condition can be computed from the
  configuration, because the place of a component in the remote ring depends on nothing but the
  sizes of those before it (`Room.Roomy`). Half the remote data ring is always room enough
  (`Room.HalfIsRoom`); a larger component can be refused for ever, whatever is acknowledged:
  `Refusal.RefusedForever`. `Witness.RefusalReachable` is a run that gets there.
- The managed timeslice buffer has the same stall:
  `ManagedTimesliceBuffer.DrainedFitsIff` says what a drained buffer takes,
  `ManagedTimesliceBuffer.DrainedRefusesForever` that it never takes anything else, and
  `ManagedTimesliceBuffer.RefusalReachable` is a run that gets there.
- A request to abort that comes after one input has finished sending can leave that input waiting
  for ever, because the others stop before it is acknowledged: `Abort.StuckReachable`. For every
  state of every run `Ending.CanEndExactly` says whether all connections can still end: if and
  only if no input waits to finish without abort, or no connection is stuck and every input that
  has not heard of an abort can still send all it has left into room it knows of.
- The strict check in `size_available` (`lib/fles_core/ManagedRingBuffer.hpp:27`) fails on a
  ring that `put` filled completely: `ManagedTimesliceBuffer.FullExactly` says when a put
  fills a ring, `ManagedTimesliceBuffer.FullReachable` is a run that does.
- A microslice exactly as large as the data ring is copied past the end of the ring unless it
  starts at the ring's beginning: `MicrosliceRing.OverrunExactly`,
  `MicrosliceRing.FullTurnReachable`.
- `x_pow_minus_W_` is an inverse, and the complementary CRC reaches every value, exactly when
  P has a constant term: `GfBase.InverseExactly`, `GfBase.ReachesAllExactly`.

## Model

| member | source | states |
|---|---|---|
| `Runs.NothingOverwritten` | lib/fles_rdma/TimesliceBuilder.cpp:267-319 | in every reachable state, for every position p from the acknowledge index up to what is completely written and every input: the descriptor in its slot says timeslice p*C + c with size + overlap microslices; the bytes it points to are, unwrapped, the descriptors of microslices (p*C + c)*size + start index onwards and then their content, byte for byte from the source's stream; and no write in flight touches them |
| `Timeslices.PayloadIs` | lib/fles_rdma/InputChannelSender.cpp:245-266 | what is sent for a timeslice are the size + overlap microslice descriptors from number ts*size after the start index on, 32 bytes each, and then the data stream from the offset of the first to the end of the last |
| `Timeslices.ContainsExactly` | lib/fles_rdma/InputChannelSender.cpp:247-248 | microslice m is in timeslice ts if and only if ts*size + start <= m < (ts+1)*size + overlap + start |
| `Timeslices.Covered` | lib/fles_rdma/InputChannelSender.cpp:247-248 | every microslice from the start index on is in the timeslice of its number, not in the next one, and in the one before exactly if it is one of its first overlap |
| `Timeslices.OverlapRepeats` | lib/fles_rdma/InputChannelSender.cpp:247-248 | the last overlap descriptors of a timeslice are the first ones of the next |
| `SourceRing.DescriptorRing` | lib/fles_core/RingBufferView.hpp:17-22 | what is read from the source's descriptor ring is what lies in that slot after all deliveries so far, whatever was there before |
| `SourceRing.DataRing` | lib/fles_core/RingBufferView.hpp:17-22 | likewise for the data ring, byte by byte |
| `Runs.ChainHolds` | lib/fles_rdma/InputChannelConnection.cpp:35-50 | in every reachable state, for descriptors and for data bytes: sender's ack <= acks in flight <= node ack <= node write pointer <= write pointers in flight and arrived <= sender's write pointer <= sender's ack + ring size; and node ack = acknowledge index <= completely written <= node write pointer |
| `Runs.TokenMoves` | lib/fles_rdma/InputChannelConnection.cpp:164-223 | each connection holds exactly one token in every reachable state, and until the input is done some step can move it |
| `Refusal.CompleteExactly` | lib/fles_rdma/InputChannelSender.cpp:179-243 | from every state of every run in which nobody has asked for an abort, some continuation sends all timeslices, completes all work items and ends every connection, if and only if every timeslice has room: in its source's rings, and behind or before the place that the sizes of earlier components give it in its target's data ring |
| `Refusal.RefusedForever` | lib/fles_rdma/InputChannelSender.cpp:274-295 | a timeslice that fits neither behind nor before the write pointer of its target is never sent: after every run its input has the same timeslice to send, the same write pointers and is still refused |
| `Refusal.RefusedNoFinish` | lib/fles_rdma/InputChannelSender.cpp:274-295 | after such a refusal no continuation completes the run |
| `Refusal.SendNeeds` | lib/fles_rdma/InputChannelSender.cpp:245-299 | a send that succeeds finds a write request, the timeslice in its source's rings, and room behind or before the write pointer, whatever is acknowledged |
| `Refusal.Capped` | lib/fles_rdma/InputChannelSender.cpp:245-299 | no run takes an input past a timeslice without room |
| `Witness.RefusalReachable` | lib/fles_rdma/InputChannelSender.cpp:274-295 | with payloads of 32 and 33 bytes and a ring of 64, delivering and sending once is a run after which the next timeslice is refused for ever |
| `Room.HalfIsRoom` | lib/fles_rdma/InputChannelConnection.cpp:174-181 | half the remote data ring is room enough wherever the component comes to lie |
| `Room.PlaceMonotone` | lib/fles_rdma/InputChannelConnection.cpp:174-181 | the place after more components is not earlier |
| `FlagInvariants.SentInPlace` | lib/fles_rdma/InputChannelSender.cpp:274-295 | a send keeps the write pointer where the sizes of all components sent so far put it |
| `Progress.CanComplete` | lib/fles_rdma/InputChannelSender.cpp:179-243 | with room for every timeslice, every run without a request to abort has a completing continuation without one |
| `Progress.SendSlowest` | lib/fles_rdma/InputChannelSender.cpp:245-299 | when everything is settled, the input that is furthest behind can always send its next timeslice |
| `Progress.SlowestDrained` | lib/fles_rdma/TimesliceBuilder.cpp:267-319 | when everything is settled, the input that is furthest behind has nothing unacknowledged anywhere |
| `Progress.Settle` | lib/fles_rdma/InputChannelConnection.cpp:164-223 | without aborts every state leads to one in which every node knows everything sent, and everything the slowest input sent is worked on and acknowledged |
| `Progress.EndAll` | lib/fles_rdma/InputChannelConnection.cpp:200-223 | two round trips end every connection that aborts or has everything acknowledged; then both sides close it |
| `Cycle.RoundTrip` | lib/fles_rdma/InputChannelConnection.cpp:164-223 | from wherever the token is, a round trip tells the compute node everything sent and the sender everything acknowledged, and brings a connection that may end closer to its end |
| `Continuation.OpMoves` | lib/fles_rdma/ComputeNodeConnection.cpp:150-170 | moving the token of one connection changes that connection alone and, of its compute node, at most what the slowest input decides |
| `FlagInvariants.FlagsKeep` | lib/fles_rdma/InputChannelSender.cpp:210-219 | every step keeps: an input finishes on all connections at once, and without abort only after it has sent everything |
| `FlagInvariants.WritesSeen` | lib/fles_rdma/InputChannelSender.cpp:210-219 | in every state of every run an input has at most the allowed number of writes unseen on a connection, and has seen all of them complete once it finishes |
| `FlagInvariants.UnaskedKeep` | lib/fles_rdma/InputChannelSender.cpp:506-519 | nobody aborts unless a compute node asks for it |
| `Ending.CanEndExactly` | lib/fles_rdma/InputChannelConnection.cpp:183-223 | from every state of every run some continuation ends all connections if and only if no input waits to finish without abort, or none is stuck and every input that has neither finished nor heard of an abort can afford all timeslices it has left |
| `Ending.SendLast` | lib/fles_rdma/InputChannelSender.cpp:245-299 | of the inputs that can afford what they have left, the one furthest behind can send its next timeslice without hearing of an abort, and all can still afford the rest |
| `Ending.DrainLast` | lib/fles_rdma/TimesliceBuilder.cpp:267-319 | at a compute node that does not ask for an abort, two round trips with the work done in between acknowledge everything of that input |
| `Ending.EndFrom` | lib/fles_rdma/InputChannelConnection.cpp:183-223 | from such a state all connections can end although some compute nodes ask for an abort |
| `Afford.HeldCannotEnd` | lib/fles_rdma/InputChannelConnection.cpp:200-223 | while an input waits to finish without abort and another cannot afford a timeslice, no continuation ends all connections |
| `Afford.HeldForever` | lib/fles_rdma/InputChannelSender.cpp:506-519 | an input that cannot afford a timeslice never gets past it, whatever happens |
| `Afford.SendAffordable` | lib/fles_rdma/InputChannelSender.cpp:274-295 | whoever sends could afford it: to a target that asks for an abort only into the room behind the last acknowledge pointers learnt without the request |
| `Afford.PairSteps` | lib/fles_rdma/InputChannelConnection.cpp:164-223 | every step answers a status message of a connection, receives a reply, or leaves what the sender can learn as it is, and a compute node asks for an abort exactly from its request on |
| `Afford.AskKeeps` | lib/fles_rdma/TimesliceBuilder.cpp:168-175 | every step keeps: a compute node asks all its inputs or none, and a reply asks only if the node does |
| `Abort.EndExactly` | lib/fles_rdma/InputChannelConnection.cpp:183-223 | once no input sends any more, some continuation ends all connections if and only if none is stuck, that is, waits without abort for more than another input that has stopped can still report, or than a node that somebody left has counted as written |
| `Abort.StuckForever` | lib/fles_rdma/InputChannelConnection.cpp:200-223 | a stuck connection stays stuck whatever happens |
| `Abort.StuckReachable` | lib/fles_rdma/TimesliceBuilder.cpp:168-175 | with two inputs and one timeslice, from every initial state a run leads to a stuck connection: one input sends and finishes, then an abort is asked for |
| `Abort.AbortEnds` | lib/fles_rdma/TimesliceBuilder.cpp:168-175 | if no input waits to finish without abort, asking for an abort can end everything |
| `Witness.StuckExample` | lib/fles_rdma/TimesliceBuilder.cpp:168-175 | a concrete configuration and run after which not all connections can end |
| `Witness.TwoRoomy` | lib/fles_rdma/InputChannelSender.cpp:245-299 | there is a configuration with room for all its timeslices, and it has an initial state |
| `Runs.FinalizeIsClean` | lib/fles_rdma/TimesliceBuilder.cpp:253-265 | when the final message to an input that did not abort is out, no work item is outstanding |
| `Runs.WorkItemsInOrder` | lib/fles_rdma/TimesliceBuilder.cpp:267-297 | work items go out once each, in increasing position, numbered p*C + c, exactly up to the minimum received write pointer although it is recomputed only on messages of the slowest input |
| `Runs.SourceKept` | lib/fles_rdma/InputChannelSender.cpp:473-497 | while a write is incomplete the read index given to the data source has passed neither its first microslice nor its first byte, and the source's rings still hold what was sent |
| `Runs.ReachableInv` | lib/fles_rdma/InputChannelSender.cpp:179-243 | the system invariant holds in every reachable state |
| `SystemProofs.ApplyKeeps` | lib/fles_rdma/InputChannelSender.cpp:471-529 | every step of any node keeps the system invariant |
| `SystemProofs.RunKeeps` | lib/fles_rdma/InputChannelSender.cpp:179-243 | every run from an initial state keeps it |
| `SystemProofs.InitInv` | lib/fles_rdma/InputChannelSender.cpp:36-43 | it holds initially, whatever the rings contain |
| `SystemProofs.NextPosition` | lib/fles_rdma/InputChannelSender.cpp:325-327 | the next timeslice of an input goes to the next free position of its compute node |
| `Witness.WorkItemReachable` | lib/fles_rdma/TimesliceBuilder.cpp:267-297 | a state with a work item outstanding is reachable |
| `Reorder.Complete` | lib/fles_rdma/TimesliceBuilder.cpp:304-319 | the in-place ring with its do-while loop computes the least uncompleted position and records exactly the completions above it; the loop ends within one turn |
| `Reorder.CompleteRefinesSet` | lib/fles_rdma/TimesliceBuilder.cpp:304-319 | the completed positions grow by exactly the new one and the index is the least one missing |
| `Reorder.RecordKeeps` | lib/fles_rdma/TimesliceBuilder.cpp:316-318 | recording a completion disturbs no other position of the window |
| `Reorder.AdvanceKeeps` | lib/fles_rdma/TimesliceBuilder.cpp:309-315 | after advancing, stale slots are never taken for fresh ones |
| `Reorder.FirstOpen` | lib/fles_rdma/TimesliceBuilder.cpp:309-312 | the least position not done |
| `RingMath.SizeExponent` | lib/fles_core/RingBuffer.hpp:40-50 | the shift loop finds the least power of two that is large enough |
| `RingMath.SlotsDistinct` | lib/fles_core/RingBuffer.hpp:93-96 | positions less than one ring apart share a slot only if equal |
| `RingMath.StretchesDisjoint` | lib/fles_rdma/InputChannelConnection.cpp:174-181 | unwrapped stretches following one another within one ring length do not overlap in the ring |
| `InputChannelConnection.CheckIsExact` | lib/fles_rdma/InputChannelConnection.cpp:35-50 | the test in 64-bit arithmetic holds if and only if the new write pointers stay within one ring of the acknowledged ones |
| `InputChannelConnection.SkipRequired` | lib/fles_rdma/InputChannelConnection.cpp:174-181 | nothing is skipped if and only if the component does not wrap; otherwise the skip ends at the beginning of the ring |
| `InputChannelConnection.SkipIsLeast` | lib/fles_rdma/InputChannelConnection.cpp:174-181 | the skip leads to the first position from the write pointer on where the component does not wrap |
| `InputChannelConnection.CanSendExactly` | lib/fles_rdma/InputChannelSender.cpp:274-285 | the tests let a component through if and only if a write request and a descriptor slot are free and some place behind the write pointer holds it without wrapping and without reaching what is not acknowledged |
| `InputChannelConnection.SendNeverWraps` | lib/fles_rdma/InputChannelConnection.cpp:72-118 | a send that passes the space test is a single data write: the wrap list is empty |
| `InputChannelConnection.DrainedSendExactly` | lib/fles_rdma/InputChannelSender.cpp:274-295 | when everything is acknowledged, a component can be sent if and only if it fits behind the write pointer or before it |
| `InputChannelConnection.SendNeedsRoom` | lib/fles_rdma/InputChannelSender.cpp:274-295 | whatever is acknowledged, a component can only be sent if it fits behind the write pointer or before it |
| `InputChannelConnection.HalfRingExactly` | lib/fles_rdma/InputChannelSender.cpp:274-295 | a component can be sent from every drained position if and only if it takes up at most half the remote data ring, rounded up |
| `InputChannelConnection.SendPlaces` | lib/fles_rdma/InputChannelConnection.cpp:52-140 | a permitted send is one data write at the first place from the write pointer on where it does not wrap, and the descriptor that names this place |
| `InputChannelConnection.InputConnection.TrySendComponent` | lib/fles_rdma/InputChannelSender.cpp:274-295 | with pointers within one ring, sends if and only if a write request, a descriptor slot and a place for the component are free; then it posts one data write at the first place that does not wrap, the write pointer itself if possible, and the descriptor that names it, and the new pointers are within one ring |
| `InputChannelConnection.InputConnection.TrySyncBufferPositions` | lib/fles_rdma/InputChannelConnection.cpp:164-172 | afterwards the token is not here; exactly if it was, one message with the current write pointers is out |
| `InputChannelConnection.InputConnection.FinalizeConnection` | lib/fles_rdma/InputChannelConnection.cpp:183-196 | if the token is here one message goes out, final if and only if everything is acknowledged or the input aborts, and otherwise with the current write pointers |
| `InputChannelConnection.InputConnection.OnCompleteRecv` | lib/fles_rdma/InputChannelConnection.cpp:200-223 | a final reply ends the connection; any other leaves the token here or one message out, not both, and that message is final if and only if everything is acknowledged or the input aborts |
| `ComputeNodeConnection.NodeConnection.AdvanceAck` | lib/fles_rdma/ComputeNodeConnection.cpp:141-148 | if the last acknowledged slot still holds what was sent there, the acknowledge pointers are the position right behind that component |
| `ComputeNodeConnection.NodeConnection.OnCompleteRecv` | lib/fles_rdma/ComputeNodeConnection.cpp:150-170 | takes the write pointers and answers with the acknowledge pointers, or answers final with final |
| `Connection.SendKeeps` | lib/fles_rdma/InputChannelSender.cpp:274-295 | sending keeps the connection invariant: history, pointers, token, packets in flight, memory |
| `Connection.LandKeeps` | lib/fles_rdma/InputChannelConnection.cpp:98-140 | a landing write changes nothing that is live |
| `Connection.LiveDisjoint` | lib/fles_rdma/InputChannelConnection.cpp:35-50 | a component sent later never shares a descriptor slot or a data byte with one not yet known to be acknowledged |
| `Connection.NoWriteTouches` | lib/fles_rdma/InputChannelConnection.cpp:98-140 | no packet in flight touches an outstanding component |
| `Connection.ReceiveReplyKeeps` | lib/fles_rdma/InputChannelConnection.cpp:200-223 | handling a reply keeps the connection invariant |
| `Connection.ReplyKeeps` | lib/fles_rdma/ComputeNodeConnection.cpp:150-170 | answering a status message keeps it |
| `Connection.SyncKeeps` | lib/fles_rdma/InputChannelConnection.cpp:164-172 | passing the token keeps it |
| `Connection.PollWriteKeeps` | lib/fles_rdma/InputChannelConnection.cpp:198-198 | seeing a write completion keeps it: pending requests are exactly the components not seen complete |
| `Connection.FinalizeKeeps` | lib/fles_rdma/InputChannelConnection.cpp:183-196 | finalizing keeps it |
| `Connection.AckKeeps` | lib/fles_rdma/ComputeNodeConnection.cpp:141-148 | acknowledging keeps it: the descriptor slot that is read has not been reused |
| `Connection.FinalMeansAcked` | lib/fles_rdma/InputChannelConnection.cpp:188-193 | a final message without abort means everything sent is acknowledged |
| `InputChannelSender.GatherIsPayload` | lib/fles_rdma/InputChannelSender.cpp:245-265 | what is read out of the source's rings for an available timeslice is what the source delivered, overlap included |
| `InputChannelSender.ReadIndexSafe` | lib/fles_rdma/InputChannelSender.cpp:473-497 | the read index never passes the first microslice or byte of a timeslice whose write is incomplete |
| `InputChannelSender.InFlightFits` | lib/fles_rdma/InputChannelSender.cpp:36-43 | the timeslices in flight always fit into the sender's reorder ring |
| `InputChannelSender.WriteCompletedKeeps` | lib/fles_rdma/InputChannelSender.cpp:473-497 | a completion in any order keeps the sender's invariant |
| `InputChannelSender.GivenBackExactly` | lib/fles_rdma/InputChannelSender.cpp:490-496 | buffer space is given back to the data source when a completion has freed a quarter of one of its rings, and not before; so the source lacks less than a quarter of each |
| `InputChannelSender.Sender.OnWriteCompletion` | lib/fles_rdma/InputChannelSender.cpp:473-497 | the in-place ring and cached indices end in exactly the state of the abstract sender |
| `InputChannelSender.Sender.constructor` | lib/fles_rdma/InputChannelSender.cpp:36-43 | the reorder ring is allocated large enough and cleared |
| `ScatterGather.PostSendData` | lib/fles_rdma/InputChannelSender.cpp:405-469 | the at most four entries gather exactly the descriptors followed by the content, whether or not the source's rings wrap |
| `ScatterGather.Split` | lib/fles_rdma/InputChannelConnection.cpp:72-93 | the list split in place gathers the first bytes, the second list the rest |
| `ScatterGather.SendData` | lib/fles_rdma/InputChannelConnection.cpp:52-118 | the remote writes are the data packets of the protocol model |
| `ScatterGather.PacketsLand` | lib/fles_rdma/InputChannelConnection.cpp:72-118 | landing in order, split or not, these writes put the payload at consecutive positions of the remote ring and change nothing else |
| `ScatterGather.PostTimeslice` | lib/fles_rdma/InputChannelSender.cpp:245-299 | from the sender's state to the writes: for every available timeslice the list built, split in place and posted is exactly the data packets of the timeslice of the protocol model |
| `ScatterGather.TimesliceBounds` | lib/fles_rdma/InputChannelSender.cpp:253-264 | an available timeslice fits into the source's rings and its content does not run backwards |
| `ScatterGather.ListIsTimeslice` | lib/fles_rdma/InputChannelSender.cpp:405-469 | the slices of the source's rings that the list covers are the timeslice of the protocol model |
| `TimesliceBuilder.Builder.OnReceiveStatus` | lib/fles_rdma/TimesliceBuilder.cpp:267-297 | a message of the slowest input recomputes the minimum and sends the work items now complete; any other only updates its connection |
| `TimesliceBuilder.Builder.FindSlowest` | lib/fles_rdma/TimesliceBuilder.cpp:270-278 | the first connection with the smallest write pointer |
| `TimesliceBuilder.MinElement` | lib/fles_rdma/TimesliceBuilder.cpp:270-275 | no connection is behind it, and none before it is level with it |
| `TimesliceBuilder.Builder.SendWorkItems` | lib/fles_rdma/TimesliceBuilder.cpp:280-295 | one item per new position, in order, with the timeslice number found in descriptor ring 0 |
| `TimesliceBuilder.Builder.PollTsCompletion` | lib/fles_rdma/TimesliceBuilder.cpp:304-319 | one completion has the effect of the abstract builder, and all connections are acknowledged when the index moves |
| `ComputeNode.HandleStatusKeeps` | lib/fles_rdma/TimesliceBuilder.cpp:267-297 | a status message keeps the node invariant |
| `ComputeNode.HandleCompletionKeeps` | lib/fles_rdma/TimesliceBuilder.cpp:304-319 | a completion keeps it |
| `ComputeNode.HandleFinalSentKeeps` | lib/fles_rdma/TimesliceBuilder.cpp:253-265 | a final message sent keeps it |
| `ComputeNode.HandleDisconnectKeeps` | lib/fles_rdma/IBConnectionGroup.hpp:245-255 | an input that leaves keeps it |
| `ComputeNode.WrittenIsMinimum` | lib/fles_rdma/TimesliceBuilder.cpp:267-297 | completely written is the minimum received write pointer unless an aborting input has left |
| `ComputeNode.WindowFits` | lib/fles_rdma/TimesliceBuilder.cpp:304-319 | the outstanding window never exceeds the descriptor ring |
| `ComputeNode.FinalizeFindsNoWork` | lib/fles_rdma/TimesliceBuilder.cpp:253-257 | the assertions of the finalize handler hold |
| `ComputeNode.OutstandingIntact` | lib/fles_rdma/TimesliceBuilder.cpp:280-295 | all components of an outstanding position are intact and nothing in flight touches them |
| `Gf.MulExchange` | lib/crcutil/gf_util.h:151-176 | c * (a * b) == a * (c * b), the law behind commutativity and associativity |
| `Gf.TimesComm` | lib/crcutil/gf_util.h:151-176 | multiplication is commutative: swapping the operands changes nothing |
| `Gf.TimesAssoc` | lib/crcutil/gf_util.h:151-176 | multiplication is associative |
| `Gf.TimesDistributes` | lib/crcutil/gf_util.h:151-176 | multiplication distributes over addition on both sides |
| `Gf.TimesOne` | lib/crcutil/gf_util.h:85-88 | `One` is the unit |
| `Gf.TimesXpow` | lib/crcutil/gf_util.h:194-211 | multiplying by x^n is n steps of the CRC shift |
| `Gf.XpowAdd` | lib/crcutil/gf_util.h:58-62 | x^m * x^n == x^(m+n) |
| `Poly.TimesIsProduct` | lib/crcutil/gf_util.h:151-176 | the register product is the reduced residue of the product of the two polynomials modulo P |
| `Poly.RevMulX` | lib/crcutil/gf_util.h:167-173 | the shift step is multiplication by x, minus P when the degree reaches D |
| `Poly.ProductAssoc` | lib/crcutil/gf_util.h:151-176 | the reference product of polynomials is associative |
| `Poly.DegreesAdd` | lib/crcutil/gf_util.h:213-218 | degrees add |
| `GfUtil.Multiply` | lib/crcutil/gf_util.h:151-176 | the shift-and-add loop with its operand swap ends and computes the product |
| `GfUtil.PowerTable` | lib/crcutil/gf_util.h:58-62 | entry i is x^(2^i) |
| `GfUtil.XpowN` | lib/crcutil/gf_util.h:194-206 | x^n for every 64-bit n |
| `GfUtil.MultiplyUnnormalized` | lib/crcutil/gf_util.h:178-192 | an unnormalized polynomial of any length, also longer than D, times m: the reduction loop ends with the product |
| `GfUtil.UnnormalizedIsShift` | lib/crcutil/gf_util.h:178-192 | times a power of x an unnormalized polynomial is its bits shifted through |
| `GfUtil.StoreBytes` | lib/crcutil/gf_util.h:134-142 | writes the low bytes of the value, least significant first, and nothing else |
| `FindLcd.Divide` | lib/crcutil/gf_util.h:213-250 | quotient and remainder give the dividend back, as polynomials and as residues, and the remainder has a lower degree; both loops end |
| `FindLcd.FindLCD` | lib/crcutil/gf_util.h:252-286 | ends, and returns g with a*b == g modulo P, where the divisors of g are exactly the common divisors of a and P |
| `FindLcd.GcdOfPower` | lib/crcutil/gf_util.h:67-67 | for a power of x and P with a constant term that divisor is one |
| `FindLcd.NoInverse` | lib/crcutil/gf_util.h:67-67 | without a constant term no positive power of x has an inverse |
| `GfBase.InverseExactly` | lib/crcutil/gf_util.h:67-67 | the stored power is a true inverse of x^(8 * crc_bytes) if and only if P has a constant term |
| `GfBase.Base.constructor` | lib/crcutil/gf_util.h:43-68 | powers, CRC of CRC and inverse are what they should be |
| `GfBase.Base.ChangeStart` | lib/crcutil/gf_util.h:90-96 | gives the CRC of the same message with another start value |
| `GfBase.Base.Concat` | lib/crcutil/gf_util.h:98-105 | gives the CRC of the concatenated message |
| `GfBase.Base.ZeroesCrc` | lib/crcutil/gf_util.h:107-111 | gives the CRC of that many zero bytes |
| `GfBase.Base.StoreCrc` | lib/crcutil/gf_util.h:130-136 | the CRC lies behind the message, low byte first, and the CRC of both is the constant |
| `GfBase.Base.StoreComplementaryCrc` | lib/crcutil/gf_util.h:113-128 | with a constant term in P the message and the stored bytes have the wanted CRC |
| `GfBase.ReachesAllExactly` | lib/crcutil/gf_util.h:113-128 | storing the complement reaches every CRC if and only if P has a constant term |
| `GfBase.SomeCrcUnreachable` | lib/crcutil/gf_util.h:113-128 | otherwise some CRC belongs to no non-empty message |
| `Crc.RawLinear` | lib/crcutil/generic_crc.h:35-38 | a change of the register before a message arrives multiplied by x^(8 * length) |
| `Remainder.RawIsRemainder` | lib/crcutil/generic_crc.h:204-214 | for every polynomial, start value and message the register is the remainder of x^(8*length)*start + x^D*message, the first bit of the message being the highest coefficient |
| `Remainder.ResidueUnique` | lib/crcutil/generic_crc.h:204-214 | there is only one remainder below x^D |
| `Remainder.OneBitMessage` | lib/crcutil/gf_util.h:36-53 | for every 32-bit P the canonical CRC of the bytes ff ff ff 7f is the complement of P |
| `Remainder.CastagnoliTerms` | lib/crcutil/crc32c_sse4.h:139-141 | the polynomial of CRC-32C is x^32 + x^28 + x^27 + x^26 + x^25 + x^23 + x^22 + x^20 + x^19 + x^18 + x^14 + x^13 + x^11 + x^10 + x^9 + x^8 + x^6 + 1 |
| `Crc.RawWord` | lib/crcutil/generic_crc.h:46-61 | any number of bytes can be fed in as one little-endian number |
| `Crc.ChangeStartValueCorrect` | lib/crcutil/gf_util.h:90-96 | agrees with the byte loop over the real bytes |
| `Crc.ConcatenateCorrect` | lib/crcutil/gf_util.h:98-105 | agrees with the byte loop over both messages |
| `Crc.CrcOfZeroesCorrect` | lib/crcutil/gf_util.h:107-111 | agrees with the byte loop over zeroes |
| `Crc.StoredCrcIsConstant` | lib/crcutil/gf_util.h:130-149 | the CRC of a message followed by its CRC is the same constant for all messages and start values |
| `Crc.ComplementReaches` | lib/crcutil/gf_util.h:113-128 | with a true inverse every CRC is reached |
| `GenericCrc.FillRow` | lib/crcutil/generic_crc.h:149-162 | a table row filled by doubling holds the byte products |
| `GenericCrc.FillTable` | lib/crcutil/generic_crc.h:149-185 | the whole table does |
| `GenericCrc.LookUpWord` | lib/crcutil/generic_crc.h:46-61 | looking all bytes of a word up multiplies it by the table's power of x |
| `GenericCrc.ByteLookup` | lib/crcutil/generic_crc.h:35-38 | the table step for a byte is eight shifts |
| `GenericCrc.WideStep` | lib/crcutil/generic_crc.h:46-61 | a register wider than a word: looking up its low word and shifting the rest is the word step |
| `GenericCrc.Engine.constructor` | lib/crcutil/generic_crc.h:128-187 | both tables hold what the loops need |
| `GenericCrc.Engine.CrcByte` | lib/crcutil/generic_crc.h:206-213 | the byte loop computes the defined CRC |
| `GenericCrc.Engine.CrcWord` | lib/crcutil/generic_crc.h:289-328 | equals the byte loop for every input, start value and alignment |
| `GenericCrc.Engine.CrcBlockword` | lib/crcutil/generic_crc.h:344-454 | the striped form equals the byte loop for every input, start value and alignment, also with registers wider than a word |
| `GenericCrc.Engine.CrcMultiword` | lib/crcutil/generic_crc.h:457-586 | the interleaved form with its look-ahead loads, and its carry between lanes where registers are wider than a word, equals the byte loop for every stride, length, start value and alignment |
| `GenericCrc.RawBlock` | lib/crcutil/generic_crc.h:498-551 | a block of words is the sum of its lanes |
| `GenericCrc.NextBlock` | lib/crcutil/generic_crc.h:498-551 | one round of the interleaved loop keeps the sum of the lanes and the carry |
| `GenericCrc.Engine.MapLanes` | lib/crcutil/generic_crc.h:502-550 | passing what is above each lane's word to the next lane leaves their sum as it is |
| `GenericCrc.Engine.Join` | lib/crcutil/generic_crc.h:557-568 | joining the lanes gives the register after the last block |
| `Crc32c.NewMul` | lib/crcutil/crc32c_sse4.cc:282-297 | row t of a multiplication table multiplies byte t of a register by x^(8 * stripe) |
| `Crc32c.MultiplyCrc` | lib/crcutil/crc32c_sse4.cc:67-94 | the two-path lookup multiplies the register by that power |
| `Crc32c.StripesJoined` | lib/crcutil/crc32c_sse4.cc:100-112 | combining the stripe registers gives the register after the block |
| `Crc32c.AtHas` | lib/crcutil/crc32c_sse4.cc:67-94 | after one word of data a register has 32 bits, whatever it held, so the unmasked lookup stays inside the table |
| `Crc32c.Engine32c.OneBlock` | lib/crcutil/crc32c_sse4.cc:114-156 | one block of three stripes, unrolled part and rest |
| `Crc32c.Engine32c.ProcessBlocks` | lib/crcutil/crc32c_sse4.cc:114-156 | all whole blocks are consumed |
| `Crc32c.Engine32c.Crc32c` | lib/crcutil/crc32c_sse4.cc:158-276 | equals the byte-at-a-time CRC-32C on every input, alignment and start value of a word, through every jump, block size and tail |
| `Crc32c.Engine32c.constructor` | lib/crcutil/crc32c_sse4.cc:279-311 | the tables for the Castagnoli polynomial hold what the loops need |
| `RollingCrc.RollMovesWindow` | lib/crcutil/rolling_crc.h:56-59 | one roll turns the CRC of a window into the CRC of the next |
| `RollingCrc.RollingIsFromScratch` | lib/crcutil/rolling_crc.h:51-84 | over every run of rolls the value is the CRC of the current window from scratch, for every window length (also zero), start value and canonical setting |
| `RollingCrc.FillOut` | lib/crcutil/rolling_crc.h:67-80 | the correction table holds the correction for each byte that leaves |
| `RollingCrc.Roller.constructor` | lib/crcutil/rolling_crc.h:61-84 | both tables are right |
| `RollingCrc.Roller.Start` | lib/crcutil/rolling_crc.h:51-54 | the CRC of the first window |
| `RollingCrc.Roller.Roll` | lib/crcutil/rolling_crc.h:56-59 | one roll by table lookup |
| `ManagedRingBuffer.WrittenUnwrapped` | lib/fles_core/ManagedRingBuffer.hpp:47-50 | a stretch that does not reach the border is one copy |
| `ManagedRingBuffer.WrittenWrapped` | lib/fles_core/ManagedRingBuffer.hpp:51-56 | one that does is two |
| `ManagedRingBuffer.RingBuffer.SizeAvailableContiguous` | lib/fles_core/ManagedRingBuffer.hpp:31-39 | the result is at least n if and only if n entries fit in one stretch here or from the start of the ring |
| `ManagedRingBuffer.CanPlaceExactly` | lib/fles_core/ManagedRingBuffer.hpp:31-39 | n entries count as placeable if and only if some place at or behind the write index holds them without wrapping and without reaching what is unread |
| `ManagedRingBuffer.RingBuffer.Append` | lib/fles_core/ManagedRingBuffer.hpp:47-58 | slot by slot, the entries are at the next positions and every other slot is unchanged |
| `ManagedRingBuffer.RingBuffer.SkipBufferWrap` | lib/fles_core/ManagedRingBuffer.hpp:62-69 | the write index moves to the first position from which n entries do not wrap; if they could be placed they fit there |
| `RingMath.DrainedFitsExactly` | lib/fles_core/ManagedRingBuffer.hpp:31-39 | a stretch fits into a drained ring at every position if and only if it is at most half the ring, rounded up |
| `ManagedTimesliceBuffer.StorePartKeeps` | lib/fles_core/ManagedTimesliceBuffer.cpp:82-96 | storing a component that fits overwrites nothing outstanding |
| `ManagedTimesliceBuffer.CompleteKeeps` | lib/fles_core/ManagedTimesliceBuffer.cpp:38-54 | a completion in any order keeps the invariant |
| `ManagedTimesliceBuffer.OutstandingIntact` | lib/fles_core/ManagedTimesliceBuffer.cpp:38-104 | over every run each component of an outstanding timeslice has its descriptor in its slot, with the timeslice number and the number of microslices it was put with, and lies in one unwrapped stretch, byte for byte as it was put |
| `ManagedTimesliceBuffer.PutsAre` | lib/fles_core/ManagedTimesliceBuffer.cpp:67-104 | the timeslices put are those of the calls that found room, in order |
| `ManagedTimesliceBuffer.FitsExactly` | lib/fles_core/ManagedTimesliceBuffer.cpp:56-65 | a timeslice fits if and only if every component has a place in its ring and a descriptor slot is free |
| `ManagedTimesliceBuffer.PutExactly` | lib/fles_core/ManagedTimesliceBuffer.cpp:75-80 | a timeslice is stored after the first poll after which it fits, and only then |
| `ManagedTimesliceBuffer.OpenExactly` | lib/fles_core/ManagedTimesliceBuffer.cpp:38-54 | completions are taken for exactly the items sent and not completed, in any order |
| `ManagedTimesliceBuffer.EmptyExactly` | lib/fles_core/ManagedTimesliceBuffer.hpp:36-37 | over every run the buffer is empty if and only if every work item was completed |
| `ManagedTimesliceBuffer.DrainedAccepts` | lib/fles_core/ManagedTimesliceBuffer.cpp:56-65 | once all items are completed, components of at most half a ring fit |
| `ManagedTimesliceBuffer.DrainedFitsIff` | lib/fles_core/ManagedTimesliceBuffer.cpp:56-65 | a drained buffer takes a timeslice if and only if every component fits behind or before its ring's write position |
| `ManagedTimesliceBuffer.DrainedRefusesForever` | lib/fles_core/ManagedTimesliceBuffer.cpp:75-80 | a timeslice that a drained buffer does not take is never taken, however long put polls |
| `ManagedTimesliceBuffer.RefusalReachable` | lib/fles_core/ManagedTimesliceBuffer.cpp:67-104 | half a ring put and completed is a run after which every larger component is refused for ever |
| `ManagedTimesliceBuffer.FullExactly` | lib/fles_core/ManagedRingBuffer.hpp:26-29 | a put leaves a ring completely full exactly when it takes all the room that is left |
| `ManagedTimesliceBuffer.FullReachable` | lib/fles_core/ManagedRingBuffer.hpp:26-29 | such a state is reachable |
| `ManagedTimesliceBuffer.TimesliceStore.Put` | lib/fles_core/ManagedTimesliceBuffer.cpp:67-104 | rejects a wrong number of components, polls until the timeslice fits, then stores all components in place in their ring objects and counts it; the timeslices put grow by exactly this one |
| `ManagedTimesliceBuffer.StorePart` | lib/fles_core/ManagedTimesliceBuffer.cpp:85-95 | skipping, copying the data and appending the descriptor in place leave the two rings as the model of the buffer says |
| `ManagedTimesliceBuffer.GiveBack` | lib/fles_core/ManagedTimesliceBuffer.cpp:45-49 | the read indices of both rings move to the end of the last acknowledged component |
| `ManagedTimesliceBuffer.TimesliceStore.HandleTimesliceCompletions` | lib/fles_core/ManagedTimesliceBuffer.cpp:38-54 | the in-place reorder ring and the read indices end in the abstract state |
| `ManagedTimesliceBuffer.TimesliceStore.TimesliceFitsInBuffer` | lib/fles_core/ManagedTimesliceBuffer.cpp:56-65 | true if and only if every component and its descriptor fit |
| `ManagedTimesliceBuffer.TimesliceStore.Empty` | lib/fles_core/ManagedTimesliceBuffer.hpp:36-37 | true if and only if all items were completed |
| `MicrosliceRing.ReceivedIsPrefix` | lib/fles_core/MicrosliceTransmitter.cpp:15-58 | for every interleaving of the single accesses of both processes (a byte, a descriptor, its offset, an index), with cached indices refreshed at any time and full turns past the end of the ring included: what was received is a prefix of what was put, nothing published and unread is overwritten, and a read in progress is never torn |
| `MicrosliceRing.ApplyKeeps` | lib/fles_core/MicrosliceReceiver.cpp:14-62 | every access of either process keeps the invariant |
| `MicrosliceRing.WriteLeaves` | lib/fles_core/MicrosliceTransmitter.cpp:33-52 | no access of the transmitter changes an unread microslice |
| `MicrosliceRing.ByteLeaves` | lib/fles_core/MicrosliceTransmitter.cpp:33-49 | storing a byte leaves every earlier stretch alone that is at most one turn long together with the one being written; a full turn has the ring for itself |
| `MicrosliceRing.CopiedIsFilled` | lib/fles_core/MicrosliceTransmitter.cpp:33-49 | byte after byte amounts to the copy in segments, full turn included |
| `MicrosliceRing.PutIsSteps` | lib/fles_core/MicrosliceTransmitter.cpp:15-58 | every call of the transmitter is a sequence of those accesses |
| `MicrosliceRing.GetIsSteps` | lib/fles_core/MicrosliceReceiver.cpp:14-62 | a call of the receiver is one too |
| `MicrosliceRing.CopyIn` | lib/fles_core/MicrosliceTransmitter.cpp:33-49 | the copy in one or two segments writes exactly the content's positions, or, for a full turn, runs past the end of the ring |
| `MicrosliceRing.CopyOut` | lib/fles_core/MicrosliceReceiver.cpp:24-50 | the copy in one or two segments returns exactly the bytes from the offset on, or, for a full turn, those behind the ring |
| `MicrosliceRing.OneSegmentExactly` | lib/fles_core/MicrosliceTransmitter.cpp:35-39 | a copy taken for one segment stays inside the ring if and only if it is not a full turn: content as large as the ring that starts elsewhere than at its beginning |
| `MicrosliceRing.OverrunExactly` | lib/fles_core/MicrosliceTransmitter.cpp:33-49 | a put leaves the memory behind the ring alone, whatever the content, if and only if it is not a full turn |
| `MicrosliceRing.FullTurnReachable` | lib/fles_core/MicrosliceTransmitter.cpp:35-39 | a full turn that the transmitter accepts is reachable |
| `MicrosliceRing.DrainedAccepts` | lib/fles_core/MicrosliceTransmitter.cpp:15-31 | a drained ring accepts a microslice if and only if it is not larger than the ring |
| `MicrosliceRing.InvAllows` | lib/fles_core/MicrosliceReceiver.cpp:14-30 | in every reachable state the indices are in order and the next entry is one the copy handles |
| `MicrosliceRing.PutExactly` | lib/fles_core/MicrosliceTransmitter.cpp:15-31 | in every reachable state a put is accepted if and only if what is unread leaves a descriptor slot and enough bytes; the cached index changes no answer |
| `MicrosliceRing.GetExactly` | lib/fles_core/MicrosliceReceiver.cpp:14-62 | in every reachable state a get returns something if and only if something is unread, and then the next microslice put |
| `MicrosliceRing.Transmitter.Put` | lib/fles_core/MicrosliceTransmitter.cpp:15-58 | the call on the objects is the call of the model |
| `MicrosliceRing.Receiver.Get` | lib/fles_core/MicrosliceReceiver.cpp:14-62 | likewise |

## Left out

- Wrap-around of the 64-bit counters themselves: positions count up without bound; only the space test is modelled modulo 2^64. The timeslice number in a work request id, which has 40 bits, is unbounded too.
- Status messages and payloads are taken when they are posted; the program hands the adapter pointers. `Runs.SourceKept` proves that the payload is unchanged until its write completes; the status buffers are not modelled as memory.
- Connection setup, memory registration, event channels and the verbs calls; kept is in-order delivery per connection and one completion per write.
- The limit on pending status sends at the compute node and the counting of finished connections.
- Debug mode that drops work items, timers, sleeps, signals, reports and monitoring.
- Weak memory ordering between the transmitter and the receiver: accesses are taken in some interleaved order.
- That the scheduler finds the continuations that `Refusal.CompleteExactly` and `Ending.CanEndExactly` speak of: fairness of polling is not modelled.
- `Crc32c.Engine32c.Crc32c`: the crc32 instruction is the software word step.
- `MicrosliceRing.ReceivedIsPrefix`: takes it that nobody else uses the memory behind the ring, which a full turn overwrites.
- `ManagedTimesliceBuffer.TimesliceStore.Put`: what each poll receives is a parameter, and running out of polls means it is still waiting.
- The unrolled byte loop, the byte-word loop, the assembly variants and the 128-bit type of the CRC library: the same laws with other loops. Polynomials of degree below 8.
- `lib/fles_libfabric` and `lib/fles_zeromq`: other transports.
- Archives, serialization, publishers, pattern checkers, analyzers and device access.
