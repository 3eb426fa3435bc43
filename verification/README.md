# Verified models of the MACSAD data plane and control channel

MACSAD compiles P4 programs to C and runs the result on ODP, with a small protocol between switch
and controller. This project models the parts of it whose correctness spans several functions and
proves what they keep. The host is little-endian; ODP is seen through its results.

| files | what they model |
|---|---|
| Words, FieldMacros, HeaderRecord | the field access macros over byte memory: masks, shifts, the two encodings, and headers as records of independent integers |
| FieldCache, PacketDescriptor | the 32-bit cache of parsed fields: the generated actions, parser loads and write-back, and every step done on the packet instead |
| CacheCoherence, CacheExactness, CacheLeaks | for which programs the two are the same: the refinement, and a failing run for every program outside the condition |
| CacheSequences, HostOrderCopy | packets one after another through one descriptor; what copies in host order mean |
| Fifo, CellPool, Backend | the ring queue, the two linked lists of message cells, and all interleavings of the switch's threads over them |
| L2Learning, L2Delivery | the learning protocol from packet to installed entry as interleaved steps: what holds in every run, and what is achieved when nothing is lost |
| Messages, MessageBuilder, MessageHandlers, DefaultMessage, SockHelpers, Digests | the control messages byte by byte: builders, decoder, framed stream, digests |
| FieldLists, FieldListBuffer, CalculatedFields, OnesComplement | generated checksum inputs, calculated fields, and the two checksum functions of the tools |
| Worker, WorkerLedger, WorkerForwarding | the packet ledger of a worker thread, and what each port transmits |
| Affinity | assignment of interfaces and queues to workers |
| TableKeys, KeyAgreement, Replicas | lookup keys on both sides, and replicated tables |

Code that changes state in the source is a method on a class or an array, tied by its contract to
a function on values; the properties are proved about those functions.

Where a property fails outside a condition, the condition is proved exact (an if-and-only-if), or
a lemma gives the failing input:

- the cache: CacheExactness.CoherenceIsExact, CacheSequences.NoFaultIff, CacheLeaks.NarrowSourceLeaks,
  CacheSequences.CountedFieldFaultsLater, HostOrderCopy.CopyAssignsIff, HostOrderCopy.MaskedCopyClears,
  FieldCache.FaultsIff
- the control channel: Backends.DropFreeIffPoolFits, Backends.RunFaultsIff,
  L2Learning.LearningIsSafeIff, L2Delivery.LearnedIsFinal, MessageHandlers.HandleOverrunsIff,
  SockHelpers.AllDeliveredIff,
  Digests.LearnedPort
- checksums and keys: FieldLists.PlanOkIff, FieldListBuffer.AlignmentIsExact, OnesComplement.ChecksumsAgreeIff,
  CalculatedFields.VerifyAfterUpdate, KeyAgreement.KeysAgreeIff
- workers: WorkerLedger.RoundIsCleanIff, WorkerLedger.RunFaultsIff, Affinity.NoSharingIff

Coherence is computed from the steps of a program that can run with the headers of a packet. A slot
is live when some step flags it, and a bit of it can move when some step assigns it through the slot
(above the width of the field: only if a constant, a mask or a carry reaches it). A program is
coherent when parameters are written to fields without a live slot only; conditions and keys read
fields none of whose bits can move, and digests bytes without such a bit; copies inside one class take
only bits that cannot move from a live field, and do nothing to a live field but clear bits that are
clear whenever it is flagged; and additions and copies to metadata read no bit above the width of their
source that can move. A masked copy into a one-byte field takes its bits from further up, by the
distance from the end of the field to the end of its byte, so that onto a live field it counts as
clearing every bit.

The order of steps and the values of packets play no part in this condition: of a program outside it
some run on some packet goes wrong, not every one. Runs are all sequences of the program's steps, with
any repetition. A P4 control flow applies each table at most once to a packet, so its runs are among
them: coherent programs are handled transparently under it, and the failing run of a program outside
the condition may repeat a step more often than one control flow can.

The code and its own comments differ in these places, and the model follows the code: an error
result of odp_pktout_send is stored in an unsigned variable, so the test for it never holds
(main_odp.c:126-131); the validity guard of the write-back is commented out, so a flag left over from
an earlier packet, or set by an action on a header that is not there, writes through a null header
(dataplane.c.py:283); csum16 lengths are cut to 16 bits (odp_lib.c:896); the branch for one byte of the
host-order write does not parenthesise its parameter, so a mask is shifted and the value is not
(odp_primitives.h:55, actions.c.py:165).

`dafny verify dfyconfig.toml` checks the whole project.

## Model

| member | source | states |
|---|---|---|
| FieldMacros.FieldMask | src/utils/hlir.py:149-158 | the bit-setting loop yields exactly the bits of the field in a little-endian load; a field past four bytes or of variable width gets the empty mask |
| FieldMacros.MaskParts | src/hardware_dep/odp/includes/odp_primitives.h:32-34 | the three masks cut the field at its byte boundaries |
| FieldMacros.ModifyAt | src/hardware_dep/odp/includes/odp_primitives.h:51-78 | bit by bit, both write macros put each bit of the value at its one place in the field and keep every other bit, for every offset and width up to 32 bits in all |
| FieldMacros.MaskedCallWrites | src/hardware_dep/odp/includes/odp_primitives.h:51-66 | modify_field calls the host-order write with the text `value32 & mask`; in the branch for one byte the shift takes the mask alone, so what is written is the value shifted down by the distance of the field to the end of its byte, and then masked |
| FieldMacros.ExtractAt | src/hardware_dep/odp/includes/odp_primitives.h:95-116 | bit by bit, both read macros take each value bit from that place and zero the rest |
| FieldMacros.GetAutoReadsTheSame | src/hardware_dep/odp/includes/odp_primitives.h:86-93 | the differently written GET_INT32_AUTO reads the same value, for metadata and packet fields |
| FieldMacros.PlaceIsBijection | src/hardware_dep/odp/includes/odp_primitives.h:32-34 | places and value bits correspond one to one, in both encodings: the mask split is a bijection between the bits of the field and 0 .. 2^w-1 |
| HeaderRecord.FieldOffsets | src/utils/hlir.py:137-147 | offsets are the prefix sums of the widths, a variable-width field counting as the bits that fill up the fixed ones to whole bytes |
| HeaderRecord.BitOffsetsFitAnyWidth | src/hardware_indep/parser.h.py:73-79 | whatever width the variable field takes, if the header is whole bytes every field starts at the bit of its byte that the array says |
| HeaderRecord.FieldsAreDisjoint | src/hardware_indep/parser.h.py:73-79 | offset and byte arrays never give two fields a common bit |
| HeaderRecord.WriteFieldAt | src/hardware_dep/odp/includes/odp_primitives.h:53-78 | a write changes the bits of its own field and no other bit of memory |
| HeaderRecord.ReadAfterWrite | src/hardware_dep/odp/includes/odp_primitives.h:51-116 | reading back what was written gives the value modulo 2^w, in either encoding |
| HeaderRecord.WriteKeepsOthers | src/hardware_dep/odp/includes/odp_primitives.h:51-78 | every disjoint field reads as before |
| HeaderRecord.HeaderIsARecord | src/hardware_dep/shared/includes/dataplane.h:92-110 | any sequence of writes and reads of fields of at most 32 bits of a packed header gives the results of a record of independent integers modulo 2^w, whatever other fields the header has |
| HeaderRecord.RunStaysInHeader | src/hardware_dep/odp/includes/odp_primitives.h:70-78 | no sequence of writes changes a bit outside the header, or a bit of it that no write is to |
| HeaderRecord.RecordIsInNetworkOrder | src/hardware_dep/odp/includes/odp_primitives.h:68-78 | the value of a packet field is its big-endian bits from the prefix-sum offset on |
| FieldCache.FlushAt | src/hardware_indep/dataplane.c.py:277-287 | update_packet bit by bit: a marked slot overrides the bits of its field, every other bit stays |
| FieldCache.RunFlags | src/hardware_indep/actions.c.py:38-59 | the flags after a run are those before it and those of the slots its steps read or assign, whether or not the headers are there |
| FieldCache.RunsAllIff | src/hardware_indep/actions.c.py:38-59 | a run dereferences and flags fields of extracted headers only, if and only if all operands of its steps belong to extracted headers |
| FieldCache.FaultsIff | src/hardware_indep/dataplane.c.py:277-287 | a packet faults if and only if a flag is left over for a header it lacks, or some step of its run has an operand in such a header |
| FieldCache.DirectStepValues | src/hardware_indep/actions.c.py:132-259 | what a step done on the packet means for values: every primitive but a copy inside one class assigns its destination the value it names, modulo 2^w, and leaves every other field as it was |
| CacheCoherence.StepAgrees | src/hardware_indep/actions.c.py:132-259 | every step of a coherent program keeps the generated state standing for the packet, and reads the same values |
| CacheCoherence.FlushRestores | src/hardware_indep/dataplane.c.py:277-287 | writing the marked slots back turns a state that stands for a packet into that packet |
| CacheCoherence.DigestAgrees | src/hardware_indep/actions.c.py:364-391 | a digest, which copies whole bytes, sends the same bytes as directly on the packet, beside coherent steps |
| CacheCoherence.CacheRefinesDirect | src/hardware_indep/dataplane.c.py:277-287 | for every coherent program, every packet and every run, with the parameters of that packet: parse, cached actions and write-back give the packet and the observed values of doing each step directly, and fault where that reads or writes a header the packet lacks |
| CacheCoherence.UnflaggedIsCoherent | src/hardware_indep/actions.c.py:155-208 | programs that flag no slot are coherent: parameters and copies inside one class are safe even on cached fields |
| CacheExactness.MovedBit | src/hardware_indep/actions.c.py:38-59 | whenever a step can change a bit of a slot, some packet and number of executions make it differ from the loaded field |
| CacheExactness.IncoherentStepBreaks | src/hardware_indep/actions.c.py:132-259 | every step outside the condition has a run of the program, on a fresh packet, that sends or sees something wrong |
| CacheExactness.CoherenceIsExact | src/hardware_indep/actions.c.py:132-259 | for every program and set of extracted headers: all packets and runs are handled as if each step had worked on the packet, if and only if the program is coherent; with or without leftovers of earlier packets |
| CacheLeaks.NarrowSourceLeaks | src/hardware_indep/actions.c.py:234-242 | the shortest counterexample outside the condition, on every packet: an overflowed narrow field leaks into a wider one |
| CacheSequences.PacketLeavesItsFlags | src/hardware_indep/dataplane.c.py:277-287 | a packet that gets through leaves the flags of its own run and no other |
| CacheSequences.MarksAreOperands | src/utils/hlir.py:24-35 | from a fresh descriptor a run that gets through leaves flagged exactly the packet fields of at most 32 bits that some constant assignment, addition, or copy between packet and metadata of the run has as operand |
| CacheSequences.NoFaultIff | src/hardware_indep/dataplane.c.py:277-287 | over any sequence of packets through one descriptor none faults, if and only if the actions of each keep to its own headers and each packet extracts every header with a field flagged by the packet before it |
| CacheSequences.AbsentHeaderFaults | src/hardware_indep/actions.c.py:234-242 | from a fresh descriptor: an addition to a cached field of a header that the packet lacks goes through on the slot, and the write-back faults |
| CacheSequences.SecondPacketFaults | src/hardware_indep/dataplane.c.py:283 | from a fresh descriptor: one packet that flags a field and one that lacks its header, and the second faults |
| CacheSequences.CountedFieldFaultsLater | src/utils/hlir.py:24-35 | a program that adds a constant to a packet field: one packet with that header counted down, the next without it faults |
| CacheSequences.SequenceIsDirectIff | src/hardware_indep/dataplane.c.py:325-334 | a coherent program handles a whole sequence as direct execution does, if and only if runs and flags meet their headers in that way |
| HostOrderCopy.CopyAssignsIff | src/hardware_indep/actions.c.py:162-165 | a copy inside one class assigns the masked value on every packet if and only if the host encodings of both fields put its bits in the same places |
| HostOrderCopy.PlainCopyAssignsIff | src/hardware_indep/actions.c.py:162-165 | between metadata fields, and between fields inside one byte, it does if and only if there is no mask, the destination has more bytes or ends its byte, or the mask has no bit that both fields have |
| HostOrderCopy.MaskedCopyClears | src/hardware_indep/actions.c.py:162-165 | the failing inputs: a four-bit field at the start of its byte copied to itself with any mask is cleared, and so is a one-bit flag at the start of its byte |
| HostOrderCopy.MaskedSelfCopyIsIncoherent | src/hardware_indep/actions.c.py:162-165 | adding to a cached field that does not end its byte and masking it onto itself is incoherent; without the mask it is coherent |
| HostOrderCopy.SameShapeCopyAssigns | src/hardware_indep/actions.c.py:162-165 | between fields of one width and bit offset it does without a mask |
| HostOrderCopy.ByteToShortShifts | src/hardware_indep/actions.c.py:162-165 | an 8-bit packet field copied to a 16-bit one reads as 256 times its value |
| PacketDescriptors.PacketDescriptor.ModifyInt32 | src/hardware_indep/actions.c.py:38-45 | in place: the slot and its flag, whether or not the header is there, or the packet; a null pointer if neither |
| PacketDescriptors.PacketDescriptor.ExtractInt32 | src/hardware_indep/actions.c.py:47-59 | in place: reading a slot sets its flag; a null pointer if there is neither slot nor header |
| PacketDescriptors.PacketDescriptor.Execute | src/hardware_indep/actions.c.py:132-259 | the emitted code of one primitive does GeneratedStep in place, or meets a null pointer exactly when it needs memory of a header that is not there |
| PacketDescriptors.PacketDescriptor.LoadSlots | src/hardware_indep/parser.c.py:128-138 | the parser loads the slots of extracted headers and clears their flags |
| PacketDescriptors.PacketDescriptor.WriteBack | src/hardware_indep/dataplane.c.py:277-287 | update_packet writes marked slots back in field order |
| PacketDescriptors.PacketDescriptor.HandlePacket | src/hardware_indep/dataplane.c.py:325-334 | the whole path in place is HandlePacket of the model; slots and flags are those the next packet finds |
| PacketDescriptors.PacketDescriptor.Receive | src/hardware_dep/odp/main_odp.c:243-252 | a new packet changes the buffer and the headers, not the slots and flags |
| PacketDescriptors.PacketDescriptor.HandleAll | src/hardware_indep/dataplane.c.py:325-334 | packet after packet in place is HandleAll of the model, each buffer left as its outcome says |
| Fifos.Fifo.AddMsg | src/hardware_dep/shared/ctrl_plane/fifo.c:47-60 | appends, or silently drops at 1024 elements |
| Fifos.Fifo.RemoveMsg | src/hardware_dep/shared/ctrl_plane/fifo.c:62-77 | removes the oldest element, or returns none |
| Fifos.ServedInOrder | src/hardware_dep/shared/ctrl_plane/fifo.c:47-77 | over any sequence of adds and removes the elements whose add found room come out in order, each once, and the rest of them wait: a full queue loses the newest element |
| Fifos.Fifo.constructor | src/hardware_dep/shared/ctrl_plane/fifo.c:18-38 | an empty ring whose tail is -1 |
| CellPools.CellPool.constructor | src/hardware_dep/shared/ctrl_plane/ctrl_plane_backend.c:167-182 | a free list of cells whose 2048-byte slices do not overlap and stay in the buffer |
| CellPools.CellPool.TouchMemCell | src/hardware_dep/shared/ctrl_plane/ctrl_plane_backend.c:290-311 | the first free cell becomes the first used one; both lists stay well formed and disjoint |
| CellPools.CellPool.DetouchMemCell | src/hardware_dep/shared/ctrl_plane/ctrl_plane_backend.c:313-330 | a used cell at any position is unlinked and becomes the first free one; both lists stay well formed and disjoint |
| CellPools.CellPool.RunPool | src/hardware_dep/shared/ctrl_plane/ctrl_plane_backend.c:290-330 | any sequence of both operations does to the linked lists what DoAll does to sequences |
| CellPools.RunKeepsCells | src/hardware_dep/shared/ctrl_plane/ctrl_plane_backend.c:290-330 | no sequence of operations loses, doubles or invents a cell |
| Backends.StepKeepsInv | src/hardware_dep/shared/ctrl_plane/ctrl_plane_backend.c:72-143 | every step of every thread keeps each cell in exactly one place and each queue equal to what was added and not yet taken |
| Backends.SwitchQueuesNeverDrop | src/hardware_dep/shared/ctrl_plane/ctrl_plane_backend.c:72-143 | over every interleaving with 1000 cells, up to a fault: one place per cell, no add is ever dropped, removals are a prefix of insertions, processors release only used cells; read errors included |
| Backends.RunFaultsIff | src/hardware_dep/shared/ctrl_plane/ctrl_plane_backend.c:101-108 | a run ends in a null cell or digest exactly when its last step touches the pool with all cells in custody, or gives up a digest whose name, value or number of fields is too large |
| Backends.ReadErrorsExhaustPool | src/hardware_dep/shared/ctrl_plane/ctrl_plane_backend.c:101-108 | every read error costs a cell for good: for any pool size that many errors and one more message fault |
| Backends.DropFreeIffPoolFits | src/hardware_indep/controlplane.c.py:158 | for any pool size: no run drops a message if and only if the pool has at most 1024 cells |
| L2Learning.StepKeepsOrder | src/hardware_dep/shared/ctrl_plane/mac_controller.c:91-106 | no step breaks the order dmac before smac in any queue, the stream or the installer |
| L2Learning.LearningIsSafe | src/hardware_dep/shared/ctrl_plane/mac_controller.c:272-285 | in every reachable state under any interleaving a MAC in smac is in dmac, unless its dmac message was dropped by a full controller queue or lost on the way, and each dmac port is one where the MAC was seen or configured |
| L2Learning.OverflowBreaksLearning | src/hardware_dep/shared/ctrl_plane/controller.c:234-249 | a run in which a full output queue leaves a MAC in smac and not in dmac: the exception is real |
| L2Learning.LossBreaksLearning | src/hardware_dep/shared/ctrl_plane/ctrl_plane_backend.c:94-101 | one failed read between controller and switch is enough for the same |
| L2Learning.LearningIsSafeIff | src/hardware_dep/shared/ctrl_plane/controller.c:234-249 | for a bound on file entries and packets from unlearned sources together, beside the two entries of main, and a bound on lost messages: every run within them keeps smac inside dmac if and only if the first is at most 509 and the second is zero |
| L2Delivery.LearningKeepsOrder | src/hardware_dep/shared/ctrl_plane/ctrl_plane_backend.c:117-143 | in every run without a loss or a full queue: the digests sent are those answered, then those waiting at the controller, on the stream and at the switch, in order; entries are sent in order; with no message on its way the port of a MAC in dmac is that of its last digest answered or entry sent, and MACs without one are not in it |
| L2Delivery.LearningCompletes | src/hardware_dep/shared/ctrl_plane/mac_controller.c:91-106 | once all is delivered every digest is answered and every entry sent, and both tables hold exactly the MACs learned or configured, dmac with the last port of each |
| L2Delivery.HeardIsLearned | src/hardware_dep/shared/ctrl_plane/mac_controller.c:180-202 | the source of every packet that comes once the default action of smac is set is in both tables when all is delivered |
| L2Delivery.LearnedIsFinal | src/hardware_dep/shared/ctrl_plane/mac_controller.c:91-106 | from there on, whatever happens, a MAC in the tables keeps its port and no digest about it is sent: a host that moves is not learned again |
| MessageBuilder.CreateP4Header | src/hardware_dep/shared/ctrl_plane/messages.c:23-32 | version, type, length and xid of a fresh header, or failure without room |
| MessageBuilder.CreateAddTableEntry | src/hardware_dep/shared/ctrl_plane/messages.c:52-61 | the entry header, an empty name and no matches; needs one byte more than its size |
| MessageBuilder.AddFieldMatch | src/hardware_dep/shared/ctrl_plane/messages.c:67-76 | reserves the struct at the header length, counts it and sets its type, or changes nothing without room (five functions of one shape) |
| MessageBuilder.AddAction | src/hardware_dep/shared/ctrl_plane/messages.c:227-236 | the empty action at the header length |
| MessageBuilder.AddActionParameter | src/hardware_dep/shared/ctrl_plane/messages.c:242-251 | reserves a parameter and counts it in its action |
| MessageBuilder.NetconvHeader | src/hardware_dep/shared/ctrl_plane/messages.c:34-39 | swaps length and xid in place |
| MessageBuilder.NetconvMatch | src/hardware_dep/shared/ctrl_plane/messages.c:103-131 | swaps the length of a known match and returns its struct size, zero for an unknown type |
| MessageBuilder.NetconvParam | src/hardware_dep/shared/ctrl_plane/messages.c:142-145 | swaps the length of a parameter |
| MessageBuilder.DraftGrows | src/hardware_dep/shared/ctrl_plane/messages.c:67-76 | the new match joins the ones before it; the 8-bit count never wraps below a 16-bit length |
| MessageBuilder.EntryGrows | src/hardware_dep/shared/ctrl_plane/messages.c:242-251 | the new parameter joins the ones before it; its count never wraps either |
| MessageBuilder.BuildEntry | src/hardware_dep/shared/ctrl_plane/mac_controller.c:56-89 | building in the order matches, action, parameters and converting every part succeeds exactly when the sum of the part sizes fits, and leaves exactly that entry in network order with that header length |
| MessageHandlers.Handle | src/hardware_dep/shared/ctrl_plane/handlers.c:19-62 | the decoder in place, its error codes included, is HandleP4Msg, for every message that does not lead out of the buffer |
| MessageHandlers.HandleAddTableEntry | src/hardware_dep/shared/ctrl_plane/handlers.c:93-140 | the walk over matches, action and parameters in place |
| MessageHandlers.HandleSetDefaultAction | src/hardware_dep/shared/ctrl_plane/handlers.c:64-91 | the walk over the parameters in place |
| MessageHandlers.RoundTrip | src/hardware_dep/shared/ctrl_plane/handlers.c:19-62 | every built entry decodes to the same names, lengths, bitmaps, counts and order, in host order; with more than ten matches it is rejected with -1, with more than ten parameters with -2 |
| MessageHandlers.NamesReadBack | src/hardware_dep/shared/ctrl_plane/handlers.c:93-140 | the strings at the delivered addresses are the names of the entry, whole |
| MessageHandlers.HandleOverrunsIff | src/hardware_dep/shared/ctrl_plane/handlers.c:19-140 | the decoder leads out of the buffer exactly when the counts and type codes of an accepted message reach behind its end |
| MessageHandlers.HandleOutcome | src/hardware_dep/shared/ctrl_plane/handlers.c:19-140 | every message that stays inside the buffer is delivered, or rejected with the code that its bytes alone decide |
| DefaultMessages.BuildDefault | src/hardware_dep/shared/ctrl_plane/mac_l2_l3_controller.c:170-199 | building the header, the structure with both names and the parameters and converting each succeeds exactly when the parts fit, and leaves exactly that message in network order |
| DefaultMessages.DefaultRoundTrip | src/hardware_dep/shared/ctrl_plane/handlers.c:64-91 | a default-action message in network order is delivered with its xid, action type, names and parameters, all in host order; with more than ten parameters it is rejected with -1 |
| DefaultMessages.DefaultNamesReadBack | src/hardware_dep/shared/ctrl_plane/handlers.c:73-75 | the strings at the delivered addresses are the table, the action and the parameter names, whole |
| SockHelpers.Socket.ReadFix | src/hardware_dep/shared/ctrl_plane/sock_helpers.c:21-33 | under any schedule of partial reads: exactly the next bytes, or zero at the end of the stream, or an error |
| SockHelpers.Socket.WriteFix | src/hardware_dep/shared/ctrl_plane/sock_helpers.c:35-47 | under any schedule of partial writes: all bytes in order, or a prefix and an error |
| SockHelpers.Socket.ReadP4Msg | src/hardware_dep/shared/ctrl_plane/sock_helpers.c:49-66 | what it returns is the first step of Deliveries |
| SockHelpers.Socket.WriteP4Msg | src/hardware_dep/shared/ctrl_plane/sock_helpers.c:68-78 | sends the first header-length bytes, refuses a length beyond the cell |
| SockHelpers.ReadAll | src/hardware_dep/shared/ctrl_plane/ctrl_plane_backend.c:83-105 | the reader loop delivers Deliveries of the stream; after each failed read it delivers what is found from the next byte on, which need not start a message |
| SockHelpers.DeliveredIff | src/hardware_dep/shared/ctrl_plane/sock_helpers.c:49-78 | a message is the next one delivered if and only if it is longer than a bare header and fits the cell |
| SockHelpers.AllDeliveredIff | src/hardware_dep/shared/ctrl_plane/sock_helpers.c:21-78 | a sequence of messages arrives as sent, none crossing a boundary, if and only if all of them are |
| SockHelpers.EntryArrives | src/hardware_dep/shared/ctrl_plane/handlers.c:19-62 | builder, stream and decoder together: the entry sent is the entry found in any cell it was read into |
| Digests.CreateDigest | src/hardware_dep/shared/ctrl_plane/ctrl_plane_backend.c:345-377 | an empty digest with its name, or failure when the name is too long |
| Digests.AddDigestField | src/hardware_dep/shared/ctrl_plane/ctrl_plane_backend.c:380-407 | appends the value and its length in network order; a value over 32 bytes gives a null digest, a field without room a null field |
| Digests.SendDigest | src/hardware_dep/shared/ctrl_plane/ctrl_plane_backend.c:332-343 | converts the header and keeps the fields |
| Digests.MacLearnDigest | src/hardware_dep/shared/ctrl_plane/mac_controller.c:91-106 | reads the address and the first port byte |
| Digests.LearnsWhatWasSent | src/hardware_dep/shared/ctrl_plane/mac_controller.c:91-106 | the controller reads the bytes the switch put in |
| Digests.LearnedPort | src/hardware_dep/odp/main_odp.c:214-219 | the learned port is the ingress port modulo 256, so it is right exactly for ports below 256 |
| FieldLists.BigEndianByteArray | src/utils/hlir.py:187-204 | big-endian bytes padded with zeros or cut to the width |
| FieldLists.PlanList | src/hardware_indep/dataplane.c.py:163-208 | the coalescing loops of one list compute PlanFrom |
| FieldLists.PlanOkIff | src/hardware_indep/dataplane.c.py:187-208 | the generator accepts the lists of a calculation if and only if in each of them every run of neighbours and every constant ends at a whole byte from the start, and every payload directly follows a field |
| FieldLists.RegroupList | src/hardware_indep/dataplane.c.py:210-220 | the deleting loops compute Regroup |
| FieldLists.GroupsCover | src/hardware_indep/dataplane.c.py:210-220 | regrouping loses and invents no copy and puts each behind the test of its own header |
| FieldLists.FillBuffer | src/hardware_indep/dataplane.c.py:157-220 | the generated memset, constants and guarded copies in place |
| FieldListBuffer.Covered | src/hardware_indep/dataplane.c.py:166-208 | every byte of the buffer is under exactly one copy |
| FieldListBuffer.FilledIsAssembled | src/hardware_indep/dataplane.c.py:210-220 | the regrouped code leaves the buffer of the copies in list order |
| FieldListBuffer.BufferIsInOrder | src/hardware_indep/dataplane.c.py:157-220 | for every accepted calculation with byte-aligned blocks the buffer is the field lists in order, bit for bit, with zeros for invalid headers |
| FieldListBuffer.AlignmentIsExact | src/hardware_indep/dataplane.c.py:179-190 | for every accepted calculation: right for all packets if and only if all blocks start on byte boundaries |
| OnesComplement.Csum16Add | src/hardware_indep/dataplane.c.py:129-135 | terminates with the 16-bit ones-complement sum |
| OnesComplement.AddIsAMonoid | src/hardware_indep/dataplane.c.py:129-135 | commutative, associative, identity 0 |
| OnesComplement.Checksum | tools/ipsend.c:219-251 | no 32-bit addition wraps for any length, the fold terminates, the result is the complement of the host-order sum |
| OnesComplement.IpChecksum | tools/ipsend.c:253-283 | no addition wraps; the swapped complement of the network-order sum |
| OnesComplement.ChecksumsAgreeIff | tools/ipsend.c:219-283 | both return the same value if and only if the data is not all zero (section 2 of RFC 1071) |
| OnesComplement.ChecksumVerifies | tools/ipsend.c:219-251 | data followed by its checksum sums to 0xffff |
| OnesComplement.SumIsRemainder | tools/ipsend.c:219-251 | the sum of the words is the data as one little-endian number modulo 0xffff, zero for data that is all zero only |
| CalculatedFields.Calculate | src/hardware_indep/dataplane.c.py:138-230 | the generated function, payload sums included, computes Value |
| CalculatedFields.ValueCompletesSum | src/hardware_indep/dataplane.c.py:223-228 | the value is what the output width keeps of the nonzero number that completes the sum of payloads and buffer to 0xffff; all of it from 16 bits on |
| CalculatedFields.PayloadsAre | src/hardware_indep/dataplane.c.py:201-207 | the payloads summed are those of the headers of the fields right before payload entries, each entry once |
| CalculatedFields.PayloadSumIs | src/hardware_indep/dataplane.c.py:205-207 | each payload is summed from the end of its header to the end of the packet, in any order |
| CalculatedFields.DataWithValueSumsToOnes | src/hardware_indep/dataplane.c.py:289-322 | after update_packet has stored the value in its 16-bit field, at a whole number of words from the start of the list, the list with that field in its place sums, payloads included, to 0xffff |
| CalculatedFields.ValueIsStable | src/hardware_indep/dataplane.c.py:289-300 | the value does not change when a field changes that no list names, or, with blocks that start inside a byte, no copied byte holds |
| CalculatedFields.VerifyAfterUpdate | src/hardware_indep/dataplane.c.py:289-322 | for a calculation that does not read its own field, verification after update succeeds if and only if the value fits the field; always for 16 bits |
| Workers.Worker.SendBurst | src/hardware_dep/odp/main_odp.c:123-139 | sends some packets, frees the rest; a negative result is not recognised |
| Workers.Worker.BcastPacket | src/hardware_dep/odp/main_odp.c:168-210 | the copies in port order, the first copy to the first other port |
| Workers.Worker.SendPacket | src/hardware_dep/odp/main_odp.c:222-240 | broadcast on port 100, otherwise append to one of the eight transmit buffers, with or without an interface |
| Workers.Worker.RunRound | src/hardware_dep/odp/main_odp.c:294-331 | one round in place is Iterate |
| WorkerLedger.BroadcastReachesAllOthers | src/hardware_dep/odp/main_odp.c:185-208 | one copy for each interface but the ingress, the original freed |
| WorkerLedger.SendAllBalances | src/hardware_dep/odp/main_odp.c:317-322 | the exact ledger: only originals of broadcasts whose first copy failed go missing |
| WorkerLedger.RoundIsCleanIff | src/hardware_dep/odp/main_odp.c:294-331 | a round keeps all buffers empty and every packet sent or freed exactly once if and only if no send fails and every packet goes to another interface or is a broadcast whose first copy succeeds; no buffer exceeds 32 |
| WorkerLedger.FreshRunIsClean | src/hardware_dep/odp/main_odp.c:257-335 | from a worker's start the same over whole runs: every packet received or copied is sent or freed exactly once |
| WorkerLedger.RunIsClean | src/hardware_dep/odp/main_odp.c:257-335 | the same from any clean state |
| WorkerLedger.RunFaultsIff | src/hardware_dep/odp/main_odp.c:222-331 | any run faults exactly when one of its rounds does, which the egress ports and send results alone decide: a packet goes beyond the eight buffers, a buffer has to hold more than 32 packets since it was last sent, or the send of a buffer that is not empty fails |
| WorkerForwarding.ForwardsInOrder | src/hardware_dep/odp/main_odp.c:257-335 | in every run without a fault each port has sent, in order of arrival, the data of the packets for it that the driver took, and holds those that came since it was last sent |
| WorkerForwarding.TransmitsWhatIsForIt | src/hardware_dep/odp/main_odp.c:168-240 | when the driver takes every buffer whole, what a port has sent and still holds is exactly the data of the unicasts to it and the broadcasts of other ports, in order |
| WorkerLedger.ReturningOverruns | src/hardware_dep/odp/main_odp.c:324-329 | counterexample: two full bursts addressed to their own ingress port run over the buffer |
| Affinity.Config.AssignInterfaces | src/hardware_dep/odp/data_plane/odp_lib.c:783-796 | interface lists and thread counts in closed form, more interfaces than workers |
| Affinity.Config.AssignWorkers | src/hardware_dep/odp/data_plane/odp_lib.c:797-819 | the other case, with transmit counts: receive and transmit threads of an interface add up to all workers |
| Affinity.AffinityIsFair | src/hardware_dep/odp/data_plane/odp_lib.c:774-821 | who serves whom; the loads of workers, and the thread counts of interfaces, differ by at most one and add up to the larger count |
| Affinity.BindQueues | src/hardware_dep/odp/data_plane/odp_lib.c:826-871 | every slot gets the next queue of its interface, every worker one transmit queue per interface |
| Affinity.QueueOfSlot | src/hardware_dep/odp/data_plane/odp_lib.c:838-853 | the queue of slot k of worker j in closed form |
| Affinity.SlotsMatchQueues | src/hardware_dep/odp/data_plane/odp_lib.c:826-871 | unclipped: a bijection from (worker, slot) to (interface, queue) |
| Affinity.NoSharingIff | src/hardware_dep/odp/data_plane/odp_lib.c:405-410 | no two slots share a queue if and only if no interface is clipped |
| Affinity.SharedQueuesAreFair | src/hardware_dep/odp/data_plane/odp_lib.c:405-410 | clipped queues carry loads that differ by at most one |
| Affinity.TransmitQueuesAreOwnIff | src/hardware_dep/odp/data_plane/odp_lib.c:412-417 | no two workers share a transmit queue of an interface if and only if it has one per worker |
| TableKeys.GetTypeAndLength | src/utils/hlir.py:167-185 | table type and key length of the match fields |
| TableKeys.TypeIs | src/utils/hlir.py:167-185 | a ternary field or a second LPM field makes a ternary table, one LPM field alone an LPM table, only exact fields an exact one |
| TableKeys.SortedPlaces | src/hardware_indep/dataplane.c.py:37-43 | the sorted match fields are the fields, each once, by type and then in their own order |
| TableKeys.ExtractedLength | src/hardware_indep/dataplane.c.py:49-55 | a field of up to 32 bits takes four bytes of the key, a longer one its own bytes if they are whole, and none otherwise |
| TableKeys.TableKey | src/hardware_indep/dataplane.c.py:44-66 | the lookup key in place, LPM reversal included |
| TableKeys.ControlKey | src/hardware_indep/controlplane.c.py:52-70 | the stored key in place, LPM reversal included |
| TableKeys.ReverseInPlace | src/hardware_indep/dataplane.c.py:61-65 | both reversal loops |
| KeyAgreement.ExtractedIs | src/hardware_indep/dataplane.c.py:49-55 | a field of up to 32 bits fills four bytes: its own and zeros |
| KeyAgreement.KeysAgreeIff | src/hardware_indep/controlplane.c.py:52-70 | for byte-aligned fields both keys agree for every packet if and only if the fields before the last are at least 32 bits wide, in an LPM table the last one too (or the key is one byte) |
| KeyAgreement.TableKeysAgreeIff | src/utils/hlir.py:167-185 | the same with the sorted fields and the length of getTypeAndLength |
| Replicas.ChangeTable | src/hardware_dep/odp/data_plane/odp_lib.c:209-218 | one call per replica, the one after the active first, for any table function; each point between calls is a Mid |
| Replicas.Promote | src/hardware_dep/odp/data_plane/odp_lib.c:220-243 | all initialised sockets and no other |
| Replicas.PromoteRun | src/hardware_dep/odp/data_plane/odp_lib.c:209-243 | whatever the table functions are (exact, LPM, ternary, default): after any sequence every replica of a live socket has had each once and in order |
| Replicas.PromoteAll | src/hardware_dep/odp/data_plane/odp_lib.c:227-243 | the same for updates of exact tables |
| Replicas.LookupIsLastWrite | src/hardware_dep/odp/data_plane/odp_tables.c:138-155 | the table lookup is the last matching write, otherwise the last default |
| Replicas.MidLookup | src/hardware_dep/odp/data_plane/odp_tables.c:234-251 | during an update a lookup on any replica answers with or without that one update |

## Left out

- Threads are interleavings of whole critical sections; condition variables, fifo_wait and the thread pool are not modelled, and each dispatched task is taken to run once.
- Message contents and queues are separate models: L2Learning treats a digest or an entry as one value, and Digests, MessageBuilder, MessageHandlers and SockHelpers show that the bytes carry it. The learned port is one byte (Digests.LearnedPort), so ports in L2Learning are those below 256.
- One switch talks to the controller; with several, each output processor takes messages from the same queue.
- CacheCoherence.CacheRefinesDirect: masks given by fields or parameters, fields wider than 32 bits (in digests too), saturating adds and the unfinished parameter add are not modelled; a parameter is the word its bytes write.
- MessageHandlers.Handle, MessageHandlers.HandleAddTableEntry and MessageHandlers.HandleSetDefaultAction: require the message to stay inside the buffer, since the decoder does not test counts against the length and memory behind the buffer is not modelled; MessageHandlers.HandleOverrunsIff says exactly which messages leave it. What a match of unknown type makes of the following bytes is modelled, but not described. The callback of an unknown message type gets an unset structure and is left out.
- SockHelpers.ReadAll: reads fail finitely often, so that the loop ends with the connection.
- Workers.Worker.RunRound: the ingress port of a packet is the port polled. Copying, receiving and sending packets are results chosen by the environment; which egress port processing leaves is arbitrary.
- FieldLists.PlanList and FieldListBuffer.BufferIsInOrder: variable-width fields, which make offsets run-time expressions, are left out.
- HeaderRecord.HeaderIsARecord: the widths are those of one packet; how the parser finds the width of a variable field is left out.
- CalculatedFields.VerifyAfterUpdate: a condition attached to a calculation is taken to be the validity of the header.
- odp_chksum_ones_comp16 is not part of this repository: any function of the bytes takes its place.
- KeyAgreement.KeysAgreeIff: says nothing about prefixes; lpm_add reads the reversed bytes as an address, and the depth byte is not compared. Ternary tables have no add code.
- Replicas.PromoteAll: what LPM tables answer (odph_iplookup is not part of this repository) and the counter index behind a value are left out; Replicas.PromoteRun covers their updates. Insertion into the ODP tables is taken to succeed, as the program exits otherwise.
- Affinity.BindQueues: the 8-bit and 16-bit counters and the array sizes of the configuration bound the counts in practice and are not modelled.
- Next-table selection by hit or miss, header stacks, registers, counters, parser exceptions and add_header or remove_header are left out.
- The other controllers build the same messages with other names; sendRawIP.c repeats ipsend.c.
