# A verified model of the Bluetooth LE host stack

This project models, in Dafny, the parts of the stack that carry whole-run or whole-input
guarantees, and proves those guarantees:

- **L2CAP over ACL.** `L2cap.dfy` is the `L2CAP` object. `AclFlow.dfy` is the state machine its
  handlers and its `flushAcl` activations step through: one action is the code between two `await`
  points, so a run is any interleaving of writes, connection events, completed-packet events and
  resumed flushes. `AclFlowTheorems.dfy` proves what holds of every run, `AclFragmentation.dfy` and
  `AclReassembly.dfy` the two halves of section 7.2 of Core 5.2 Vol 3 Part A, and `AclEndToEnd.dfy`
  joins the halves. `AclAccounts.dfy` reads the counts and records off the run itself, and
  `L2capTheorems.dfy` says what leaves the object, packet by packet and event by event.
- **GATT discovery.** `GattPaging.dfy` has the paged loops, against a server that may answer with
  pages of any size. `GattDirectory.dfy`, on the nodes of `GattNodes.dfy`, the copies of
  `GattClone.dfy` and the index over a copy of `GattIndex.dfy`, is the mutable tree with parent links
  and flat index; `GattLinks.dfy` is the theory of an index that agrees with its tree, `GattProfile.dfy`
  the values the tree stands for, and `GattFiling.dfy` what a copy makes of those.
  `GattServer.dfy` says what a server's database determines, `GattClient.dfy` is the client, and
  `GattOverlap.dfy` several calls of `discover` at once.
- **Transports.** `H4.dfy` (parser and adapter), `Slip.dfy`, `H5.dfy`, `HciFraming.dfy` (what the
  host writes) and `Firmware.dfy` (the receive interrupt of the UART firmware, which reads it).
- **Commands and codecs.** `HciCmd.dfy` (matching results to pending commands), `AttLists.dfy` (the
  four ATT list messages) and `Advertising.dfy` (advertising data), with what building and parsing
  hand on in `AdvertisingRoundTrip.dfy`, what a second parse says in `AdvertisingReparse.dfy` and
  the fields byte by byte in `AdvertisingFields.dfy`.
  `Buffers.dfy` and `Bytes.dfy` hold what they share.

Objects that update their fields are classes, loops are loops, and each such method is proved to
compute a function of its inputs or of the old state; the theorems are about those functions.
`dafny verify dfyconfig.toml` checks the whole project.

## Readings of the code

Where the code departs from its evident intent the model follows the code, and a lemma says what
follows:

- `src/l2cap/L2CAP.ts:135` flags every fragment as an opening one. `AclEndToEnd.PeerReceivesPrefix`
  is about the boundaries as queued; `AclEndToEnd.PeerReceivesAsSent` shows that as sent the peer gets
  the messages exactly when each fits one packet. Boundary 0 at the sender arrives as boundary 2.
- `src/l2cap/L2CAP.ts:156-163` does not look whether the handle is already connected or has entries
  queued. `CountsAreExact`, `WorkIsConservedExactly` and `WrittenIsExact` say exactly which connection
  events keep the counts, the flow and the order, with a run for each that does not
  (`ReconnectOverruns`, `ReconnectStalls`, `StaleFragmentIsSent`).
- `src/transport/H4.ts:75` reads the length one byte early when the type byte and the whole header
  arrive in one call. Both readings are modelled; `H4.FeedsAgree` says exactly when they differ.
- `src/transport/H5.ts:123` keeps 8 bits of the length, so packets of more than 255 bytes are refused.
- `src/transport/Slip.ts:8` has 0x0c as its frame delimiter; the model keeps it.
- `src/hci/HciCmd.ts:234-255` removes from the list it iterates over;
  `HciCmd.AllMatchesSettle` says exactly when a result still settles every command it matches.
- `src/gap/AdvData.ts:303` leaves room for a 2-byte UUID only. `AdvertisingRoundTrip.FaithfulService` is what
  survives of the 32- and 128-bit forms.
- `src/gap/AdvData.ts:436` and `:484` reverse UUID bytes inside the buffer that is parsed;
  `AdvertisingReparse.SecondParse` says exactly when a second parse of it gives the same.
- `src/gatt/GattDirectory.ts:179-281` overwrites entries without unlinking what was below them or
  indexed for another parent; each `save*` contract says exactly when index and tree still agree.
- `src/gatt/GattClient.ts:143` reads an Include declaration as if it were a UUID, which it never is.
  While no request fails, `discover` completes exactly when no service has one
  (`GattClient.GattClient.Discover`); `GattServer.NeverDiscovered` has a server with one.
- `src/gatt/GattClient.ts:97-169` does not keep calls of `discover` apart. `GattOverlap.AgreesUnlessLate` says
  exactly which saves of overlapping calls leave index and tree in disagreement, and
  `GattOverlap.OverlapDisagrees` and `GattOverlap.OverlapForgets` show what two calls can do.
- `src/gatt/GattDirectory.ts:355-369` takes the characteristic UUID it is given for an attribute type;
  `GattServer.LookupByUuids` says exactly when the characteristic declared with it is found.
- `src/gatt/GattDirectory.ts:57-116` takes a profile in which a handle occurs twice;
  `GattDirectory.GattDirectory.FromProfile` says that index and tree agree exactly when none does.
- `src/gatt/GattClient.ts:173` stores the server's MTU, not the smaller of the two, so `read` can stop
  early; `GattPaging.WholeValueIsRead` says exactly when it does not.

Standards referred to: Core 5.2, Vol 4 Part E section 4.1.1 (flow control), Vol 3 Part A section 7.2
(fragmentation), Vol 3 Part G sections 4.4.1, 4.6.1, 4.7.1 and 4.8.3 (discovery and long reads), Vol 3
Part F section 3.4 (ATT messages), Vol 4 Part A section 2 (H4), Vol 4 Part D sections 3 and 4 (SLIP and
three-wire packets).

## Model

| member | source | states |
|---|---|---|
| AclFlowTheorems.ExactlyOnceInOrder | src/l2cap/L2CAP.ts:78-142 | in every run, for each live connection, the packets sent since its connection event followed by those still queued are its backlog and the fragments of all its messages, once each and in order |
| AclFlowTheorems.WrittenIsExact | src/l2cap/L2CAP.ts:78-178 | in every state of a run all live connections have sent and queued exactly what was written on them if and only if no connection event finds entries for its handle in the queue |
| AclFlowTheorems.SentIsWhatWasWritten | src/l2cap/L2CAP.ts:78-178 | in such a run what a live connection has sent and has queued is exactly its messages |
| AclFlowTheorems.CreditSafety | src/l2cap/L2CAP.ts:116-154 | in every run the pending total never exceeds the controller's capacity, so the `===` busy test equals `>=` |
| AclFlowTheorems.CountsAreExact | src/l2cap/L2CAP.ts:116-195 | each pending count is that handle's buffers in use, in every state of a run, if and only if no connection event names a handle with packets counted |
| AclFlowTheorems.StepMirrors | src/l2cap/L2CAP.ts:116-195 | one step keeps those counts the same if and only if it is no such event |
| AclFlowTheorems.ControllerNeverOverrun | src/l2cap/L2CAP.ts:116-195 | in such a run no buffer is overrun, and the clamp at 0 never fires for a completion of packets the controller was given |
| AclFlowTheorems.WorkIsConservedExactly | src/l2cap/L2CAP.ts:113-194 | whenever no flush is suspended, the queue is empty or every controller buffer is in use, in every state of a run, if and only if each connection event that frees counts comes while a flush is suspended or nothing is queued |
| AclFlowTheorems.WorkConservation | src/l2cap/L2CAP.ts:113-194 | the same of the last state of such a run |
| AclFlowTheorems.DisciplineIsEnough | src/l2cap/L2CAP.ts:78-195 | connection events on unused handles and writes on live ones meet all the conditions named here |
| AclFlowTheorems.QuietMeansAllSent | src/l2cap/L2CAP.ts:113-194 | once no flush is suspended and the controller holds nothing, all messages of every live connection have been sent |
| AclFlowTheorems.ReconnectOverruns | src/l2cap/L2CAP.ts:156-163 | a second connection event for a live handle makes the host overrun the controller |
| AclFlowTheorems.ReconnectStalls | src/l2cap/L2CAP.ts:156-163 | a second connection event can leave packets queued, buffers free and no flush running |
| AclFlowTheorems.StaleFragmentIsSent | src/l2cap/L2CAP.ts:78-114 | a fragment written for an absent handle while the controller is busy is sent to that handle's next connection |
| AclFlowTheorems.RunOnWire | src/l2cap/L2CAP.ts:116-142 | in every run the packets counted as sent are the last ones handed over for that handle |
| AclAccounts.RecordsAreExact | src/l2cap/L2CAP.ts:78-178 | in every run, what is recorded of a live connection is the packets handed over for it since its last connection event, the messages written on it since but those that throw, and what was queued for its handle then |
| AclAccounts.PendingIsExact | src/l2cap/L2CAP.ts:116-195 | in every run in which the controller completes no more of a connection's packets than it was handed, the pending count of a live connection is the number of packets handed over for it since its connection event less the sum of the counts completed since |
| AclAccounts.ControllerIsExact | src/l2cap/L2CAP.ts:116-195 | and the buffers in use for a handle are the packets handed over for it since its last disconnection event less the counts completed since, while the controller is truthful |
| AclAccounts.BuffersAreEnough | src/l2cap/L2CAP.ts:116-195 | so, with a truthful controller and no connection event that names a handle with packets counted, the packets handed over and not yet completed, summed over any handles, never exceed the capacity |
| AclAccounts.SuspendedIsExact | src/l2cap/L2CAP.ts:134-141 | a flush waits for every packet handed over, until it is resumed |
| AclFlow.RunKeeps | src/l2cap/L2CAP.ts:78-195 | every run keeps the credit bound and the account of every live connection |
| AclFlow.FlushKeepsOrder | src/l2cap/L2CAP.ts:116-142 | one stretch of a flush sends at most one packet of a live connection and keeps that connection's order |
| AclFlow.FlushEffect | src/l2cap/L2CAP.ts:116-142 | a stretch of a flush counts exactly the packet it sends and otherwise ends with an empty queue or a busy controller |
| AclFragmentation.ChunksRebuild | src/l2cap/L2CAP.ts:78-111 | the pieces of a PDU, put together, are the PDU; none is empty, and all but the last are as long as the controller's packet |
| AclFragmentation.ForWithout | src/l2cap/L2CAP.ts:170-172 | filtering one handle out of the queue removes exactly its entries and keeps the order of the others |
| AclReassembly.JoinPdu | src/l2cap/L2CAP.ts:197-237 | one PDU, cut anywhere behind its header, is delivered whole whatever partial PDU was held before, or, if empty pieces end the cut, whatever one the code leaves |
| AclReassembly.JoinPduExactly | src/l2cap/L2CAP.ts:197-237 | with no partial PDU held, it is delivered if and only if its first piece holds the header |
| AclReassembly.EntriesOpen | src/l2cap/L2CAP.ts:197-237 | whatever arrives, something is missing from every partial PDU held |
| AclReassembly.DeliveredAlone | src/l2cap/L2CAP.ts:197-237 | what a connection is delivered depends only on its own packets |
| AclReassembly.ReassemblyUndoesFragmentation | src/l2cap/L2CAP.ts:197-254 | for any cuts and any interleaving of connections, each connection's PDUs are delivered once, in order, unchanged, from any starting `aclFragments`; cuts with empty pieces at the end need entries as the code leaves them |
| AclReassembly.ReassemblyIsExact | src/l2cap/L2CAP.ts:197-254 | a connection with no partial PDU is delivered exactly the PDUs whose first piece holds the header |
| AclReassembly.OddFragments | src/l2cap/L2CAP.ts:197-237 | what becomes of fragments that cannot be joined (too short, too long, without a beginning, or with a boundary the code does not know) and of a PDU begun before one that comes whole |
| AclEndToEnd.PeerReceivesPrefix | src/l2cap/L2CAP.ts:78-237 | in every run whose connection events find nothing queued for their handle, the peer has received a prefix of the messages written, and all of them once none is queued, with the boundaries as queued |
| AclEndToEnd.PeerReceivesAsSent | src/l2cap/L2CAP.ts:134-138 | with every fragment flagged as an opening one the peer gets the messages if and only if each fits in one packet |
| L2capTheorems.HandedIsWritten | src/l2cap/L2CAP.ts:78-178 | the data of the packets handed to the controller for a live connection since its connection event, joined, is a prefix of the frames of the messages written since (length, channel, payload, low bytes first), and all of them once nothing of it is queued |
| L2capTheorems.PeerHears | src/l2cap/L2CAP.ts:134-138 | and then the peer that joins those packets by the boundaries they were handed over with gets the messages if and only if each fits in one packet |
| L2capTheorems.HandedFlags | src/l2cap/L2CAP.ts:134-138 | every packet is handed over as an opening one, to one peer |
| L2capTheorems.EventsAreMessages | src/l2cap/L2CAP.ts:197-254 | for any cuts behind the headers and any interleaving, the attribute and security manager events raised for a connection have the payloads sent on channel 4 and on channel 6, once each and in order |
| L2cap.L2CAP.constructor | src/l2cap/L2CAP.ts:44-68 | the start state: LE buffers, or the shared ones when there are none |
| L2cap.L2CAP.WriteAclData | src/l2cap/L2CAP.ts:78-114 | the write step of the state machine; throws, changing nothing, when a header field does not fit |
| L2cap.L2CAP.FlushAcl | src/l2cap/L2CAP.ts:116-142 | one stretch of a flush is the flush of the state machine |
| L2cap.L2CAP.ResumeFlush | src/l2cap/L2CAP.ts:134-141 | a suspended flush goes on as the resume step |
| L2cap.L2CAP.IsControllerBusy | src/l2cap/L2CAP.ts:144-146 | busy exactly when the pending total equals the capacity |
| L2cap.L2CAP.PendingPackets | src/l2cap/L2CAP.ts:148-154 | the sum over all connections, in whatever order they are visited |
| L2cap.L2CAP.OnLeConnectionComplete | src/l2cap/L2CAP.ts:156-163 | the connect step, nothing on an error |
| L2cap.L2CAP.OnDisconnectionComplete | src/l2cap/L2CAP.ts:165-178 | the disconnect step and one event, nothing on an error |
| L2cap.L2CAP.OnNumberOfCompletedPackets | src/l2cap/L2CAP.ts:180-195 | the completed step, nothing for a handle that is not connected |
| L2cap.L2CAP.OnAclData | src/l2cap/L2CAP.ts:197-237 | reassembly over all connections; the event raised, the exception, and the new fragments |
| L2cap.L2CAP.OnAclDataComplete | src/l2cap/L2CAP.ts:239-254 | an attribute event for channel 4, a security manager event for channel 6, none for others |
| GattPaging.ReadByGroupTypeBetween | src/gatt/GattClient.ts:250-273 | all groups in the range, in order, within matches + 1 requests, whatever the page sizes; or the error that the last request got |
| GattPaging.ReadByTypeBetween | src/gatt/GattClient.ts:282-337 | all matches in the range, in order, each ending before the next and the last at the range's end, within matches + 1 requests; or the error that the last request got |
| GattPaging.TilesTheSpan | src/gatt/GattClient.ts:282-337 | the entries' ranges cover every handle from the first match to the end of the range and no other |
| GattPaging.TilesAscend | src/gatt/GattClient.ts:289-295 | the entries' ranges do not overlap |
| GattPaging.WithinResumes | src/gatt/GattClient.ts:255-266 | resuming anywhere behind a match and inside its group misses no later match |
| GattPaging.ReadValue | src/gatt/GattClient.ts:185-203 | a long read terminates with exactly the value the MTUs allow, in a bounded number of requests |
| GattPaging.WholeValueIsRead | src/gatt/GattClient.ts:171-203 | with the MTU as stored, the whole value is read if and only if the stored MTU is the effective one or the value is short enough, and otherwise its first part |
| GattLinks.ChildrenAdded | src/gatt/GattDirectory.ts:236-281 | saving children under a parent keeps index and tree in agreement when no other parent holds them |
| GattLinks.SharedChildrenDisagree | src/gatt/GattDirectory.ts:236-281 | and only then |
| GattLinks.ParentsAdded | src/gatt/GattDirectory.ts:179-190 | replacing parents without children keeps index and tree in agreement |
| GattLinks.OrphansDisagree | src/gatt/GattDirectory.ts:179-190 | and replacing one with children does not |
| GattLinks.OneParent | src/gatt/GattDirectory.ts:54-117 | an index that agrees gives every child one parent |
| GattProfile.TreeDeterminesCatalog | src/gatt/GattDirectory.ts:15-51 | a profile tree loses nothing: equal trees mean equal knowledge |
| GattProfile.TreeIsUnique | src/gatt/GattDirectory.ts:50-52 | a returned profile has unique handles, so a directory can be built from it |
| GattProfile.LeadsOnce | src/gatt/GattDirectory.ts:307-324 | a descriptor handle leads to exactly one service, characteristic and descriptor, or is unknown |
| GattProfile.FirstServiceFound | src/gatt/GattDirectory.ts:326-336 | the service found is the first with the UUID, and none is found only when there is none |
| GattProfile.SortedIsAscending | src/gatt/GattDirectory.ts:172-177 | `Object.values` visits the records by ascending handle, each once |
| GattProfile.ServicesSaved | src/gatt/GattDirectory.ts:179-190 | of the services saved the last with a handle is the one known, with nothing below it; others stay as they were |
| GattProfile.CharacteristicsSaved | src/gatt/GattDirectory.ts:236-252 | of the characteristics saved the last with a handle is the one known, without descriptors; all else stays |
| GattProfile.DescriptorsSaved | src/gatt/GattDirectory.ts:265-281 | of the descriptors saved the last with a handle is the one known; all else stays |
| GattProfile.DescriptorsInOrder | src/gatt/GattDirectory.ts:254-263 | the descriptors listed are all of the record, by ascending handle |
| GattClone.CloneProfile | src/gatt/GattDirectory.ts:119-170 | new nodes, linked to their parents, that stand for the profile with every record under its own handle |
| GattFiling.RefiledIsOrdered | src/gatt/GattDirectory.ts:119-170 | whatever keys a profile has, its copy has every record under its own handle |
| GattFiling.RefiledSame | src/gatt/GattDirectory.ts:119-170 | a profile that has them so already is copied as it is |
| GattFiling.ServiceIsCopied | src/gatt/GattDirectory.ts:119-170 | of the services with the same handle the one under the largest key is copied, with its fields |
| GattFiling.CharacteristicIsCopied | src/gatt/GattDirectory.ts:119-170 | the same of the characteristics of a service |
| GattFiling.DescriptorIsCopied | src/gatt/GattDirectory.ts:119-170 | and of the descriptors of a characteristic |
| GattFiling.NothingIsAdded | src/gatt/GattDirectory.ts:119-170 | nothing else is in the copy |
| GattIndex.FillFlatProfile | src/gatt/GattDirectory.ts:61-113 | the index holds all nodes of the tree, of those with the same handle the one visited last |
| GattIndex.LeavesTogether | src/gatt/GattDirectory.ts:61-113 | when every handle has one place, the index holds exactly the tree's own characteristics and descriptors |
| GattIndex.TogetherLast | src/gatt/GattDirectory.ts:61-113 | of the records that have a handle, the one under the largest key gives the index its entry |
| GattDirectory.GattDirectory.Empty | src/gatt/GattDirectory.ts:54-117 | without a profile nothing is known |
| GattDirectory.GattDirectory.FromProfile | src/gatt/GattDirectory.ts:54-117 | from any profile the tree is that profile's copy, and index and tree agree exactly when no handle occurs at two places |
| GattDirectory.GattDirectory.SaveServices | src/gatt/GattDirectory.ts:179-190 | the services saved; index and tree agree afterwards exactly when no replaced service had characteristics |
| GattDirectory.GattDirectory.SaveNoIncludedServices | src/gatt/GattDirectory.ts:203-223 | the empty record of included services saved, false for an unknown service |
| GattDirectory.GattDirectory.SaveCharacteristics | src/gatt/GattDirectory.ts:236-252 | the characteristics saved, false for an unknown service; index and tree agree afterwards exactly when no other service has them and none replaces one with descriptors |
| GattDirectory.GattDirectory.SaveDescriptors | src/gatt/GattDirectory.ts:265-281 | the descriptors saved, false for an unknown characteristic; index and tree agree afterwards exactly when no other characteristic has them |
| GattDirectory.GattDirectory.GetServices | src/gatt/GattDirectory.ts:172-177 | the services saved, by handle, or nothing when none were |
| GattDirectory.GattDirectory.GetIncludedServices | src/gatt/GattDirectory.ts:192-201 | whether included services were saved |
| GattDirectory.GattDirectory.GetCharacteristics | src/gatt/GattDirectory.ts:225-234 | a service's characteristics, by handle, or nothing when not saved |
| GattDirectory.GattDirectory.GetDescriptors | src/gatt/GattDirectory.ts:254-263 | a characteristic's descriptors, by handle, or nothing when not saved |
| GattDirectory.GattDirectory.GetProfile | src/gatt/GattDirectory.ts:50-52 | the tree of everything saved |
| GattDirectory.GattDirectory.FindByDescriptorHandle | src/gatt/GattDirectory.ts:307-324 | following parent links gives the descriptor's own characteristic and service, and null exactly for unknown handles |
| GattDirectory.GattDirectory.FindServiceByUuid | src/gatt/GattDirectory.ts:326-336 | the first service with the UUID |
| GattDirectory.GattDirectory.FindCharacteristicByUuids | src/gatt/GattDirectory.ts:338-372 | the first characteristic, of the first service with the UUID, that has a descriptor of the type |
| GattDirectory.GattDirectory.StateWellFormed | src/gatt/GattDirectory.ts:54-281 | a directory whose index and tree agree knows each handle once, under itself, below a known parent |
| GattDirectory.SameProfileSameState | src/gatt/GattDirectory.ts:54-117 | a directory rebuilt from another's profile knows the same, so it answers every call alike |
| GattServer.OneCatalog | src/gatt/GattClient.ts:97-122 | a server's database determines the result of a completed discovery |
| GattServer.Discoverable | src/gatt/GattClient.ts:97-169 | a server has a complete catalog if and only if none of its services has an Include declaration |
| GattServer.NeverDiscovered | src/gatt/GattClient.ts:136-146 | a server that has none, for one Include declaration |
| GattServer.LookupByUuids | src/gatt/GattDirectory.ts:338-372 | after discovery, where every characteristic has an attribute of its own UUID, the lookup finds the first one declared with a UUID if and only if none before it has an attribute of that type |
| GattServer.IncludesRefused | src/gatt/GattClient.ts:142-143 | what is read of a service's Include declarations can be taken if and only if there are none |
| GattServer.DeclarationRead | src/gatt/GattCharacteristic.ts:80-92 | a characteristic with given properties, value handle and UUID is read for a service if and only if the server has a declaration in the service's range with exactly those bytes: the properties, the value handle low byte first, the UUID |
| GattServer.ProfileDescribes | src/gatt/GattClient.ts:97-169 | the profile of a completed discovery shows exactly the services, declarations and attributes of the server, byte for byte, each range ending before the next declaration or with its service |
| GattServer.RequestsAreLinear | src/gatt/GattClient.ts:97-169 | the bound on a discovery's requests is at most 3 for each service, 2 for each characteristic declaration, 1 for each Include declaration and each attribute, and 1 |
| GattServer.OneRange | src/gatt/GattClient.ts:148-169 | a handle lies in the range of at most one characteristic |
| GattServer.Routing | src/gatt/GattDirectory.ts:307-324 | after discovery a handle leads to an entry if and only if that entry's ranges hold the attribute with that handle |
| GattServer.RoutedToRange | src/gatt/GattDirectory.ts:307-324 | after discovery an attribute in a characteristic's range leads to that characteristic and service and to no other |
| GattServer.RoutedNowhere | src/gatt/GattDirectory.ts:307-324 | after discovery a handle in no characteristic's range leads nowhere |
| GattServer.CharacteristicsFitIn | src/gatt/GattClient.ts:148-158 | what discovery saves for a service never collides with what is already saved |
| GattServer.DescriptorsFitIn | src/gatt/GattClient.ts:160-169 | what discovery saves for a characteristic never collides with what is already saved |
| GattClient.GattClient.constructor | src/gatt/GattClient.ts:53-59 | the directory and its nodes are new and stand for the given profile, or for nothing; index and tree agree exactly when no handle in it occurs twice |
| GattClient.GattClient.Discover | src/gatt/GattClient.ts:97-122 | while no request fails it succeeds if and only if no service has an Include declaration; an error is that of the last request or there is such a declaration; nothing known is lost; success means everything is known and returned, and that the profile describes the server attribute by attribute; when everything was known no request is sent and the same profile returned; never more requests than `Requests` counts, each list read costing one more than its matches |
| GattClient.DiscoverTwice | src/gatt/GattClient.ts:97-169 | after a completed discovery a second one on the same client sends no request and returns the same profile |
| GattClient.DiscoverRebuilt | src/gatt/GattClient.ts:53-169 | a client rebuilt from the profile of a completed discovery sends no request, returns the same profile, and its directory is in the same state, which determines every lookup |
| GattClient.GattClient.DiscoverServices | src/gatt/GattClient.ts:124-134 | the server's services, asked for at most once, or the error that the last request got |
| GattClient.GattClient.DiscoverIncludedServices | src/gatt/GattClient.ts:136-146 | the empty list recorded for a service without Include declarations, asked for at most once, unless the last request got an error; always an error, and nothing recorded, for one with them |
| GattClient.GattClient.DiscoverCharacteristics | src/gatt/GattClient.ts:148-158 | the service's characteristics with their ranges, asked for at most once, or the error that the last request got |
| GattClient.GattClient.DiscoverDescriptors | src/gatt/GattClient.ts:160-169 | the attributes in the characteristic's range, asked for at most once, or the error that the last request got |
| GattOverlap.AgreesUnlessLate | src/gatt/GattClient.ts:97-169 | in every interleaving of calls of `discover`, index and tree agree all along if and only if no services are saved once a characteristic is known and no characteristics once a descriptor of one of them is; while they agree, all that is known is the server's |
| GattOverlap.FitsUnlessLate | src/gatt/GattDirectory.ts:179-281 | the same of one save |
| GattOverlap.ExclusiveCallsAreSafe | src/gatt/GattClient.ts:97-169 | calls that never wait for the same record keep index and tree in agreement, lose nothing, and each that finishes returns a complete profile |
| GattOverlap.OneCallIsExclusive | src/gatt/GattClient.ts:97-169 | a single call is such a run |
| GattOverlap.OverlapDisagrees | src/gatt/GattClient.ts:97-134 | on any server whose first service has a characteristic, two calls that start together can leave index and tree in disagreement |
| GattOverlap.OverlapForgets | src/gatt/GattClient.ts:97-146 | a call that finishes beside another can return an incomplete profile although index and tree agree |
| GattClient.GattClient.OnValueNotification | src/gatt/GattClient.ts:84-95 | the value is emitted with the entry its handle leads to, and dropped only when it leads nowhere |
| H4.H4Parser.ParseChunk | src/transport/H4.ts:34-72 | a call is one step of the parser function, with either reading of the length |
| H4.HciAdapter.OnDeviceData | src/utils/HciAdapter.ts:31-39 | the loop terminates and hands on exactly the packets of the drained parser |
| H4.ParseConserves | src/transport/H4.ts:34-72 | a call loses and invents no byte, and a packet uses up at least one |
| H4.FeedConserves | src/transport/H4.ts:34-90 | over any chunks the packets emitted and the bytes held are the bytes fed, with either reading |
| H4.ChunkingDoesNotMatter | src/transport/H4.ts:34-90 | with the length read from the header, the packets are those of the whole stream, however it is cut |
| H4.FeedsAgree | src/transport/H4.ts:34-90 | over a whole stream the code does what was meant, in parser state and packets, if and only if no call reads the length beside its place |
| H4.ReadingsAgree | src/transport/H4.ts:74-90 | the same of one call |
| H4.SingleBytesAreSafe | src/transport/H4.ts:34-90 | fed single bytes, the code parses the stream exactly |
| H4.PacketsRoundTrip | src/transport/H4.ts:21-90 | packets laid out one after the other (type, header with the length where the standard has it, payload) and cut anywhere come out as they are with nothing held back; as the code reads them, if every chunk is a single byte |
| H4.OnlyFramedPackets | src/transport/H4.ts:21-90 | nothing else comes out of any stream |
| H4.EventInOneChunkIsMissed | src/transport/H4.ts:74-90 | a whole event in one chunk is not emitted by the code |
| Slip.SlipCodec.Encode | src/transport/Slip.ts:16-37 | the encoding function |
| Slip.SlipCodec.Decode | src/transport/Slip.ts:44-93 | the frames and the decoder state of the byte-wise decoder |
| Slip.ChunksDecodeAsOne | src/transport/Slip.ts:44-93 | how a stream is chunked does not matter |
| Slip.StreamRoundTrip | src/transport/Slip.ts:16-93 | frames, encoded, joined and cut anywhere, decode to the ones that hold anything, so to themselves if and only if none is empty |
| Slip.Resynchronises | src/transport/Slip.ts:44-93 | from any decoder state, every frame after the first encoded one decodes exactly |
| Slip.EncodedIs | src/transport/Slip.ts:16-37 | the bytes of a frame: 0x0c around it, 0x0c inside as 0xdb 0xdc and 0xdb as 0xdb 0xdd |
| Slip.NoDelimiterInside | src/transport/Slip.ts:16-37 | no byte between the delimiters is one |
| Slip.NoiseIsSkipped | src/transport/Slip.ts:44-58 | bytes before the first delimiter are skipped |
| Slip.BadEscapeIsDropped | src/transport/Slip.ts:78-89 | a byte wrongly escaped is dropped |
| H5.HeaderFields | src/transport/H5.ts:70-86 | the header built holds every field masked, and its own checksum |
| H5.RoundTrip | src/transport/H5.ts:49-165 | decoding an encoded packet gives its masked fields and payload when that is at most 255 bytes, and the calculated-size error otherwise |
| H5.FieldsArrive | src/transport/H5.ts:49-165 | fields that fit the header arrive as they were sent |
| H5.Layout | src/transport/H5.ts:49-109 | where every field lies in the bytes of a packet, that its header sums to all ones, and that the CRC of all before it ends it, low byte first |
| H5.AcceptedExactly | src/transport/H5.ts:111-165 | which bytes are accepted, and which of the errors the others get: for the length before the sum, and for the CRC last |
| H5.Reencodes | src/transport/H5.ts:111-165 | an accepted packet encodes back to the same bytes exactly when its third byte is below 16 |
| H5.HeaderDamageIsNoticed | src/transport/H5.ts:111-165 | changing one header byte of an accepted packet is always reported |
| H5.OverSlip | src/transport/H5.ts:49-165 | packets sent over SLIP, cut anywhere, arrive as they were sent, those over 255 bytes as the calculated-size error |
| HciFraming.BuildCommand | src/hci/HciCmd.ts:258-271 | the bytes of the command packet, or a throw when a field does not fit |
| HciFraming.WriteAcl | src/hci/Hci.ts:942-953 | the bytes of the ACL packet with the word that handle and flags of any size make, or a throw when the word or the length does not fit |
| HciFraming.AclWordBits | src/hci/Hci.ts:944 | a bit of that word is set exactly where the handle, the boundary shifted by 12 or the broadcast flag shifted by 14 has it, below the 32nd |
| HciFraming.AclRoundTrip | src/hci/Hci.ts:942-953 | an ACL packet is written and reads back with the same handle, flags and data if and only if each fits its field |
| HciFraming.AclRead | src/hci/Hci.ts:1296-1320 | where the fields lie in a packet that is read, whatever its length bytes say |
| Firmware.FramingIsExact | zephyr/hci_uart/src/main.c:112-207 | frames of the three types whose headers each find a buffer free queue exactly the packets that fit, drop the others whole and skip every trailing zero, whatever buffers are given back meanwhile |
| Firmware.FramesAreTaken | zephyr/hci_uart/src/main.c:112-207 | over any frames of packets that fit, each adds its packet in its turn if and only if a buffer is free whenever a header ends |
| Firmware.FrameNeedsBuffer | zephyr/hci_uart/src/main.c:153-159 | one frame whose packet fits adds it to the queue of an idle receiver if and only if its pool has a free buffer |
| Firmware.HostPacketsAreFramed | src/hci/HciCmd.ts:258-271 | what the host writes are such frames: the type, the header with the payload's length in its place, the payload and a zero |
| Firmware.BuffersAreConserved | zephyr/hci_uart/src/main.c:112-207 | over any run every buffer of a type is free, queued or being filled, those given back added: none is lost and none is taken twice |
| Firmware.NoiseIsIgnored | zephyr/hci_uart/src/main.c:124-141 | bytes that are none of the three types change nothing between packets |
| Firmware.FeedAppend | zephyr/hci_uart/src/main.c:112-207 | how the FIFO is read does not matter |
| Firmware.FailedAllocationMisreads | zephyr/hci_uart/src/main.c:153-159 | a frame whose refused payload is queued as a packet of its own |
| Firmware.Receiver.RxIsr | zephyr/hci_uart/src/main.c:112-207 | an interrupt does to the bytes it consumes what the byte-wise machine does, never indexes outside `hdr_buf`, and stops only when the FIFO is empty or a header has just ended without a buffer or without a payload |
| Firmware.Receiver.Release | zephyr/hci_uart/src/main.c:249-269 | a buffer given back is the release step |
| Firmware.Receiver.ReadHeader | zephyr/hci_uart/src/main.c:142-173 | header bytes land at their place; at the header's end a buffer is taken, the packet forgotten or discarded |
| Firmware.Receiver.ReadPayload | zephyr/hci_uart/src/main.c:174-185 | payload bytes are appended and the complete packet queued |
| Firmware.Receiver.ReadDiscard | zephyr/hci_uart/src/main.c:186-199 | a payload without room is skipped to its end |
| HciCmd.HciCmd.SendWaitResult | src/hci/HciCmd.ts:182-224 | the submit step: pending with its timer, and the packet sent or, when it cannot be built, the command rejected at once while it stays pending |
| HciCmd.HciCmd.OnTimeout | src/hci/HciCmd.ts:196-201 | the timeout step |
| HciCmd.HciCmd.DropPendingCommand | src/hci/HciCmd.ts:188-195 | exactly the first entry with that identity is removed |
| HciCmd.HciCmd.OnCmdResult | src/hci/HciCmd.ts:230-256 | the scan with its removals settles and keeps exactly what the position-wise specification says, and throws exactly when it comes to a command that the result is too short for |
| HciCmd.EachSettlesOnce | src/hci/HciCmd.ts:182-256 | in every state of a run each command has settled at most once and is pending, with its timer, exactly until then, if and only if no command in it is too long to build |
| HciCmd.StepExact | src/hci/HciCmd.ts:182-271 | a step keeps that bookkeeping if and only if it does not submit a command whose payload is too long |
| HciCmd.OnlyMatchesSettle | src/hci/HciCmd.ts:230-256 | a command that a result settles is one it is for: of the same opcode, and the return parameters begin with the handles it has |
| HciCmd.SingleMatchIsRemoved | src/hci/HciCmd.ts:230-256 | a result that is for a single command settles exactly that one, and the rest keep their order |
| HciCmd.NoMatchChangesNothing | src/hci/HciCmd.ts:230-256 | a result that is for none changes nothing |
| HciCmd.AllMatchesSettle | src/hci/HciCmd.ts:230-256 | a result settles every command it is for if and only if no such command follows another and none follows one that the result is too short for and the scan looks at |
| HciCmd.SettlesAllItIsFor | src/hci/HciCmd.ts:230-256 | of pending commands a result settles exactly those it is for under that condition |
| HciCmd.OwnResult | src/hci/HciCmd.ts:182-256 | a result settles the only pending command of its opcode if and only if it is for it, resolved with the result when the status is 0 and rejected with the status otherwise, and settles no other |
| HciCmd.SubmittedEnds | src/hci/HciCmd.ts:182-256 | so a command submitted while no other of its opcode is pending ends with the first result for it |
| HciCmd.TimeoutEnds | src/hci/HciCmd.ts:188-201 | a timeout rejects its command and removes it, and does nothing once its timer is cleared |
| HciCmd.NotBuiltEnds | src/hci/HciCmd.ts:182-224 | a command that cannot be built is rejected at once |
| HciCmd.EveryOtherMatch | src/hci/HciCmd.ts:234-255 | of consecutive commands that a result is for it settles every other one, from the first that is visited |
| HciCmd.ScanIsSettledAndKept | src/hci/HciCmd.ts:230-256 | the scan, entry by entry, settles and keeps what the specification by positions says |
| AttLists.SerializeFindInformation | src/att/AttSerDes.ts:134-157 | the message's bytes, or a throw for a list without one UUID size of 2 or 16 |
| AttLists.DeserializeFindInformation | src/att/AttSerDes.ts:181-208 | the list, or null |
| AttLists.FindInformationExact | src/att/AttSerDes.ts:129-209 | bytes are read as a list if and only if they are what that list is written as |
| AttLists.FindInformationNeverOverruns | src/att/AttSerDes.ts:181-208 | no buffer makes it read past its end |
| AttLists.SerializeFindByTypeValue | src/att/AttSerDes.ts:256-267 | the message's bytes |
| AttLists.DeserializeFindByTypeValue | src/att/AttSerDes.ts:269-289 | the list, null, or a throw |
| AttLists.FindByTypeValueExact | src/att/AttSerDes.ts:255-290 | bytes are read as a list if and only if they are what it is written as, and reading throws exactly when an entry is incomplete |
| AttLists.SerializeReadMultipleVariable | src/att/AttSerDes.ts:881-894 | the message's bytes, or a throw for a value too long for its length field |
| AttLists.DeserializeReadMultipleVariable | src/att/AttSerDes.ts:896-912 | the values, null, or a throw |
| AttLists.ReadMultipleVariableExact | src/att/AttSerDes.ts:880-913 | values are written as some bytes if and only if those bytes read as the values and no value is cut short by their end |
| AttLists.SerializeMultipleHandleValue | src/att/AttSerDes.ts:1062-1076 | the message's bytes, or a throw for a value too long for its length field |
| AttLists.DeserializeMultipleHandleValue | src/att/AttSerDes.ts:1078-1098 | the entries, null, or a throw |
| AttLists.MultipleHandleValueExact | src/att/AttSerDes.ts:1061-1099 | entries are written as some bytes if and only if those bytes read as the entries and no value is cut short |
| AttLists.EntriesReadBack | src/att/AttSerDes.ts:129-209 | entries that read back one at a time read back as a list, at any length |
| AttLists.FindInformationLayout | src/att/AttSerDes.ts:129-209 | bytes are read as a list if and only if they are 0x05, the format, and each handle and UUID, all of two bytes in format 1 or all of sixteen in format 2; all others give null |
| AttLists.FindByTypeValueLayout | src/att/AttSerDes.ts:255-290 | bytes are read as a list if and only if they are 0x07 and its handles two by two; those that begin otherwise give null |
| AttLists.ReadMultipleVariableLayout | src/att/AttSerDes.ts:880-913 | 0x21 and values behind their lengths read as the values; one byte more is read past the end, and a last value shorter than its length says is read as it is |
| AttLists.MultipleHandleValueLayout | src/att/AttSerDes.ts:1061-1099 | the same behind 0x23, with a handle before each length |
| AttLists.OtherOpcodes | src/att/AttSerDes.ts:896-899 | bytes that begin otherwise give null |
| Advertising.Build | src/gap/AdvData.ts:151-259 | the properties present, in order, or a throw when a number does not fit its field |
| Advertising.BuildUuidList | src/gap/AdvData.ts:269-283 | one slot for each UUID, over-long ones running into the next |
| Advertising.BuildServiceData | src/gap/AdvData.ts:302-309 | UUID and data as far as the buffer has room |
| Advertising.BuildAppearance | src/gap/AdvData.ts:311-318 | category and subcategory packed, or a throw |
| Advertising.BuildMaker | src/gap/AdvData.ts:320-327 | identifier and data, or a throw |
| Advertising.Parse | src/gap/AdvData.ts:329-359 | what the bytes mean, or a throw, and the buffer with every UUID turned round |
| Advertising.ParseField | src/gap/AdvData.ts:361-479 | one field's effect on its property and on the buffer |
| Advertising.ParseUuids | src/gap/AdvData.ts:481-488 | the texts of the UUIDs, which are left reversed in place |
| Advertising.SplitJoined | src/gap/AdvData.ts:336-352 | splitting distributes over any fields short enough for their length byte, whatever follows |
| AdvertisingRoundTrip.RowAbsorbed | src/gap/AdvData.ts:354-479 | fields of one type touch no other property |
| AdvertisingRoundTrip.Survives | src/gap/AdvData.ts:261-488 | a property that can be built comes back as itself exactly when it is faithful |
| Advertising.UuidRestored | src/utils/UUID.ts:24-27 | a lower-case text of the right length comes back from its bytes |
| AdvertisingRoundTrip.RoundTripExact | src/gap/AdvData.ts:151-488 | parsing built data gives it back if and only if every field fits its length byte, every property is faithful and nothing is unparsed |
| AdvertisingRoundTrip.LongFieldsAreLost | src/gap/AdvData.ts:269-309 | data with a field too long for its length byte never comes back: a list too long is parsed from more fields than it is built as, and there are too few bytes for that |
| AdvertisingReparse.SecondParse | src/gap/AdvData.ts:329-488 | parsing again the buffer that a parse leaves behind gives the same if and only if every UUID in it reads the same from both ends |
| AdvertisingReparse.SplitTurned | src/gap/AdvData.ts:433-488 | a parse leaves the fields where they were, each with its UUIDs turned round |
| AdvertisingReparse.SecondParseDiffers | src/gap/AdvData.ts:481-488 | an input for which the second parse reads another UUID |
| AdvertisingFields.UuidTextAt | src/gap/AdvData.ts:481-488 | the text of a UUID shows its last byte first, each as two lower-case digits |
| AdvertisingFields.CaseIsIgnored | src/utils/UUID.ts:24-27 | upper-case digits are read as lower-case ones |
| AdvertisingFields.OddTexts | src/utils/UUID.ts:24-27 | what a digit without a second one, or no digit, is read as |
| AdvertisingFields.UuidListIsRead | src/gap/AdvData.ts:361-432 | a list field of each of the nine types holds the texts of its UUIDs in order, the last as far as it is there |
| AdvertisingFields.ServiceDataIsRead | src/gap/AdvData.ts:433-465 | a service data field of each of the three types holds the text of its UUID and what follows |
| AdvertisingFields.NameIsRead | src/gap/AdvData.ts:403-410 | a name field holds its bytes |
| AdvertisingFields.NumbersAreRead | src/gap/AdvData.ts:361-414 | flags and transmit power are their first byte, the power signed; an empty field unsets the flags and throws for the power |
| AdvertisingFields.WordsAreRead | src/gap/AdvData.ts:441-472 | appearance and manufacturer begin with a number of two bytes, low byte first, and throw without both |
| AdvertisingFields.OthersAreKept | src/gap/AdvData.ts:361-479 | the data of any other type is kept unparsed |
| AdvertisingFields.FieldsCombine | src/gap/AdvData.ts:329-479 | the meaning of several fields: lists and service data of one type grow, anything else is replaced, other types stay, and one throw is a throw for all |
| AdvertisingFields.OddBytesAreSkipped | src/gap/AdvData.ts:336-352 | zeros between fields and a lone last byte are skipped, and a last field cut short is what there is of it |
| AdvertisingFields.BuiltInOrder | src/gap/AdvData.ts:151-259 | what is built is the properties in the order of the eighteen types, each as it is built alone, and a throw if one throws |
| AdvertisingFields.NumbersAreBuilt | src/gap/AdvData.ts:261-300 | flags and power are one byte, modulo 256, and zero is not written |
| AdvertisingFields.NameIsBuilt | src/gap/AdvData.ts:285-292 | a name of up to 254 bytes behind its length and type, nothing for an empty one, a throw for a longer one |
| AdvertisingFields.LookIsBuilt | src/gap/AdvData.ts:311-318 | category and subcategory in two bytes, low byte first, or a throw |
| AdvertisingFields.MakerIsBuilt | src/gap/AdvData.ts:320-327 | identifier, low byte first, and data, or a throw |
| AdvertisingFields.ServiceDataIsBuilt | src/gap/AdvData.ts:302-309 | every byte of a service data field: the UUID, zeros where it is short, the data over it from the end of a UUID of the type's size |
| AdvertisingFields.ServicesAreBuilt | src/gap/AdvData.ts:231-253 | several are written one after the other |
| AdvertisingFields.UuidListIsBuilt | src/gap/AdvData.ts:269-283 | every byte of a list field: of the UUIDs copied over it the last one's, and zero where there is none |

## Left out

- GattDirectory.GattDirectory.SaveNoIncludedServices: covers only the empty list, and included services are only the empty record everywhere, because no other list ever reaches it: `UUID.toString` rejects the values an Include declaration has.
- GattDirectory.GattDirectory.GetIncludedServices: says only whether the record is there, for the same reason.
- GattClient.GattClient.Discover: starts from knowledge consistent with the server's present database; a server whose database changed since is not modelled.
- GattServer.Routing: presumes, as all of discovery does, a codec behind `Att` that hands on the values a server sent; the response codecs named below do not.
- GattOverlap.AgreesUnlessLate: a call is its turns between awaits and its requests' answers; after index and tree have come to disagree nothing is said.
- GattPaging.ReadByTypeBetween: stands for `readByTypeBetween` and `findInformationBetween`, which differ only in the request; requests are answered by an oracle, so time-outs and a lost connection are not modelled.
- AdvertisingRoundTrip.RoundTripExact: UUID texts are taken digit by digit, without the signs and prefixes `parseInt` allows.
- Advertising.Build: goes through the types in the order of the source's `if`s; category, subcategory and value are 16-bit numbers and names are their UTF-8 bytes.
- Firmware.Receiver.RxIsr: a read of a FIFO that holds bytes is taken to give at least one; the driver is not part of this model.
- H5.RoundTrip: the checksum is an arbitrary 16-bit function.
- HciCmd.HciCmd.OnTimeout: a timer is a step that may be taken; real time is not modelled.
- L2cap.L2CAP.FlushAcl: a write to the device that fails is not modelled.
- WeakRef parent links are plain references, since the tree keeps their targets alive.
- `findCharacteristic`, `findDescriptor` and `findDescriptorByUuids` are shorter forms of the lookups modelled.
- Indications differ from notifications only in the confirmation that is sent back.
- The ReadByType and ReadByGroupType response codecs: their value offsets and lengths do not match each other (`src/att/AttSerDes.ts:389`, `:617`, `:655`).
- The byte layout of the completed-packets event (`src/hci/Hci.ts:1114-1119`), devices, console output, opcode and error tables, and the parameter encoders of single commands.
- SMP, whose results rest on cryptographic libraries; `GapCentral`, whose device map races with its awaits; and ATT requests across a disconnection, which are never answered.
- The firmware's transmit path.
