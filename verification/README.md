# AllJoyn thin client: verified models

This project models the parts of the AllJoyn thin client (`core/ajtcl`) whose correctness is least obvious from reading
one function, and proves what they promise.

- **ARDP**, the reliable datagram transport: the connection record with its two rings, the loops of the sender, the
  retransmission timer and the reader, and two endpoints joined by lossy channels. `Seq32` has the 32-bit sequence
  arithmetic, `ArdpWire` the header, `ArdpSpec` the transitions of an endpoint as functions, `ArdpRing` the invariants
  of the rings, `ArdpDirection` and `ArdpMessage` the invariant that ties sender, channel, receiver and message
  together, `ArdpNetwork` the theorems over all runs, `ArdpRecovery` the recovery from loss, `ArdpGap` what a gap
  costs, `ArdpProgress` what each event brings about, `ArdpConnection` the in-place code proved equal to `ArdpSpec`,
  `ArdpRtt` the round-trip estimator.
- **Access control**: policies and manifests compiled into bit masks, proved to be an exact index of a declarative rule.
- **Credential store**: credentials serialised into NVRAM slots with eviction, proved to refine a finite map.
- **Introspection**: signatures and message ids derived from interface strings (`Signature`, `MessageId`), and the
  two-pass XML generator (`XmlSpec`, `XmlTree`, `XmlWriter`) with a reader for its text (`XmlReader`).
- **Certificates**: DER decoding (`Der`) and certificate chains reversed in place (`CertChain`).
- **CRC-16**: the table-driven form proved equal to the bit-serial one.

`dafny verify dfyconfig.toml` checks everything.

## Assumptions

The run of two ARDP endpoints starts with both ends OPEN and the payload of the SYN-ACK consumed, with infinite TTL.
Channels lose and duplicate segments and keep their order. When timers fire, and whether a segment is then too old, is
arbitrary; so is how many datagrams the socket takes during a retransmission. Sequence numbers stay below 2^32 - 3,
because the ring size 3 does not divide 2^32 (`Seq32.RingInjectiveOnWindow` shows that the bound is exact). The socket
takes what `ARDP_Send` gives it (`ArdpRing.SendBytesKeepsRing` shows that this is exactly when the ring survives). An
arriving data segment leaves no gap: the code accepts any later number although its header promises to acknowledge only
segments in sequence (aj_ardp.h line 73), and `ArdpNetwork.ArrivalKeepsExactly` shows that a gap is exactly what breaks
the link, `ArdpGap.GapLosesSegment` what it loses. A message is started only when the previous one has gone out
completely or nothing of it was handed over yet, and callers hand over no more of a message than its header announced;
the announced length is a parameter.

Where code and documentation disagree the model follows the code: the gap above, the direction of signal arguments
(`MessageId.SignalDirectionExactly`), and the measured round trips (`ArdpRing.MeasuredAfterResend`).

NVRAM is modelled by its documented contract; how much space is left and whether a data set can be created are arbitrary
functions of its contents. Allocation, certificate decoding, marshalling failures and description look-up are arbitrary
functions as well.

## Model

| member | source | states |
|---|---|---|
| Seq32.InRangeIsModularDistance | core/ajtcl/src/aj_ardp.c:257-263 | IN_RANGE is "modular distance from beg is less than sz" on all 2^96 inputs |
| Seq32.SeqLtIsTrueOrder | core/ajtcl/src/aj_ardp.c:250-255 | SEQ32_LT and SEQ32_LET are the order of unbounded counters up to 2^31 apart, across the wrap |
| Seq32.SeqLtIsWrongBeyondHalfRange | core/ajtcl/src/aj_ardp.c:250-255 | farther apart they always give the wrong answer |
| Seq32.RingFollowsNext | core/ajtcl/src/aj_ardp.c:307-313 | for any ring size, seq % size follows the next pointers exactly when the step does not wrap or the size divides 2^32 |
| Seq32.RingInjectiveOnWindow | core/ajtcl/src/aj_ardp.c:307-313 | a window of SEGMAX numbers has distinct slots exactly when it does not straddle 2^32 |
| ArdpWire.DecodeEncoded | core/ajtcl/src/aj_ardp.c:324-341 | every header parses back field for field, whatever follows it |
| ArdpWire.EncodeDecoded | core/ajtcl/src/aj_ardp.c:324-341 | 36 bytes re-encode to themselves exactly when length byte and reserved bytes are the usual ones |
| ArdpWire.EncodedFields | core/ajtcl/src/aj_ardp.c:324-341 | byte by byte: where each field lies in network order, the length byte 18 and the reserved zeros |
| ArdpWire.MarshalHeader | core/ajtcl/src/aj_ardp.c:324-341 | the bytes written in place are the encoded header; the payload is untouched |
| ArdpWire.RefreshHeader | core/ajtcl/src/aj_ardp.c:476-480 | patching three fields in the stored bytes gives the encoding of the updated header |
| ArdpWire.ValidateEncoded | core/ajtcl/src/aj_ardp.c:591-666 | an encoded segment is accepted unchanged exactly when its numbers are plausible |
| ArdpWire.ValidateMeans | core/ajtcl/src/aj_ardp.c:591-666 | on every datagram: a reset is its flag alone, and otherwise acceptance is exactly that the lengths add up, ACK and LCS are not ahead, and data lies inside the window and its message |
| ArdpWire.PayloadExactly | core/ajtcl/src/aj_ardp.c:904-912 | the payload stored is what follows the header exactly for the usual header length, or if there is none: a longer header is accepted and its rest taken for payload |
| ArdpRing.PendingIsInFlight | core/ajtcl/src/aj_ardp.c:711-751 | pending counts the slots in flight |
| ArdpRing.OnAckKeepsRing | core/ajtcl/src/aj_ardp.c:868-876 | an ACK below NXT frees exactly the slots it covers and leaves the other segments and the queued bytes alone |
| ArdpRing.OnAckKeepsRingExactly | core/ajtcl/src/aj_ardp.c:868-876 | of all 2^32 acknowledgements, ACK == NXT is the one that breaks the send ring |
| ArdpRing.EmitKeepsRing | core/ajtcl/src/aj_ardp.c:1072-1112 | sending one segment keeps: slots in flight are exactly UNA..NXT-1, each with its number, pending is their count |
| ArdpRing.EnqueueKeepsRing | core/ajtcl/src/aj_ardp.c:1062-1071 | a piece that has to wait is queued in slot NXT and nothing else changes |
| ArdpRing.MarkedBreaksRing | core/ajtcl/src/aj_ardp.c:1085-1096 | a refused datagram leaves slot NXT marked in flight, so that the next send finds its slot taken |
| ArdpRing.SendBytesKeepsRing | core/ajtcl/src/aj_ardp.c:1058-1120 | the send loop keeps the ring exactly when the socket takes every segment that is ready |
| ArdpRing.RemoteRoomInWindow | core/ajtcl/src/aj_ardp.c:1039-1042 | the flow-control test admits exactly what fits between LCS and LCS + SEGMAX |
| ArdpRing.RemoteRoomExactly | core/ajtcl/src/aj_ardp.c:1039-1042 | for every told LCS: admitted exactly when it fits SEGMAX less the low 16 bits of the distance, or that is more than SEGMAX |
| ArdpRing.ResendKeepsRing | core/ajtcl/src/aj_ardp.c:452-508 | a retransmission keeps the send ring and the queued bytes, however it ends |
| ArdpRing.ResendSendsWindow | core/ajtcl/src/aj_ardp.c:452-508 | on AJ_OK exactly UNA..NXT-1 went out, once each, in order, unchanged except ACK, LCS and ACKNXT |
| ArdpRing.ResendEndsExactly | core/ajtcl/src/aj_ardp.c:452-508 | how a retransmission ends: retries of the whole window count on its oldest segment, and a late one is given up once they are past five |
| ArdpRing.MeasuredAfterResend | core/ajtcl/src/aj_ardp.c:720-727 | the source means to measure only round trips without retransmission; after a resent window the ACK of a resent segment measures exactly when it is not the oldest and was not before, or its 8-bit counter wraps |
| ArdpRing.OnDataKeepsRing | core/ajtcl/src/aj_ardp.c:781-799 | data next in sequence finds its slot free and is appended to the unread stream |
| ArdpRing.FinishSlotKeepsRing | core/ajtcl/src/aj_ardp.c:950-963 | releasing a fully read slot keeps the receive ring and moves LCS past that segment |
| ArdpRing.ReadIsPrefix | core/ajtcl/src/aj_ardp.c:1241-1287 | the receive ring refines a byte stream: a read returns exactly its first bytes and keeps the rest |
| ArdpMessage.EmitCuts | core/ajtcl/src/aj_ardp.c:1058-1112 | emitting a piece moves it from the pending bytes to the segments of the message |
| ArdpMessage.CompleteMessageIsCut | core/ajtcl/src/aj_ardp.c:1023-1122 | a complete message is exactly FCNT segments with one SOM, all but the last full, that concatenate to it |
| ArdpMessage.SendLoopKeeps | core/ajtcl/src/aj_ardp.c:1058-1120 | the whole send loop keeps direction and message invariants and fills only free slots |
| ArdpDirection.EmitKeeps | core/ajtcl/src/aj_ardp.c:1072-1112 | a new segment keeps the invariant of sender, history, channels and receiver |
| ArdpDirection.AckKeeps | core/ajtcl/src/aj_ardp.c:868-876 | so does the arrival of any acknowledgement on its way |
| ArdpDirection.InSequenceKeeps | core/ajtcl/src/aj_ardp.c:904-912 | so does the arrival of the next segment |
| ArdpDirection.DuplicateIgnored | core/ajtcl/src/aj_ardp.c:904-912 | a duplicate changes nothing at the receiver |
| ArdpDirection.ReadKeeps | core/ajtcl/src/aj_ardp.c:1241-1287 | reading keeps the invariant and extends what was read by exactly those bytes |
| ArdpNetwork.SegmentsAccepted | core/ajtcl/src/aj_ardp.c:591-666 | every segment on its way passes all checks of the peer and parses to what was sent |
| ArdpNetwork.SubmitOutcome | core/ajtcl/src/aj_ardp.c:1013-1045 | a send is either refused with BACKPRESSURE, consuming nothing, or goes through the loop; ArdpProgress.RefusedExactly says which |
| ArdpNetwork.StepKeeps | core/ajtcl/src/aj_ardp.c:801-948 | every event at either end keeps the invariant of the link |
| ArdpNetwork.RunKeeps | core/ajtcl/src/aj_ardp.c:801-1287 | every state of every run of two endpoints satisfies it |
| ArdpNetwork.ReaderGetsPrefix | core/ajtcl/src/aj_ardp.c:801-1287 | in every run the bytes read are a prefix of the bytes submitted; read plus held is what was sent up to CUR |
| ArdpNetwork.WindowsHold | core/ajtcl/src/aj_ardp.c:711-1120 | in every run buffers are freed only when the peer holds the segment, no ACK names an unsent number, both windows hold, no assertion fails, nothing is rejected or expired |
| ArdpNetwork.MessagesAreCut | core/ajtcl/src/aj_ardp.c:1023-1122 | in every run a complete message went out as exactly FCNT segments |
| ArdpNetwork.ArrivalKeepsExactly | core/ajtcl/src/aj_ardp.c:907-912 | an arrival leaves a good state exactly when it leaves no gap |
| ArdpNetwork.LossBreaksDelivery | core/ajtcl/src/aj_ardp.c:907-912 | for all payloads p and q: if p is lost the reader gets q, which is a prefix of the stream only if q equals p |
| ArdpGap.NeverStored | core/ajtcl/src/aj_ardp.c:904-912 | whatever arrives in whatever order, with numbers less than half the range away, CUR never goes back and no number up to it is stored |
| ArdpGap.GapLosesSegment | core/ajtcl/src/aj_ardp.c:868-912 | from every good state a gap makes the receiver acknowledge the skipped segment, the sender forget it, and no continuation with numbers less than half the range away store it |
| ArdpProgress.RefusedExactly | core/ajtcl/src/aj_ardp.c:1013-1045 | a send is refused exactly when all buffers are in flight, or the segments that its bytes fill do not fit next to them, or go past the window told by the peer |
| ArdpProgress.SubmitExtends | core/ajtcl/src/aj_ardp.c:993-1123 | in every reachable state, what is submitted joins the stream exactly when there is room |
| ArdpProgress.NothingHeldBack | core/ajtcl/src/aj_ardp.c:1062-1112 | in every reachable state less than a segment is held back, and a message handed over completely has gone out |
| ArdpProgress.ArrivalMoves | core/ajtcl/src/aj_ardp.c:801-948 | in every reachable state an arrival moves UNA past its ACK and LCS to its LCS, makes exactly the next data readable, and answers exactly a keepalive, with a bare ACK of everything received |
| ArdpProgress.SegmentsTell | core/ajtcl/src/aj_ardp.c:324-508 | in every reachable state every segment sent tells CUR, LCS and UNA as they are |
| ArdpRecovery.RecoveryIsPossible | core/ajtcl/src/aj_ardp.c:452-508 | from every good state, even after losing all segments on the way, a run leads to everything read and a full window |
| ArdpConnection.Connection.constructor | core/ajtcl/src/aj_ardp.c:287-322 | a new connection is valid, with nothing queued and nothing unread |
| ArdpConnection.Connection.StartMsgSend | core/ajtcl/src/aj_ardp.c:965-981 | a new message is marked; its assertion is among those that ArdpNetwork.WindowsHold shows never to fail |
| ArdpConnection.Connection.UpdateSndSegments | core/ajtcl/src/aj_ardp.c:711-751 | the pass over the ring, early exit included, frees exactly the acknowledged slots, keeps pending their count, and reports whether the round trip is measured |
| ArdpConnection.Connection.ProcessAck | core/ajtcl/src/aj_ardp.c:868-876 | the in-place update is the specified acknowledgement |
| ArdpConnection.Connection.DataTimerHandler | core/ajtcl/src/aj_ardp.c:452-508 | the do/while walk around the ring terminates and is the specified retransmission |
| ArdpConnection.Connection.SendSegments | core/ajtcl/src/aj_ardp.c:1058-1120 | the do/while loop of the sender is the specified cutting |
| ArdpConnection.Connection.Send | core/ajtcl/src/aj_ardp.c:993-1123 | a retransmission that is due, then the specified send, whose refusals ArdpProgress.RefusedExactly characterises |
| ArdpConnection.Connection.Receive | core/ajtcl/src/aj_ardp.c:865-915 | the in-place update on an accepted segment is the specified one |
| ArdpConnection.Connection.ReleaseSlot | core/ajtcl/src/aj_ardp.c:950-963 | the in-place release is the specified one |
| ArdpConnection.Connection.UpdateReadBuffer | core/ajtcl/src/aj_ardp.c:1241-1287 | the copying loop puts exactly the specified bytes into the buffer and keeps the connection valid |
| ArdpRtt.Estimator.AdjustRTT | core/ajtcl/src/aj_ardp.c:679-709 | the in-place update of mean and variance is the specified one; the mean per MTU unit is a mean of whole round trips; the back-off is cleared |
| ArdpRtt.AdjustExact | core/ajtcl/src/aj_ardp.c:679-709 | below 2^27 an update, the first one included, is the one on unbounded numbers and keeps the bound |
| ArdpRtt.FirstSample | core/ajtcl/src/aj_ardp.c:679-709 | the first round trip becomes the mean, and mean + 4 variances is two and a half of it, less at most 4.5 ms |
| ArdpRtt.EstimatesStayBounded | core/ajtcl/src/aj_ardp.c:679-709 | in every run of samples up to R, mean and variance stay up to R |
| ArdpRtt.MeanSettles | core/ajtcl/src/aj_ardp.c:679-709 | once the samples are constantly c, the mean is in [c-7, c] after six samples per bit of R, at most 162, and stays there |
| ArdpRtt.EstimateSettles | core/ajtcl/src/aj_ardp.c:679-709 | after nine such samples per bit, at most 243, the variance is at most 7 as well, and mean + 4 variances in [c-7, c+28] |
| ArdpRtt.TimeoutClamped | core/ajtcl/src/aj_ardp.c:443-450 | while the shift by the back-off does not overflow, the timeout is (mean + 4 variances, at least 100) * 2^backoff, raised to the peer's delay and cut at 64000 |
| ArdpRtt.MinimumKeptExactly | core/ajtcl/src/aj_ardp.c:443-450 | for every back-off below 32 and base below 2^25, the timeout keeps the minimum exactly when the peer's delay does, the back-off is below 7, or a bit of the base survives the shift |
| ArdpRtt.TimeoutVanishes | core/ajtcl/src/aj_ardp.c:443-450 | the least base with a back-off of 30 falls below the minimum |
| AccessControl.CommonPath | core/ajtcl/src/aj_authorisation.c:1249-1272 | a name matches exactly a description that agrees up to the wildcard, or has it as its whole name |
| AccessControl.ActionMaskIsTable | core/ajtcl/src/aj_authorisation.c:1321-1352 | the mask of an action has exactly the bits that the action grants for that kind of member |
| AccessControl.PermissionRuleAccess | core/ajtcl/src/aj_authorisation.c:1292-1366 | the nested walk returns the union over all covering rules, and denies exactly if a wildcard rule does |
| AccessControl.RuleMaskIsUnion | core/ajtcl/src/aj_authorisation.c:1292-1366 | a bit of that union is set exactly when some rule grants the right |
| AccessControl.RulesMean | core/ajtcl/src/aj_authorisation.c:1249-1366 | which rules grant and deny, in terms of the object path, interface and member that the registered strings spell: exact names or prefixes with a star, member kinds, and the bits of each action |
| AccessControl.PermissionPeerFind | core/ajtcl/src/aj_authorisation.c:1403-1429 | found exactly when an entry of that type is listed, with an equal key for CA, public key and membership, and an equal group for membership |
| AccessControl.FindPeer | core/ajtcl/src/aj_authorisation.c:1455-1471 | found exactly when the ACL lists everyone, any trusted peer and it is one, the peer's own key, or the key of one of its issuers |
| AccessControl.AllowedIffGranted | core/ajtcl/src/aj_authorisation.c:348-501 | after a reset, any sequence of applications allows a right exactly when nothing denies it, a policy grants it and a manifest (or policy without ECDSA) grants it |
| AccessControl.AllowedUnderPolicy | core/ajtcl/src/aj_authorisation.c:1368-1490 | the same for one loaded policy, in terms of its ACLs and the manifests |
| AccessControl.OrderIrrelevant | core/ajtcl/src/aj_authorisation.c:1292-1490 | histories equal up to order and repetition of applications, ACLs, peers, rules and permission members compile to the same masks and deny flag |
| AccessControl.Table.AccessControlReset | core/ajtcl/src/aj_authorisation.c:481-501 | the cells of that peer are cleared, all other peers keep theirs |
| AccessControl.Table.ManifestApply | core/ajtcl/src/aj_authorisation.c:1368-1402 | every member's cell for that peer gets the manifest half, all other peers keep theirs |
| AccessControl.Table.PolicyApply | core/ajtcl/src/aj_authorisation.c:1431-1490 | every member's cell for that peer gets the policy applied, all other peers keep theirs |
| AccessControl.Table.ApplyAll | core/ajtcl/src/aj_authorisation.c:1368-1490 | any sequence of resets and applications leaves every member's cell for that peer as the fold of the changes, all other peers keep theirs |
| AccessControl.Table.FindMember | core/ajtcl/src/aj_authorisation.c:249-265 | the first entry with the id |
| AccessControl.Table.CheckMessage | core/ajtcl/src/aj_authorisation.c:348-403 | access exactly when the member is registered and the right is allowed for the peer |
| AccessControl.Table.CheckProperty | core/ajtcl/src/aj_authorisation.c:405-476 | the same for reading and writing properties |
| AccessControl.Table.CheckAfter | core/ajtcl/src/aj_authorisation.c:348-403 | after a reset and any sequence of applications of one policy and of manifests, a message has access exactly when the policy does not deny, an ACL that concerns the peer grants, and with ECDSA a manifest grants |
| CredentialStore.ParseEncoded | core/ajtcl/src/aj_creds.c:302-370 | a credential parses back, whatever follows it in the data set |
| CredentialStore.SizeIsExact | core/ajtcl/src/aj_creds.c:135-145 | the 16-bit size reserves enough exactly when the credential, rounded to a word, is shorter than 64 KiB |
| CredentialStore.Store.FindCredsEmptySlot | core/ajtcl/src/aj_creds.c:147-158 | the first free slot, or 0 exactly when there is none |
| CredentialStore.Store.CredentialFind | core/ajtcl/src/aj_creds.c:160-239 | the first match, or 0 when there is none or an unreadable slot comes first |
| CredentialStore.CutRecordHides | core/ajtcl/src/aj_creds.c:160-239 | a record cut inside its type, or inside the length of its id, hides everything from its slot on |
| CredentialStore.Store.CredentialGet | core/ajtcl/src/aj_creds.c:403-407 | the fields of the slot found, in any store; in a valid one the value of the map, exactly when the key is present and the buffer is large enough |
| CredentialStore.Store.DeleteOldestCredential | core/ajtcl/src/aj_creds.c:241-300 | in any store, of the master secrets that can be read one that expires first is deleted; none exactly when there is none |
| CredentialStore.Store.CredentialWrite | core/ajtcl/src/aj_creds.c:302-336 | what the slot holds after success, a refused data set and a full data set |
| CredentialStore.Store.MakeRoom | core/ajtcl/src/aj_creds.c:381-391 | the eviction loop terminates, gives up only master secrets that expire first, not one more than needed, and does not stop before there is room or no master secret left |
| CredentialStore.Store.CredentialSet | core/ajtcl/src/aj_creds.c:372-401 | in any store, which slots are evicted and written, and that a new key has room unless no master secret is left; in a valid one success is the map update after the evictions, and the store stays valid exactly when the credential fits, nothing was opened, or there was no slot |
| CredentialStore.SetRefinesUpdate | core/ajtcl/src/aj_creds.c:372-401 | writing the chosen slot keeps keys unique and every entry that was not evicted |
| CredentialStore.FailedSetRefines | core/ajtcl/src/aj_creds.c:372-401 | a refused data set loses the old value; one that ran full leaves a slot that cannot be read |
| CredentialStore.RepairExactly | core/ajtcl/src/aj_creds.c:160-401 | after a set that was too long, the key is found again exactly when the cut record still holds its id; setting it again then makes the store valid and is the map update |
| CredentialStore.Store.CredentialDelete | core/ajtcl/src/aj_creds.c:549-561 | the slot found is removed, in any store; in a valid one exactly the key |
| CredentialStore.Store.ClearCredentials | core/ajtcl/src/aj_creds.c:574-608 | in any store exactly the slots that read as the type go, all of them for type 0, which leaves a valid empty store |
| Signature.ComposeSignature | core/ajtcl/src/aj_introspect.c:826-847 | succeeds exactly when the signature fits the buffer, and returns it |
| Signature.ComposeSelectsTypes | core/ajtcl/src/aj_introspect.c:826-847 | the composed signature is the concatenated types of the arguments of that direction |
| Signature.CheckSignature | core/ajtcl/src/aj_introspect.c:788-821 | the two-cursor walk accepts a wildcard or what the argument-by-argument match accepts |
| Signature.AcceptsIffComposed | core/ajtcl/src/aj_introspect.c:788-847 | a signature without spaces is accepted exactly when it is the composed one |
| Signature.OnlyComposedAcceptedExactly | core/ajtcl/src/aj_introspect.c:788-847 | the composed signature is the only one accepted exactly when no space follows the first argument of that direction |
| Signature.AcceptsMoreWithSpaces | core/ajtcl/src/aj_std.c:85-91 | the standard Properties.Get member accepts a signature that is not the composed one |
| MessageId.MatchMember | core/ajtcl/src/aj_introspect.c:890-909 | the loop matches exactly the member's type and whole name |
| MessageId.FindInterface | core/ajtcl/src/aj_introspect.c:911-934 | the first interface of that name, or none |
| MessageId.LookupMessageId | core/ajtcl/src/aj_introspect.c:953-993 | the id of the first matching entry in table order and the verdict on its signature; not found exactly when no entry matches |
| MessageId.EntryMeans | core/ajtcl/src/aj_introspect.c:890-993 | a message matches an entry exactly when the object is enabled and at that path (or a path wildcard of that kind), the interface is the first of that name, and its member is that method or signal |
| MessageId.SignatureMeans | core/ajtcl/src/aj_introspect.c:788-821 | a signature without spaces passes exactly when it is the types of the in arguments of a method, or of the out arguments of a signal |
| MessageId.SignalDirectionExactly | core/ajtcl/inc/aj_introspect.h:88-91 | the header says that the direction of signal arguments is ignored; the signature holds all their types exactly when all are marked as going out |
| MessageId.UnpackPacked | core/ajtcl/src/aj_introspect.c:1015-1071 | an id whose indices fit leads back to its object, interface and member |
| MessageId.PackShifts | core/ajtcl/inc/aj_introspect.h:262 | an id is, from the high byte down, object list, object, interface and member |
| MessageId.BuiltMatchesExactly | core/ajtcl/src/aj_introspect.c:1128-1200 | a message built from an id matches its entry exactly when the kind is right and no interface of the same name is in front |
| MessageId.BuiltMeans | core/ajtcl/src/aj_introspect.c:1128-1200 | what is built for a method or signal, field by field: path, interface, member and the types of the arguments of its direction, or the error |
| MessageId.BuiltSignatureOk | core/ajtcl/src/aj_introspect.c:1128-1200 | and its signature passes the check |
| MessageId.LookupOfBuiltExactly | core/ajtcl/src/aj_introspect.c:953-1200 | building and looking up gives the same id exactly when moreover no earlier entry matches |
| MessageId.SentIsFound | core/ajtcl/src/aj_introspect.c:936-1200 | in unambiguous tables every call or signal that can be built is found under its id |
| MessageId.SameNameHides | core/ajtcl/src/aj_introspect.c:911-934 | a table in which the only matching entry is not found, because an earlier interface has the same name |
| XmlWriter.Writer.Put | core/ajtcl/src/aj_introspect.c:642-665 | both writer functions account for the same piece of text, length 0 standing for the whole string |
| XmlWriter.ExpandAttribute | core/ajtcl/src/aj_introspect.c:157-177 | the cursor stops behind the first delimiter and the word in front of it is written |
| XmlWriter.ExpandArgs | core/ajtcl/src/aj_introspect.c:319-350 | the loop over arguments terminates and writes what is specified, or fails at the same place |
| XmlWriter.ExpandInterfaces | core/ajtcl/src/aj_introspect.c:222-367 | the nested loops write what is specified, or fail at the same place |
| XmlWriter.ChildPath | core/ajtcl/src/aj_introspect.c:373-401 | the path element below the parent, exactly when the path is below it |
| XmlWriter.FirstInstance | core/ajtcl/src/aj_introspect.c:403-417 | the first object with that path element |
| XmlWriter.GenXml | core/ajtcl/src/aj_introspect.c:490-578 | the document of a node, through either writer |
| XmlWriter.HandleIntrospect | core/ajtcl/src/aj_introspect.c:703-749 | the marshalled text is the document; its length word and the promised reply size are right exactly when they fit 32 bits |
| XmlTree.MemberIsTree | core/ajtcl/src/aj_introspect.c:269-362 | a well-formed member string expands to the XML element of the member it spells |
| XmlTree.InterfacesAreTrees | core/ajtcl/src/aj_introspect.c:222-367 | well-formed descriptions expand without error to their interface elements |
| XmlTree.ChildrenOnce | core/ajtcl/src/aj_introspect.c:543-571 | the names listed are exactly those that a path leads to or through below the node, and none twice |
| XmlTree.ChildrenDescribed | core/ajtcl/src/aj_introspect.c:543-571 | a child carries the description of the first object that lies at or below it |
| XmlTree.DocumentIsTree | core/ajtcl/src/aj_introspect.c:490-578 | the document is one serialised element tree: every tag is closed in its place, and its children list each path element below the node once |
| XmlReader.ReadsBackExactly | core/ajtcl/src/aj_introspect.c:106-220 | a reader that works on the characters gives back an element exactly when no attribute value and no text in it would have to be escaped |
| XmlReader.DocumentReadsExactly | core/ajtcl/src/aj_introspect.c:490-578 | the whole document reads back to its tree exactly under that condition, and so whenever names, types, languages and descriptions meet it |
| XmlReader.DescriptionBreaksDocument | core/ajtcl/src/aj_introspect.c:203-220 | a node whose description holds a less-than sign does not read back |
| Der.Cursor.DecodeLength | core/ajtcl/src/aj_cert.c:79-109 | the length is the big-endian value of its octets without overflow, and lies inside the buffer |
| Der.LengthFits | core/ajtcl/src/aj_cert.c:79-109 | an accepted length has no more octets than a word and fits one |
| Der.Cursor.DecodeElement | core/ajtcl/src/aj_cert.c:111-145 | an element that decodes is a slice: header, contents and remainder make up the input |
| Der.Cursor.DecodeElements | core/ajtcl/src/aj_cert.c:147-182 | succeeds exactly when every tag, context-specific ones included, finds its element, and returns the contents in order |
| Der.DecodeEncoded | core/ajtcl/src/aj_cert.c:79-182 | decoding a concatenation of X.690 encodings by class and number returns exactly the contents and what follows |
| Der.ExpectedDecoded | core/ajtcl/src/aj_cert.c:147-182 | the same with universal elements asked for by tag and context-specific ones by number |
| Der.OthersRefused | core/ajtcl/src/aj_cert.c:111-145 | an element with any other identifier octet is refused |
| Der.HeaderComplete | core/ajtcl/src/aj_cert.c:79-109 | an accepted header is complete exactly when the buffer does not end inside its length |
| Der.CutLengthExactly | core/ajtcl/src/aj_cert.c:79-109 | a length that is cut short is accepted exactly when the octets that are there are all zero; contents and remainder are then empty |
| Der.CutLengthAccepted | core/ajtcl/src/aj_cert.c:79-109 | an input of that kind |
| CertChain.ReverseChain | core/ajtcl/src/aj_cert.c:1039-1050 | the same nodes, linked in the opposite order |
| CertChain.ChainMarshal | core/ajtcl/src/aj_cert.c:914-946 | certificates go out leaf first; on every exit the list is as it was |
| CertChain.ChainUnmarshal | core/ajtcl/src/aj_cert.c:948-999 | the new list holds the certificates in the opposite order; it fails exactly when the container, an element, an allocation or a decoding fails |
| CertChain.RoundTrip | core/ajtcl/src/aj_cert.c:1001-1026 | marshalling and unmarshalling gives the same certificates, root first |
| Crc16.EntryIsShift8 | core/ajtcl/src/aj_crc16.c:31-48 | entry x of the table is eight steps of the bit-serial register with polynomial 0x8408, for all x |
| Crc16.LookupIsFeed | core/ajtcl/src/aj_crc16.c:58-60 | one table look-up is eight serial steps |
| Crc16.Compute | core/ajtcl/src/aj_crc16.c:51-62 | the loop computes the bit-serial CRC of the buffer |
| Crc16.SerialConcat | core/ajtcl/src/aj_crc16.c:51-62 | computing in pieces is computing the whole |
| Crc16.BurstDetected | core/ajtcl/src/aj_crc16.c:51-62 | buffers that differ only within two adjacent bytes have different CRCs |
| Crc16.Complete | core/ajtcl/src/aj_crc16.c:65-71 | the two bytes are the low and the high byte with their bits mirrored |

## Left out

- ARDP handshake, disconnect, SYN and RST segments, and the connection states other than OPEN.
- ARDP message expiry: TTL is infinite, and FlushExpiredRcvMessages is shown never to be reached.
- ARDP delayed acknowledgement, probe and back-off times: a bare ACK, a keepalive and a retransmission may happen at any moment.
- ArdpConnection.Connection.StartMsgSend: does not model the TTL, because it is infinite.
- ArdpConnection.Connection.UpdateSndSegments: reports that the round trip is measured instead of calling the estimator, which is modelled on its own in ArdpRtt.
- ArdpConnection.Connection.DataTimerHandler: does not model the new delta and back-off, because when the timer fires next is arbitrary.
- ArdpConnection.Connection.Send: does not model expiry and the refusal outside OPEN, because TTL is infinite and the connection is OPEN.
- ArdpConnection.Connection.Receive: reports the flush of expired messages without doing it, because no run reaches it.
- ArdpRtt.TimeoutClamped: covers back-offs whose shift does not overflow; MinimumKeptExactly says what happens to the minimum otherwise.
- ArdpGap.NeverStored: assumes numbers less than half the range away, because farther ones compare the other way round.
- ArdpGap.GapLosesSegment: the same, for the continuation.
- ArdpRecovery.RecoveryIsPossible: states that a recovering run exists from every good state, not that timers and channels bring it about.
- AccessControl.Table.PolicyApply: does not model the call without a loaded policy, because that is a fixed table of initial rights; the list of registered members is an array here.
- AccessControl.Table.CheckMessage: does not model the Peer.Authentication and Properties interfaces, because they are decided before the masks are read.
- Access control registration, AJ_MembershipApply and the GetAll sentinel members.
- NVRAM: the padding of a data set to a word, compaction, and handles that are not closed on an error path.
- Local credentials, expiry checks and key pairs of the credential store, which are calls to set and get.
- MessageId.LookupMessageId: does not model the secure flag, because it depends on object flags only; replies and errors are not modelled either.
- MessageId.UnpackPacked: follows the build that checks the indices of an id against the tables.
- XML character escapes, which the generator does not write and the reader of this model does not know.
- XmlWriter.GenXml: takes as inputs whether the node is secure and which objects can be introspected.
- Properties look-up, language matching and reply contexts of the introspection code.
- X.509 fields, PEM, keys, signatures and chain verification; a certificate decodes or does not.
- Authentication, key exchange, routing, the event loop and the marshaller.
