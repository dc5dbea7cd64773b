# Bolina in Dafny

A model of Bolina, a single-threaded authority protocol daemon, and proofs about it. What the daemon
keeps in fixed arrays, vectors, bitmaps and an append-only file is modelled by classes with the same fields;
each of their methods is proved against a function on plain values, and the properties are proved of those
functions, over all inputs and over runs of any length. `dafny verify dfyconfig.toml` checks the project.

| area | files |
|---|---|
| causal graph, audit | `Dag`, `Historical` |
| replay windows, transport packets | `Words`, `Replay`, `SessionWindow`, `Transport` |
| evidence ledger and envelope admission | `EvidenceLedger` |
| durable grant ledger, crash consistency | `GrantLog`, `GrantLedger`, `GrantRecords`, `GrantRewrite` |
| grant verification, its runs, scope, intents | `GrantAuthority`, `GrantRuns`, `Scope`, `Intents` |
| wire codec, certificates, session binding | `Wire`, `Codec`, `WireLayout`, `Certs`, `Parsers` |
| Noise_IK handshake and its keys | `Noise`, `Handshake`, `HandshakeKeys`, `NoiseMachines` |
| daemon slots, binding and counters | `DaemonSlots`, `DaemonBinding`, `DaemonMachine` |
| resource names | `Canonical`, `ResourceSet`, `Resolver` |
| reassembly, rate limits, relay store | `Reassembly`, `RateLimit`, `RelayStore` |
| evidence, control plane | `Evidence`, `HttpParse` |

`Base` and `Collections` hold the shared vocabulary and counting facts.

Cryptography enters as functions of which only laws are known: the Noise suite of `Noise.Laws` (agreement
commutes, decryption undoes encryption, output lengths), with a proof that the laws have a model; signature
checks and hashes as parameters with no law at all. Randomness, clocks, the socket's answer and the results of
parts modelled elsewhere are parameters of the step they enter. Machine widths are subset types (`byte`, `u16`,
`u32`, `u64`); 64-bit words of bitmaps are modelled by arithmetic on their bits, with truncation written out.

## What the proofs turned up

- `session::ReplayWindow` takes `highest == 0` for "nothing seen", so it forgets counter 0. At-most-once holds
  for exactly the nonzero counters (`SessionWindow.AtMostOnceIffNonzero`); counter 0 is admitted exactly when all
  counters before it were below 64 and no earlier 0 followed another counter (`SessionWindow.ZeroAdmittedIff`). A
  session's counters start at 0, so the first packet of each key can be delivered twice
  (`Transport.FirstDeliveredTwice`, exactly when: `Transport.FirstDeliveredAgainIff`).
- `prune_expired` reopens the rewritten file at its start, and the next record overwrites the beginning of what
  survived. After a commit that had to prune, recovery returns what memory holds exactly when nothing survived
  (`GrantRewrite.RewriteRecoversIffNothingSurvives`); if a commit survived, one is forgotten
  (`GrantRewrite.SurvivorForgotten`), as after 1025 commits (`GrantRewrite.CommitOverwritesSurvivor`). Log
  properties are therefore stated for runs without a rewriting prune, and the prune property about the image.
- `verify_envelope_admission` answers Equivocation exactly when the store is full
  (`EvidenceLedger.EquivocationMeansFull`), which a run of 4096 envelopes in slots of their own reaches
  (`EvidenceLedger.FullStoreReportsEquivocation`). Real equivocation against a stored envelope is caught by the
  lookup of its caller (`EvidenceLedger.LaterCaughtByLookup`, `EvidenceLedger.EquivocationReportedIff`).
- In `verify_grant_then` the lookups of the intent and its sender come before checks 1 to 5, against the order its
  comments number; the model follows the code. The error differs exactly when a lookup and one of those checks fail
  with different errors (`GrantAuthority.OrderDiffersIff`, an input in `GrantAuthority.OrderShows`); what is
  accepted never differs.
- `dispatch_grant` presents one certificate as approver and as subject. A certificate that passes the chain check
  never holds both roles, so such a grant is never accepted (`GrantAuthority.OneCertNeverBoth`).
- `is_consumed` asks about live commits only, and `mark_published` ends the commit: a grant whose commit was stored
  has its effect again exactly when it has been published since (`GrantRuns.RunsAgainIffPublished`). The daemon as
  it stands never publishes.
- An effect whose grant cannot be stored has its effect again on a retry. Whether it can is decided before the call:
  the id is unpublished, and fewer than 1024 commits are live or would be after a prune
  (`GrantRuns.RetriedIffNotStorable`, `GrantRuns.CommitStoredIff`). A full ledger is such a case
  (`GrantRuns.FullLedgerRepeats`).
- `http_parse` applies its 8 KiB head cap only while the terminator is missing (`HttpParse.TooLargeIff`); a longer
  head that arrives with its terminator is accepted (`HttpParse.LargeHeadGetsThrough`).
- The relay store's byte quota and its last StoreFull exit are never the reason for a refusal
  (`RelayStore.RefusalReasons`), and the intent table's TableFull is never answered (`Resolver.NeverTableFull`).

## Model

| member | source | states |
|---|---|---|
| `Dag.NewLinkReaches` | src/transport/dag.rs:85-113 | Adding one parent link adds exactly the descendant/ancestor pairs whose chain goes through that link, and no others |
| `Dag.InsertAcyclic` | src/transport/dag.rs:85-113 | One insertion, whatever it answers, leaves an acyclic relation acyclic |
| `Dag.RunsStayAcyclic` | src/transport/dag.rs:68-113 | Over every sequence of insertions, failed ones included, the parent relation stays within its bounds and acyclic |
| `Dag.InsertAncestry` | src/transport/dag.rs:68-113 | Which pairs of hashes are in ancestry after an insertion: the old ones and, when it succeeds, exactly those joined by the new link; failed insertions change none |
| `Dag.CyclicIff` | src/transport/dag.rs:85-113 | Cyclic is answered exactly when parent and child are one node or the child is an ancestor of the parent |
| `Dag.OverflowIff` | src/transport/dag.rs:68-113 | Overflow is answered exactly to an edge that closes no cycle and for which there is no room: fewer free places than new nodes, or eight other parents at the child |
| `Dag.InsertNodes` | src/transport/dag.rs:68-113 | Which nodes the table holds after an insertion, refused ones included: parent first, then child, as far as there is room |
| `Dag.RepeatIsNoOp` | src/transport/dag.rs:100-113 | An accepted edge inserted again is accepted and changes nothing |
| `Dag.AncestorTransitive` | src/transport/dag.rs:162-172 | Ancestry between hashes is transitive |
| `Dag.AncestorIrreflexive` | src/transport/dag.rs:162-172 | On an acyclic graph no hash is its own ancestor |
| `Dag.AncestryGrows` | src/transport/dag.rs:85-113 | An ancestry once established survives every later run of insertions |
| `Dag.ExploredExcludes` | src/transport/dag.rs:116-153 | A queue closed under parents and without the target proves that no chain leads to the target: what an exhausted search means |
| `Dag.Dag.InternNode` | src/transport/dag.rs:68-83 | The arrays after interning hold exactly the graph with the node found or appended, or Overflow at capacity |
| `Dag.Dag.ScanParents` | src/transport/dag.rs:133-151 | One round of the search enqueues each unmarked parent once, inside the ancestors of the start, without leaving the queue, or meets the target |
| `Dag.Dag.Search` | src/transport/dag.rs:116-153 | The queue loop ends, stays within its arrays, clears its marks, and answers no only when no chain exists, yes only inside the ancestors of the start |
| `Dag.Dag.ResetVisited` | src/transport/dag.rs:155-160 | Clearing the touched nodes clears every mark |
| `Dag.Dag.IsAncestorIdx` | src/transport/dag.rs:116-153 | The breadth-first search answers yes exactly when a nonempty chain of parent links leads from descendant to ancestor; all marks are clear afterwards |
| `Dag.Dag.AppendParent` | src/transport/dag.rs:100-113 | A link already there is left alone, a full node overflows, otherwise exactly this link is added |
| `Dag.Dag.InsertEdge` | src/transport/dag.rs:85-113 | The array code does to its graph, with its answer, what the insertion on graph values does |
| `Dag.Dag.IsAncestor` | src/transport/dag.rs:162-172 | True exactly for ancestry between known hashes |
| `Dag.Dag.Supersedes` | src/transport/dag.rs:176-179 | True exactly when the effect lies causally between origin and claim |
| `Historical.HistoricalValidity` | src/transport/historical.rs:57-81 | The audit returns the verdict of the ladder read off the graph: certificate, anchor, revocation |
| `Historical.AcceptedIff` | src/transport/historical.rs:57-81 | Accepted exactly with a sound chain, below the anchor, and not below the revocation if there is one |
| `Historical.RejectionInherited` | src/transport/historical.rs:57-81 | An envelope rejected as descending from a revocation has every descendant rejected the same way, for the same sender |
| `Historical.AcceptanceReachesBack` | src/transport/historical.rs:57-81 | If an envelope is accepted, every envelope between its anchor and itself is accepted |
| `Historical.VerdictUnderGrowth` | src/transport/historical.rs:57-81 | Later insertions never lift a descendant-of-revocation rejection, and can turn an acceptance only into that rejection |
| `Replay.AtMostOnce` | src/transport/replay.rs:33-60 | Over any sequence of checks, from any state, no counter is accepted twice |
| `Replay.ReorderingTolerated` | src/transport/replay.rs:33-60 | A counter that has not come before and is overtaken by less than 1024 is accepted |
| `Replay.ShiftedWordBit` | src/transport/replay.rs:64-90 | Each bit of a word assembled from two neighbours is the bit of the old window that far below |
| `Replay.ShiftLeft` | src/transport/replay.rs:64-90 | The in-place multiword shift moves every bit of the 1024-bit window up by the shift and fills with zeros |
| `Replay.ReplayWindow.SetBit` | src/transport/replay.rs:41-60 | Setting one bit leaves the other 1023 alone |
| `Replay.ReplayWindow.Check` | src/transport/replay.rs:33-60 | The bitmap stays the set of accepted counters, bit for bit; accepted exactly when first, above the largest, or within 1024 below it and not accepted before |
| `SessionWindow.AtMostOnceIffNonzero` | src/transport/session.rs:55-85 | A counter is admitted at most once over every run exactly when it is not zero |
| `SessionWindow.ReorderingTolerated` | src/transport/session.rs:55-85 | A counter that has not come before and is overtaken by less than 64 is admitted |
| `SessionWindow.TooLateRefused` | src/transport/session.rs:55-85 | A counter 64 or more behind an admitted nonzero one is refused |
| `SessionWindow.ZeroAcceptedTwice` | src/transport/session.rs:56-60 | Checking counter 0 twice on a new window admits it twice |
| `SessionWindow.ZeroAdmittedIff` | src/transport/session.rs:55-85 | Counter 0 is admitted, again or for the first time, exactly when every counter before it was below 64 and no earlier 0 came after a nonzero counter |
| `SessionWindow.ZeroAdmittedTwiceIff` | src/transport/session.rs:55-85 | Of two occurrences of counter 0 both are admitted exactly under that condition on the second; then nothing but 0 came before the first |
| `SessionWindow.ReplayWindow.Check` | src/transport/session.rs:55-85 | The 64-bit mask stays the set of remembered counters; the verdict is that of the set, counter 0 being forgotten |
| `Transport.PacketOpens` | src/transport/session.rs:214-237 | A sealed packet is type, receiver, counter and the payload sealed under key, nonce and header; it states its counter and opens to the payload put in |
| `Transport.Sender.Seal` | src/transport/session.rs:109-131 | Counters are used 0, 1, 2 and so on, none twice and none from 2^48; a refusal uses no counter |
| `Transport.Receiver.Open` | src/transport/session.rs:155-174 | The window moves only for packets that decrypt; otherwise the answer is by length, room, decryption and replay, in that order |
| `Transport.Arrival` | src/transport/session.rs:155-174 | However a sender's packets are repeated, reordered or lost, each arrival yields its own payload or is refused as a replay, by the window over the earlier arrivals |
| `Transport.DeliveredAtMostOnce` | src/transport/session.rs:155-174 | No payload but the first of a key is delivered twice, whatever the network does |
| `Transport.FirstDeliveredTwice` | src/transport/session.rs:56-60 | The first packet of a key, sent once and arriving twice, is delivered twice |
| `Transport.FirstDeliveredAgainIff` | src/transport/session.rs:55-85 | Over any arrivals, two arrivals of the first packet are both delivered exactly when all counters before the second are below 64 and the packet has not yet arrived after another |
| `Transport.InOrderAllDelivered` | src/transport/session.rs:155-174 | Packets arriving in the order sealed are all delivered |
| `Transport.ReorderedDelivered` | src/transport/session.rs:155-174 | A packet arriving for the first time and overtaken only by counters less than 64 ahead is delivered |
| `Transport.NoncesDistinct` | src/transport/session.rs:214-237 | Different counters have different nonces |
| `EvidenceLedger.WindowGuardsStore` | src/transport/verify.rs:664-703 | Once the sequence window lets a request through, its slot in the store is free: neither the idempotent nor the divergence branch of insertion is reached |
| `EvidenceLedger.RunInv` | src/ledger_envelope.rs:130-207 | In every state reached by admission alone: stored slots are distinct and within their windows, the capacities hold, and inserts = stored + refused for a full store |
| `EvidenceLedger.SlotConsumedOnce` | src/transport/verify.rs:664-703 | No (sender, channel, sequence number) gets past its window twice in a run |
| `EvidenceLedger.StoreIsAdmitted` | src/transport/verify.rs:664-703 | The store is the list of admitted envelopes, in order of admission |
| `EvidenceLedger.ParentsAdmittedEarlier` | src/transport/verify.rs:670-681 | Every parent of an admitted envelope is the hash of one admitted strictly earlier |
| `EvidenceLedger.EquivocationMeansFull` | src/transport/verify.rs:682-703 | The Equivocation answer of admission arises exactly when the store is full |
| `EvidenceLedger.AdmittedIff` | src/transport/verify.rs:664-703 | Admission succeeds exactly when the parents are held, fewer than 4096 envelopes are stored, and the number is new to its window and less than 1024 behind it, or its key is new and fewer than 256 keys have windows |
| `EvidenceLedger.ReorderingTolerated` | src/transport/verify.rs:664-703 | Over any run, whatever number a key starts at and whatever gaps it leaves: an envelope whose parents are admitted, whose number is new and overtaken by less than 1024, is admitted while there is room |
| `EvidenceLedger.CountingUpIsStored` | src/transport/verify.rs:664-703 | Envelopes of one key, without parents and numbered from 0, are all stored while there is room |
| `EvidenceLedger.FullStoreReportsEquivocation` | src/transport/verify.rs:682-703 | A run from the empty ledger: 4096 such envelopes are admitted, and the next, though no two of them share a slot, is answered Equivocation |
| `EvidenceLedger.LaterCaughtByLookup` | src/daemon.rs:455-473 | Over any run of lookups and admissions, once an envelope is admitted every later one for its slot is settled by the lookup: dropped with the same hash, rejected with another, the ledger unchanged |
| `EvidenceLedger.EquivocationReportedIff` | src/daemon.rs:455-473 | An equivocation is reported exactly when the slot is stored with another hash, or the slot is free, every earlier check passes and the store is full |
| `EvidenceLedger.Ledger.AdmitUnlessStored` | src/daemon.rs:455-473 | The lookup before admission, and then the composed call, on the ledger object |
| `EvidenceLedger.RevocationKept` | src/ledger_envelope.rs:252-290 | A revocation is refused exactly when it contradicts an earlier one; into a full table it costs exactly one entry, one of those soonest to expire |
| `EvidenceLedger.Ledger.FindEnvelope` | src/ledger_envelope.rs:111-127 | The scan returns the stored entry of the slot, or that there is none |
| `EvidenceLedger.Ledger.InsertEntry` | src/ledger_envelope.rs:130-157 | Insertion on the vector with its counters: idempotent, divergence, full, or appended |
| `EvidenceLedger.Ledger.AllParentsPresent` | src/ledger_envelope.rs:160-167 | True exactly when every parent is the hash of a stored envelope |
| `EvidenceLedger.Ledger.CheckWindow` | src/ledger_envelope.rs:170-207 | Looking up, opening or refusing a window and checking the number in it, windows of other keys untouched |
| `EvidenceLedger.Ledger.VerifyEnvelopeAdmission` | src/transport/verify.rs:664-703 | The composed call answers and changes the ledger as the admission on values: parents, then window, then store |
| `EvidenceLedger.Ledger.SetAnchor` | src/ledger_envelope.rs:214-236 | An anchor is set once: repeated, contradicted, refused when full, or appended |
| `EvidenceLedger.Ledger.SetRevocation` | src/ledger_envelope.rs:252-290 | The scan for the soonest expiry and the swap-remove give the revocation table of the specification |
| `GrantLog.DecodeEncode` | src/state/ledger.rs:132-184 | A record decodes to what was encoded |
| `GrantLog.EncodeDecode` | src/state/ledger.rs:132-184 | A whole record of a known kind encodes back to its own bytes |
| `GrantLog.RecordsOfLog` | src/state/ledger.rs:132-184 | Replay of whole records and what follows reads those records and goes on with the rest alone |
| `GrantLog.IntactIffRecordsThenTorn` | src/state/ledger.rs:132-184 | Replay succeeds exactly on files that are whole records followed by a torn tail |
| `GrantLog.CutLog` | src/state/ledger.rs:132-184 | Cutting an intact log at any byte leaves exactly the records that fit whole, and stays readable |
| `GrantLedger.FileIsLog` | src/state/ledger.rs:190-263 | Over every sequence of calls from an empty file without a rewriting prune, the file is the log of the calls, the position is its end, and memory is what replaying it gives |
| `GrantLedger.CrashConsistent` | src/state/ledger.rs:116-263 | Cut after any byte, recovery succeeds with exactly the state after the calls whose records are whole |
| `GrantLedger.OrphansAfterCrash` | src/state/ledger.rs:116-188 | The orphans recovered are, each once, the commits of that state never published |
| `GrantLedger.RunsStayTidy` | src/state/ledger.rs:190-227 | In every such state nothing is both committed and published, and the commit order lists each live commit once |
| `GrantLedger.PublishedForGood` | src/state/ledger.rs:190-227 | A published grant stays published and is never again among the commits |
| `GrantRecords.CommitRecords` | src/state/ledger.rs:190-212 | On an open, writable ledger: a known grant is left alone, 1024 live commits refuse, and any other commit writes exactly its 25 bytes and is remembered |
| `GrantRecords.PublishRecords` | src/state/ledger.rs:215-227 | Publishing is never refused; it ends the commit and writes its 17 bytes once |
| `GrantRecords.RevokeRecords` | src/state/ledger.rs:229-247 | A revocation is refused exactly when the key is unknown and 1024 keys are revoked; otherwise the key is revoked, under its first expiry |
| `GrantRecords.ReceiptRecords` | src/state/ledger.rs:249-263 | A first receipt is never refused, and the first time stands |
| `GrantRecords.NothingRecorded` | src/state/ledger.rs:351-364 | A closed or read-only handle changes nothing and answers DiskError to whatever it would have to record |
| `GrantRecords.RevokedIff` | src/state/ledger.rs:229-247 | Over runs, a key is revoked exactly when some call revoked it with room for it |
| `GrantRecords.FirstRevocationStands` | src/state/ledger.rs:229-247 | And under the expiry of the first such call |
| `GrantRecords.ReceivedIff` | src/state/ledger.rs:249-263 | Over runs, a first receipt is on record exactly when some call brought one |
| `GrantRecords.FirstReceiptStands` | src/state/ledger.rs:249-263 | And with the time of the first |
| `GrantRecords.PublishedIff` | src/state/ledger.rs:215-227 | Over runs, a grant is published exactly when some call published it |
| `GrantRecords.CommittedIff` | src/state/ledger.rs:190-227 | Over runs, a grant is a live commit exactly when some call committed it with room for it and none published it |
| `GrantRecords.RecordsSurviveCut` | src/state/ledger.rs:116-263 | Revocations, first receipts and publications survive every cut of the log that keeps their records, and a cut recovers nothing else |
| `GrantRecords.RevocationSurvivesCut` | src/state/ledger.rs:116-247 | A key revoked with room stays revoked, with the same expiry, across every cut that keeps the record |
| `GrantRecords.ReceiptSurvivesCut` | src/state/ledger.rs:116-263 | And so does a first receipt |
| `GrantRecords.OrphansInOrder` | src/state/ledger.rs:176-187 | After a cut at any byte the orphans come in the order they were first committed |
| `GrantLedger.ImageRecovers` | src/state/ledger.rs:301-331 | The image written by pruning, in any map order, recovers to exactly the surviving commits, all revocations, all anchors and no published grant |
| `GrantLedger.PruneKeeps` | src/state/ledger.rs:283-299 | Pruning keeps exactly the commits that expire later than now, each under its expiry, and everything else |
| `GrantLedger.WriteExtendsIffAtEnd` | src/state/ledger.rs:357-364 | A write keeps all that was there exactly when the position is at the end of the file |
| `GrantRewrite.RecoveryWithin` | src/state/ledger.rs:116-188 | Recovery never returns more than the bytes of the file pay for, record by record |
| `GrantRewrite.RewriteRecoversIffNothingSurvives` | src/state/ledger.rs:190-212 | After a commit that had to prune and so rewrote the file, recovery returns what memory holds exactly when no unexpired commit, no revocation and no first receipt had survived; then it returns memory but for the published marks |
| `GrantRewrite.SurvivorForgotten` | src/state/ledger.rs:190-212 | When a commit survived such a prune, recovery returns everything in memory except exactly one of the survivors |
| `GrantRewrite.CommitOverwritesSurvivor` | src/state/ledger.rs:190-212 | A run that gets there: 1024 commits to a new ledger, one of them expired, and one more commit; whatever file that call leaves, the next recovery forgets an unexpired grant |
| `GrantLedger.GrantLedger.Open` | src/state/ledger.rs:72-96 | Opening puts the position at the start and remembers nothing |
| `GrantLedger.GrantLedger.Close` | src/state/ledger.rs:347-349 | Closing only drops the handle |
| `GrantLedger.GrantLedger.Replay` | src/state/ledger.rs:145-182 | One record brings memory to the state after applying it |
| `GrantLedger.GrantLedger.Recover` | src/state/ledger.rs:116-188 | The replay loop rebuilds memory from the file, tolerates a torn tail, refuses an unknown tag, returns the orphans, and leaves the position at the end |
| `GrantLedger.GrantLedger.CommitConsumed` | src/state/ledger.rs:190-212 | Known grants are left alone, a full table is pruned first; otherwise the record is written and remembered; after a rewriting prune the file is the new record written over the start of an image of the survivors |
| `GrantLedger.GrantLedger.MarkPublished` | src/state/ledger.rs:215-227 | One publishing step of the specification |
| `GrantLedger.GrantLedger.CommitRevocation` | src/state/ledger.rs:229-247 | One revocation step of the specification |
| `GrantLedger.GrantLedger.RecordFirstReceipt` | src/state/ledger.rs:249-263 | One first-receipt step of the specification: the first time stands |
| `GrantLedger.GrantLedger.BuildImage` | src/state/ledger.rs:301-331 | The bytes written are an image of the state, each entry once |
| `GrantLedger.GrantLedger.PruneExpired` | src/state/ledger.rs:283-345 | Expired commits go, all else stays; the file is rewritten only if any went, leaving the position at the start |
| `GrantLedger.GrantLedger.IsConsumed` | src/state/ledger.rs:269-271 | True exactly for live commits |
| `GrantAuthority.OneCertNeverBoth` | src/transport/dispatch.rs:160-185 | One certificate that passes the chain check can never serve as approver and subject at once: every grant so presented is refused |
| `GrantAuthority.AcceptedIff` | src/transport/verify.rs:205-327 | A grant is accepted exactly when its version, signature and envelope are right, both certificates are in role, name their key, are unrevoked and, from version 3 on, list the resource in their scope, it answers the first pending intent of its id with the same subject, resource and action, is in time, and not consumed; every number and bit spelled out |
| `GrantAuthority.NoScopeNoGrant` | src/transport/verify.rs:259-283 | No grant is accepted under a certificate of version 3 or later without scopes |
| `GrantAuthority.ConsumedIsLast` | src/transport/verify.rs:319-326 | AlreadyConsumed is the answer exactly when nothing else is wrong |
| `GrantAuthority.OrderDiffersIff` | src/transport/verify.rs:205-327 | The answer differs from that of the checks in their numbered order exactly when the version is 2, the intent or its sender is not found, one of checks 1 to 5 would fail too, and its error is another; acceptance never differs |
| `GrantAuthority.OrderShows` | src/transport/verify.rs:219-241 | Inputs on which it differs: no intent is pending and the envelope is not a grant |
| `GrantRuns.RunsAtMostOnce` | src/transport/verify.rs:205-327 | After an effect whose commit is storable, and while the grant is unpublished, no attempt under the same grant id has its effect unless it expires later, across any pruning and other grants in between on a clock that does not go back |
| `GrantRuns.GrantRunsAtMostOnce` | src/transport/verify.rs:205-327 | The same grant does not have its effect again once stored, pruned or not, while it is unpublished |
| `GrantRuns.RunsAgainIffPublished` | src/state/ledger.rs:215-271 | Over any run on a clock that does not go back: after a stored effect, an attempt with the same grant that passes every other check has its effect again exactly when the grant was published in between |
| `GrantRuns.CommitStoredIff` | src/state/ledger.rs:190-212 | When an effect happens, its grant is committed exactly when, before the call, the id is unpublished and fewer than 1024 commits are live, or would be after dropping the expired |
| `GrantRuns.RetriedIffNotStorable` | src/daemon.rs:510-549 | An immediate retry has its effect again exactly when that condition fails |
| `GrantRuns.FullLedgerRepeats` | src/daemon.rs:510-549 | A run that gets there: with 1024 unexpired commits the effect happens, the commit is ResourceExhausted, and the same attempt has its effect again |
| `GrantRuns.AtMostOnceAcrossCrash` | src/state/ledger.rs:116-212 | The log cut at any byte that keeps a commit record whole, recovered, and any events after: an attempt under that id that expires no later and passes every other check has its effect exactly when the id was published before the cut or is published since |
| `GrantAuthority.CheckScope` | src/transport/verify.rs:248-282 | Scope counts from certificate version 3 on, and there decides |
| `GrantAuthority.VerifyGrantThen` | src/transport/verify.rs:205-327 | The ladder answers as specified and the ledger changes by the effect's commit and by nothing else |
| `GrantAuthority.VerifyRefusalThen` | src/transport/verify.rs:386-435 | A refusal signed by its sender releases the pending intent it names; otherwise nothing changes |
| `Scope.CertCarriesScope` | src/transport/verify.rs:356-366 | True exactly when the scope identifier is among those listed |
| `Scope.ScopeCoversResource` | src/transport/verify.rs:334-354 | The walk over prefixes ends and is true exactly when the certificate lists the full identifier or a nonempty prefix ending before a slash |
| `Scope.CoverageDescends` | src/transport/verify.rs:334-354 | A certificate that covers a resource covers everything below it |
| `Scope.CoverageOfChild` | src/transport/verify.rs:334-354 | A child is covered exactly when it is listed itself or its parent is covered |
| `Scope.CoverageOfRoot` | src/transport/verify.rs:334-354 | A name without a slash is covered exactly when it is listed itself, the empty name never |
| `Scope.ListedIff` | src/transport/verify.rs:356-366 | Listed means: the first eight bytes of the hash are one of the packed scopes |
| `Wire.ValueOfBytes` | src/codec.rs:109-131 | Big-endian bytes of a number that fits read back to it |
| `Wire.BytesOfValue` | src/codec.rs:109-131 | Bytes are recovered from the number they spell |
| `Wire.MostSignificantFirst` | src/codec.rs:109-131 | The first byte counts most |
| `Codec.EnvelopeRoundTrip` | src/codec.rs:245-283 | The parser accepts exactly the encodings of values within the length bounds, and returns the value encoded; the wire is the signed part followed by the signature |
| `Parsers.ReadEnvelope` | src/codec.rs:245-283 | The cursor-driven parser, never leaving the buffer, gives the answer of the specification |
| `Parsers.WriteEnvelope` | src/codec.rs:491-505 | The appended fields are the canonical encoding |
| `Codec.IntentRoundTrip` | src/codec.rs:286-305 | The parser accepts exactly the encodings of values within the length bounds, and returns the value encoded |
| `Parsers.ReadIntent` | src/codec.rs:286-305 | The cursor-driven parser, never leaving the buffer, gives the answer of the specification |
| `Parsers.WriteIntent` | src/codec.rs:507-514 | The appended fields are the canonical encoding |
| `Codec.GrantRoundTrip` | src/codec.rs:307-338 | The parser accepts exactly the encodings of values within the length bounds, and returns the value encoded; the wire is the signed part followed by the signature |
| `Parsers.ReadGrant` | src/codec.rs:307-338 | The cursor-driven parser, never leaving the buffer, gives the answer of the specification |
| `Parsers.WriteGrant` | src/codec.rs:516-529 | The appended fields are the canonical encoding |
| `Codec.RefusalRoundTrip` | src/codec.rs:340-357 | The parser accepts exactly the encodings of values within the length bounds, and returns the value encoded; the wire is the signed part followed by the signature |
| `Parsers.ReadRefusal` | src/codec.rs:340-357 | The cursor-driven parser, never leaving the buffer, gives the answer of the specification |
| `Parsers.WriteRefusal` | src/codec.rs:531-537 | The appended fields are the canonical encoding |
| `Codec.SpanRoundTrip` | src/codec.rs:361-392 | The parser accepts exactly the encodings of values within the length bounds, and returns the value encoded; the wire is the signed part followed by the signature |
| `Parsers.ReadSpan` | src/codec.rs:361-392 | The cursor-driven parser, never leaving the buffer, gives the answer of the specification |
| `Parsers.WriteSpan` | src/codec.rs:539-553 | The appended fields are the canonical encoding |
| `WireLayout.EnvelopeLayout` | src/codec.rs:245-283 | The parser accepts exactly the listed fields in the listed order, of the listed lengths, the signed part being all before the signature |
| `WireLayout.IntentLayout` | src/codec.rs:286-305 | The parser accepts exactly the listed fields in the listed order, of the listed lengths |
| `WireLayout.GrantLayout` | src/codec.rs:307-338 | The parser accepts exactly the listed fields in the listed order, of the listed lengths, the signed part being all before the signature |
| `WireLayout.RefusalLayout` | src/codec.rs:340-357 | The parser accepts exactly the listed fields in the listed order, of the listed lengths, the signed part being all before the signature |
| `WireLayout.SpanLayout` | src/codec.rs:361-392 | The parser accepts exactly the listed fields in the listed order, of the listed lengths, the signed part being all before the signature |
| `WireLayout.CertLayout` | src/codec.rs:399-449 | The parser accepts exactly the listed fields in the listed order, of the listed lengths, with strictly ascending CA keys; what the CAs sign ends before their number |
| `WireLayout.FieldStands` | src/codec.rs:96-153 | Every field stands where the lengths of those before it put it |
| `Certs.LexLessIff` | src/codec.rs:414-431 | Keys are ordered by the first byte that differs |
| `Certs.AscendingIff` | src/codec.rs:414-431 | Pairs ascend exactly when each key is below the next |
| `Certs.CertRoundTrip` | src/codec.rs:399-449 | The certificate parser accepts exactly the encodings of certificates within the bounds whose CA keys ascend strictly |
| `Parsers.ReadCaPairs` | src/codec.rs:414-431 | The loop over CA pairs, comparing each key with the one before, accepts exactly strictly ascending pairs |
| `Parsers.ReadCert` | src/codec.rs:399-449 | The cursor-driven certificate parser gives the answer of the specification |
| `Parsers.WriteCert` | src/codec.rs:555-569 | The appended fields are the canonical encoding |
| `Parsers.Cursor.Need` | src/codec.rs:96-101 | Truncated exactly when fewer bytes are left |
| `Parsers.Cursor.Bytes` | src/codec.rs:133-138 | The next bytes are taken from what is left, or nothing moves |
| `Parsers.Cursor.ShortField` | src/codec.rs:140-146 | A 16-bit length-prefixed field within its bound; the length is read, then bounded, then the bytes are taken |
| `Parsers.Cursor.LongField` | src/codec.rs:148-153 | A 32-bit length-prefixed field within its bound; the length is read, then bounded, then the bytes are taken |
| `Certs.LexTransitive` | src/codec.rs:414-431 | The order of CA keys is transitive |
| `Certs.KeysDistinct` | src/codec.rs:414-431 | Neighbouring comparisons make all keys pairwise distinct |
| `Certs.ChainSoundIff` | src/transport/binding.rs:61-127 | A chain is accepted exactly when the role bits do not conflict, approvers have a quorum, privileged certificates are short-lived, and every CA pair is trusted and verifies |
| `Certs.ApproverQuorumDistinct` | src/transport/binding.rs:94-127 | A parsed approver certificate that passes the chain check carries at least two pairwise distinct trusted CA keys, each verifying over the same signed part |
| `Noise.LawsHaveModel` | src/transport/noise.rs:97-118 | The laws assumed of the cryptographic suite hold of some suite |
| `Noise.DecryptUndoesEncrypt` | src/transport/noise.rs:166-220 | On equal states, decrypting what was encrypted returns the plaintext and leaves equal states |
| `Noise.TokenAgreement` | src/transport/noise.rs:285-296 | In mirrored states the two sides compute the same secret for every Diffie-Hellman token |
| `Noise.TokensReadBack` | src/transport/noise.rs:270-447 | For every legal token sequence, what one side writes the mirrored side reads, to the last byte, and the sides mirror each other again |
| `Noise.MessageReadBack` | src/transport/noise.rs:270-511 | For every legal message pattern, a message written is read, the payload recovered, the static key learned if sent, and the sides mirror each other again |
| `Handshake.WriteInitiationIsNoise` | src/transport/noise.rs:270-317 | The initiation is the 144-byte frame around message "-> e, es, s, ss" of section 7.5 of the Noise Protocol Framework, failing exactly when it fails |
| `Handshake.ReadInitiationIsNoise` | src/transport/noise.rs:412-463 | A wrong mac1 is refused before anything changes; past it, reading the initiation is reading that message |
| `Handshake.WriteResponseIsNoise` | src/transport/noise.rs:468-509 | The response is the 92-byte frame around message "<- e, ee, se" |
| `Handshake.ReadResponseIsNoise` | src/transport/noise.rs:322-353 | A wrong mac1 is refused before anything changes; past it, reading the response is reading that message |
| `Handshake.HonestInitiation` | src/transport/noise.rs:270-463 | The initiation is written unless an agreement hits the identity point, and then read: the responder recovers the static key, index and timestamp |
| `Handshake.HonestResponse` | src/transport/noise.rs:322-509 | From ends in step, the response is written unless an agreement hits the identity point, and then read; the ends finish with equal hash and chaining key and crossed keys |
| `Handshake.HonestHandshake` | src/transport/noise.rs:253-520 | With none of the four agreements at the identity point every step succeeds and the ends finish in step |
| `HandshakeKeys.InitiationSpelled` | src/transport/noise.rs:270-317 | The first message byte for byte in terms of the suite: both sealed parts under keys chained from the secrets, over the hash chained from all before; it fails exactly when one of its two secrets is no point |
| `HandshakeKeys.InitiationAccepted` | src/transport/noise.rs:412-463 | From anyone, the responder accepts a first message exactly when its mac is right, neither secret is no point and both sealed parts open; what they open to is the static key and the time |
| `HandshakeKeys.ResponseSpelled` | src/transport/noise.rs:468-509 | The second message byte for byte, and when it fails |
| `HandshakeKeys.ResponseAccepted` | src/transport/noise.rs:322-353 | From anyone, the initiator accepts a second message exactly when its mac is right, neither secret is no point and its sealed part opens |
| `HandshakeKeys.InitiatorDerives` | src/transport/noise.rs:155-161 | Whoever answers, the initiator ends with the keys of the chain through es, ss, ee and se, each spelled as a scalar multiplication, and the hash chained over all six parts sent |
| `HandshakeKeys.ResponderDerives` | src/transport/noise.rs:155-161 | Whoever asks, the responder ends with the keys of the chain through the same four secrets as it computes them, crossed |
| `HandshakeKeys.HonestKeys` | src/transport/noise.rs:147-161 | An honest handshake whose four secrets are points succeeds, and both ends hold the keys of one chain through them, crossed, and the same hash |
| `NoiseMachines.SymmetricState.constructor` | src/transport/noise.rs:132-144 | The initial state of section 5.2 |
| `NoiseMachines.SymmetricState.MixHash` | src/transport/noise.rs:147-152 | The object changes as the state value does |
| `NoiseMachines.SymmetricState.MixKey` | src/transport/noise.rs:155-161 | The object changes as the state value does, the nonce back at zero |
| `NoiseMachines.SymmetricState.EncryptAndHash` | src/transport/noise.rs:166-191 | State and output as for the state value |
| `NoiseMachines.SymmetricState.DecryptAndHash` | src/transport/noise.rs:195-220 | As for the state value; a failed tag changes nothing |
| `NoiseMachines.Initiator.WriteInitiation` | src/transport/noise.rs:270-317 | The writes at fixed offsets fill the buffer with the message of the specification; state and error as specified on every path, and what a failed call has written by then |
| `NoiseMachines.Initiator.ReadResponse` | src/transport/noise.rs:322-353 | Answer and state as specified on every path |
| `NoiseMachines.Initiator.Finalize` | src/transport/noise.rs:369-376 | Sends under the first key, receives under the second |
| `NoiseMachines.Responder.ReadInitiation` | src/transport/noise.rs:412-463 | Answer and state as specified on every path |
| `NoiseMachines.Responder.WriteResponse` | src/transport/noise.rs:468-509 | The writes at fixed offsets fill the buffer with the message of the specification; state and error as specified on every path, and what a failed call has written by then |
| `NoiseMachines.Responder.Finalize` | src/transport/noise.rs:513-520 | Sends under the second key, receives under the first |
| `DaemonSlots.AdmissionNeverFails` | src/daemon.rs:301-317 | After a commit, the session table always has the slot free |
| `DaemonSlots.LocalInRange` | src/daemon.rs:383-385 | Every session in use lies at a handshake slot's index and says so, so the peer key of the binding path exists |
| `DaemonSlots.SlotsStayInStep` | src/daemon.rs:152-473 | Over every run of datagrams and sweeps: handshake slot, session and peer key of an index are there together or not at all, none beyond the sixteen, and per-class refusals sum to the refusals counted plus the handshakes turned away for want of a slot |
| `DaemonSlots.BoundMeansVouched` | src/daemon.rs:358-422 | Over every run, a session is bound only while a certificate on record passes the chain check, names the peer's static key, and has a signature over that session's handshake hash |
| `DaemonSlots.HonestPeerAdmitted` | src/transport/handshake.rs:133-196 | An honest initiation finding a free slot is committed with its static key and crossed keys, and the response names that slot |
| `DaemonBinding.BindsIff` | src/daemon.rs:358-422 | A frame of length, certificate and signature binds an unbound session exactly when the certificate parses, its chain is sound, it is in force, names the peer's key, and the signature verifies over the session's hash; otherwise one BINDING refusal is counted and nothing else changes |
| `DaemonBinding.ShortFrameRefused` | src/daemon.rs:366-379 | A frame shorter than its length says is refused and counted |
| `DaemonBinding.HandshakeStep` | src/daemon.rs:284-317 | A handshake datagram seats the peer in slot, session and peer key, or counts a full table, or changes nothing |
| `DaemonBinding.TransportStep` | src/daemon.rs:319-356 | A transport datagram to a session in use is counted, judged as an envelope, or taken as a binding frame, by decryption and binding; to any other index it changes nothing |
| `DaemonBinding.OtherDatagramsIgnored` | src/daemon.rs:272-282 | No other datagram changes anything |
| `DaemonBinding.SweepStep` | src/daemon.rs:152-168 | A sweep frees exactly the slots made more than 900 seconds ago, in all three places, and counts them |
| `DaemonBinding.HonestPeerSeated` | src/daemon.rs:284-317 | An honest initiation finding a free slot is seated there, unbound, under the keys the peer gets from the reply, crossed, and its hash |
| `DaemonBinding.HonestPeerBinds` | src/daemon.rs:284-422 | And the frame it then sends through the session binds it exactly when the certificate convinces for its own key and the hash it holds itself |
| `DaemonMachine.Daemon.ProcessDatagram` | src/transport/handshake.rs:133-196 | Type and length, room, cryptography, send, and only then the commit, in that order |
| `DaemonMachine.Daemon.HandleHandshake` | src/daemon.rs:284-317 | The tables after a handshake datagram are those of the specification, invariant included |
| `DaemonMachine.Daemon.HandleBinding` | src/daemon.rs:358-422 | The frame, the certificate and the binding decide as specified; a failure counts one refusal and binds nothing |
| `DaemonMachine.Daemon.HandleTransport` | src/daemon.rs:319-356 | Lookup, decryption outcome, bound or binding path, with the counters, as specified |
| `DaemonMachine.Daemon.HandleDatagram` | src/daemon.rs:272-282 | Dispatch on the first byte, as one step of the specification |
| `DaemonMachine.Daemon.ReleaseStale` | src/transport/handshake.rs:106-124 | Exactly the slots silent longer than the horizon are freed, and named in order |
| `DaemonMachine.Daemon.ReleaseHsSlot` | src/daemon.rs:152-156 | A release clears the slot in all three places |
| `DaemonMachine.Daemon.ReleaseStaleSlots` | src/daemon.rs:161-168 | One sweep step of the specification, counting what it released |
| `Reassembly.RunKeepsInv` | src/transport/reassembly.rs:91-192 | In every reachable state: distinct message ids, incomplete contexts with fragments in range, each message within 1 MiB, the peer within 8 MiB |
| `Reassembly.CompleteIffAllSeen` | src/transport/reassembly.rs:91-168 | On any reachable table and any fragment, Complete is answered exactly when the fragment is well formed, there is room for it, and it is the last missing of all indices of its message |
| `Reassembly.CompletesIffPermutation` | src/transport/reassembly.rs:91-192 | Over every run from an empty peer, a fragment completes its message exactly when it is well formed, has room, and together with the fragments accepted for that id since its context began is a permutation of all indices |
| `Reassembly.FragmentOutcome` | src/transport/reassembly.rs:91-171 | What every fragment does, by cases: nothing when malformed, seen or without a context; its message given up when the total differs or a byte limit is passed; complete when the last is in; else recorded; no other message is touched |
| `Reassembly.EvictsIff` | src/transport/reassembly.rs:183-192 | A context is evicted exactly when untouched for 30 seconds, the clock possibly having wrapped |
| `Reassembly.SingleFragment` | src/transport/reassembly.rs:127-168 | A one-fragment message completes at once exactly when a context is free and it fits |
| `Reassembly.PeerReassembler.IngestFragment` | src/transport/reassembly.rs:91-171 | Contexts, bitmaps, active and bytes_used change as the specification says, the counters being the exact sums, so the saturating subtraction never saturates |
| `Reassembly.PeerReassembler.FreeContext` | src/transport/reassembly.rs:173-181 | Freeing a context gives back exactly its bytes and its place |
| `Reassembly.PeerReassembler.EvictExpired` | src/transport/reassembly.rs:183-192 | Exactly the stale contexts are freed |
| `RateLimit.ExactWindow` | src/transport/sync.rs:50-64 | On a clock that does not go back, the ring admits exactly when fewer than the budget of all earlier admissions are less than a window old |
| `RateLimit.NeverOverBudget` | src/transport/sync.rs:50-64 | No window-long interval ever holds more admissions than the budget |
| `RateLimit.RateWindow.Admit` | src/transport/sync.rs:50-64 | The ring of stamps holds the last admissions and decides by them |
| `RateLimit.PeersIndependent` | src/transport/sync.rs:85-97 | From any table, over any calls, the history of every peer tracked at the end is what a private window fed only its own calls would hold |
| `RateLimit.VerdictsPrivate` | src/transport/sync.rs:75-97 | From the empty table, each call is admitted exactly when its peer has a place in the table and a private window fed only that peer's calls admits it |
| `RateLimit.FullStaysClosed` | src/transport/sync.rs:85-97 | A peer that comes to a full table is never tracked in it |
| `RateLimit.NeverAdmitted` | src/transport/sync.rs:85-97 | A peer that has called is untracked only if the table is full |
| `RateLimit.RateTable.Admit` | src/transport/sync.rs:85-97 | The table judges a tracked peer by its own window, tracks a new one while there is room, refuses it otherwise |
| `RelayStore.NothingLost` | src/transport/relay_store.rs:73-163 | Over every run, the packets accepted are, as a bag, those held, those handed over and those that lapsed; bounds on bodies and recipients hold |
| `RelayStore.RefusalReasons` | src/transport/relay_store.rs:80-115 | Each refusal arises for exactly one reason: body too large, 1024 held, or 64 held for the recipient; the byte quota and the last exit are never the reason |
| `RelayStore.DroppedAreExpired` | src/transport/relay_store.rs:150-163 | What a purge drops has been held for 120 seconds, what it keeps has not |
| `RelayStore.BytesWithinPackets` | src/transport/relay_store.rs:88-100 | A recipient's bytes are bounded by its packets, far below four mebibytes |
| `RelayStore.DrainsInOrder` | src/transport/relay_store.rs:118-148 | On a clock that does not go back, successive packets handed to a recipient were stored in that order |
| `RelayStore.DeliveryIff` | src/transport/relay_store.rs:118-148 | A drain hands over a packet exactly when one for the recipient is held less than 120 seconds old, and only such a one |
| `RelayStore.Oldest` | src/transport/relay_store.rs:124-139 | The choice is a packet of least stored time, the lowest slot among equals |
| `RelayStore.Relay.Put` | src/transport/relay_store.rs:73-116 | Slots, answer and refused count as specified; count stays the number of slots in use |
| `RelayStore.Relay.DrainNext` | src/transport/relay_store.rs:118-148 | Slots and packet handed over as specified |
| `RelayStore.Relay.PurgeExpired` | src/transport/relay_store.rs:150-163 | Exactly the expired slots are freed and counted |
| `Canonical.ValidateCanonical` | src/transport/resolver.rs:82-141 | The one-pass scanner accepts exactly the grammar: scheme, sixteen lower-case hex digits, namespace, and a path whose segments are nonempty and neither "." nor ".." |
| `Canonical.CanonicalLength` | src/transport/resolver.rs:201-219 | Accepted identifiers are between 24 and 234 bytes long, so the later length check and copies are safe |
| `Canonical.ShapeIffCanonical` | src/transport/resolver.rs:82-141 | The grammar by splitting equals the grammar by position of the second slash |
| `Canonical.CanonicalIff` | src/transport/resolver.rs:82-141 | The grammar by characters and positions: every stretch between slashes is a segment, and none is empty, "." or ".." |
| `Resolver.Resolver.Add` | src/transport/resolver.rs:201-219 | Malformed, full or duplicate identifiers are refused, others appended; the set stays canonical and distinct |
| `Resolver.Resolver.AddAlias` | src/transport/resolver.rs:221-237 | An alias is recorded for a known entry while there is room |
| `Resolver.Resolver.Resolve` | src/transport/resolver.rs:239-264 | The answer is the one resolution of the proposed name: exact, by a unique alias, ambiguous, unknown or foreign |
| `Resolver.ResolutionUnique` | src/transport/resolver.rs:239-264 | A name has one resolution |
| `Resolver.Resolver.ProposeIntent` | src/transport/resolver.rs:315-331 | Resolution then admission, with the table as specified |
| `Resolver.RunKeepsInv` | src/transport/resolver.rs:239-331 | Over every run of proposals, executions, refusals and expiries: entries are pending or executing, on distinct own declared resources, at most one pending per id |
| `Resolver.TableBounded` | src/transport/resolver.rs:315-331 | The intent table never outgrows the declared resources |
| `Resolver.NeverTableFull` | src/transport/resolver.rs:315-331 | TableFull is never the answer |
| `Resolver.AliasesShareTheLock` | src/transport/resolver.rs:239-331 | A proposal by any name of a declared resource that some entry holds, its identifier or one of its aliases, is refused and changes nothing |
| `Resolver.ProposalAdmittedIff` | src/transport/resolver.rs:239-331 | A proposal is admitted exactly when its name stands for exactly one declared resource, that resource is the executor's own and free, and no pending entry has its intent id; it is then pending from now on, last in line |
| `Resolver.ExecutingExcludes` | src/transport/resolver.rs:239-331 | Over every run from a table with an executing entry, no later proposal by any name of its resource is ever admitted |
| `Resolver.ExecutingStays` | src/state/intent.rs:127-164 | An executing intent survives every refusal, expiry and proposal |
| `Resolver.Resolver.Serialize` | src/transport/resolver.rs:280-313 | The buffer receives the serialized set and nothing beyond it, or is untouched when too small |
| `Resolver.Resolver.SerializedLen` | src/transport/resolver.rs:266-278 | The length announced is the length written |
| `ResourceSet.SerializationInjective` | src/transport/resolver.rs:280-313 | Two declared sets serialize alike exactly when they name the same resources with the same aliases, in order |
| `ResourceSet.OwnIff` | src/transport/resolver.rs:239-264 | A canonical resource is the executor's own exactly when its fingerprint is |
| `Intents.Table.AdmitIntent` | src/state/intent.rs:72-104 | Admission on the vector: a duplicate pending id, a held resource, a full table, and otherwise the entry appended, in that order |
| `Intents.Table.MatchForGrant` | src/state/intent.rs:108-112 | The first pending entry of the id |
| `Intents.Table.Begin` | src/state/intent.rs:115-124 | A pending entry starts executing; any other is refused |
| `Intents.Table.Refuse` | src/state/intent.rs:127-142 | The pending entry of the id goes, and no other |
| `Intents.Table.Sweep` | src/state/intent.rs:145-164 | Exactly the timed-out entries go |
| `Intents.AdmitAnswers` | src/state/intent.rs:72-104 | Which answer a proposal gets, and the entry it becomes |
| `Intents.BeginIff` | src/state/intent.rs:115-124 | Execution begins exactly from pending and moves nothing else |
| `Intents.RefusalReleases` | src/state/intent.rs:127-142 | A refusal removes exactly the pending entries of the id and says whether there was one |
| `Intents.SweepRemovesTimedOut` | src/state/intent.rs:145-164 | Expiry removes exactly the pending entries admitted more than 900 seconds ago |
| `Evidence.ConfidenceIsRecomputed` | src/transport/evidence.rs:166-237 | A claim is supported exactly when some cited inline span qualifies, and then at the smaller of what it states and the highest ceiling among those; unresolved exactly when none does and one awaits its origin |
| `Evidence.SupportsIff` | src/transport/evidence.rs:174-225 | A citation supports up to a ceiling exactly when its first inline span is signed by an executor, about the subject, of an effect, and permanent or not superseded; the ceiling is that of its method |
| `Evidence.PendingIff` | src/transport/evidence.rs:174-225 | It is pending exactly when it qualifies but for its origin not being here yet |
| `Evidence.RecordCounts` | src/transport/evidence.rs:166-237 | The record counts the citations and how far each of them got |
| `Evidence.OrderOfCitations` | src/transport/evidence.rs:166-237 | Citing the same spans in another order gives the same state, counts included |
| `Evidence.ResolveClaim` | src/transport/evidence.rs:166-237 | The loop with its counters computes the specified state |
| `Evidence.FindSpan` | src/transport/evidence.rs:153-155 | The first inline span of the identifier |
| `HttpParse.LineIff` | src/http_parse.rs:73-101 | A request line is accepted exactly when it is method, space, visible target, space, version, and its parts are read off |
| `HttpParse.LengthFieldIff` | src/http_parse.rs:112-155 | A field declares a length exactly when it is named Content-Length, letter for letter, and its value reads as one |
| `HttpParse.OtherFieldIff` | src/http_parse.rs:112-155 | Any other field passes exactly when it has a name, does not begin with a blank, has no space before its colon, and is not Transfer-Encoding |
| `HttpParse.ScanIff` | src/http_parse.rs:112-155 | The scan succeeds exactly when every field is well formed, none is Transfer-Encoding and all declared lengths agree, and returns that length |
| `HttpParse.AcceptedIff` | src/http_parse.rs:58-187 | A head is accepted with a request exactly when line, fields, length and offsets are as the grammar says |
| `HttpParse.OnlyTheHeadMatters` | src/http_parse.rs:58-72 | Once the terminator is in the buffer, no bytes after it change the answer |
| `HttpParse.TooLargeIff` | src/http_parse.rs:58-69 | HeadersTooLarge is answered exactly when no terminator is in the buffer and the buffer is longer than 8192 bytes |
| `HttpParse.LongHeadAccepted` | src/http_parse.rs:58-187 | A request for / with one field of n letters, terminator included, is accepted for every n |
| `HttpParse.LargeHeadGetsThrough` | src/http_parse.rs:58-69 | A head over the cap that is accepted when it arrives with its terminator, and refused as too large when it arrives without |
| `HttpParse.HeadIsLineAndFields` | src/http_parse.rs:73-120 | No byte of a head escapes the line and the fields: the scan's exit at an empty field is never taken |
| `HttpParse.Find` | src/http_parse.rs:53-55 | The first occurrence |
| `HttpParse.ScanFields` | src/http_parse.rs:112-155 | The field loop computes the specified length or error |
| `HttpParse.Parse` | src/http_parse.rs:58-187 | The parser computes the specified answer |

## Left out

- GrantAuthority.VerifyGrantThen: the effect hook, a parameter of the program's function, is the one the daemon ships, which commits the grant, over an open and writable ledger. The sums of the expiry check are required to fit 64 bits, as overflow checks make the program stop there.
- GrantLedger.GrantLedger.Open: the file and its contents are given; the lock with its Locked error and the removal of a stale temporary file are not modelled.
- GrantLedger.GrantLedger.CommitConsumed: after a rewriting prune the file's bytes are given by some image of the survivors, not by one order of them, as the program iterates over a hash map.
- GrantLedger.GrantLedger.PruneExpired: the temporary file, rename and file locks are not modelled, so neither is the Locked error of reopening.
- GrantLedger.GrantLedger.Recover: seek and read errors of the disk are not modelled.
- NoiseMachines.Initiator.WriteInitiation: the random ephemeral secret is a parameter, also for the response.
- NoiseMachines.SymmetricState.EncryptAndHash: returns its bytes instead of writing a slice.
- DaemonMachine.Daemon.HandleTransport: decryption and the envelope path enter as outcomes; `Transport`, `EvidenceLedger` and `GrantAuthority` treat them separately.
- Reassembly.PeerReassembler.IngestFragment: payload bytes are not part of the model; the program only counts them too.
- RelayStore.Relay.Put: the fixed 2048-byte body buffer is a byte string of its used length.
- Parsers.ReadEnvelope: borrowed slices are byte strings.
- HttpParse.ScanFields: the text-to-number step of Content-Length (UTF-8, trimming, decimal) is a parameter.
- Counters such as inserts_total and rejected_total are unbounded naturals.
- Entries of the resolver, relay and session tables that are fixed-size buffers in the program are byte strings of the used length; zeroing of keys on release is not modelled.
- Cryptographic primitives, mac1 key derivation, the HMAC construction and cookies: functions with laws, or parameters.
- Sockets, the poll loop, signals, environment, file permissions, fsync: input and output.
- Dispatch of envelopes by body type (`src/transport/dispatch.rs`) beyond what grants, refusals and intents need; `SenderTable` is a list of entries looked up first match first.
- Channel and mesh checks of `src/transport/verify.rs`, `body_type_allowed`, control bodies: single-branch ladders.
- `build_response` and `WalkQueue` of `src/transport/sync.rs`, `NodeCapacity` of `src/transport/reassembly.rs`, rekeying and `rotate` of `src/transport/session.rs`: easy members only.
- `executor_fp` of `src/transport/resolver.rs`: the fingerprint is a parameter.
- `src/control_api.rs`, `src/transport/render.rs`, `src/transport/grant_trace.rs`, `src/ca.rs`, `src/keys.rs`, `src/transport/token.rs`: formatting, tables and key files.
