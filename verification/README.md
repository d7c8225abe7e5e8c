# Messaging stack: relayer, archive, readers

This project models a small distributed messaging system and proves what its parts promise each
other. A Rust relayer keeps encrypted messages and a replica of group permissions; a background
worker archives the messages on Walrus; an indexer finds the archives in any order; TypeScript
clients page, poll, recover, verify senders and cache their credentials.

The modules, from the core outwards:

- `Wrappers`, `Sequences`, `Sorting`, `Encoding`, `JsonNumbers`, `Messages`: the shared vocabulary:
  results, list operations, sorting by order, base16 (section 8 of RFC 4648), decimal printing, the
  rounding of integers in JavaScript's JSON, messages, statuses, patches and quilts.
- `Storage`: the relayer's store, three coupled maps. The functions say what one critical section
  does; the class `InMemoryStorage` updates its maps in place and is proved to do that.
- `Relayer`: the store and the sync worker as a step machine. A create is two steps (reserve an
  order, then insert), a sync pass is a fetch, an upload and one mark per message, and any client
  write may fall between any two steps. Which batch a fetch yields is not determined.
- `Archival`: what every run guarantees about orders, nonces, identities, statuses and archived
  content, and runs that show where a hypothesis is needed.
- `WalrusSync`, `Draining`: the worker's own code as methods over the mutable store, its trigger
  loop, and what repeated undisturbed cycles achieve.
- `Paging`, `Subscription`: readers of the live store.
- `Views`, `Discovery`, `Recovery`, `ArchiveRecovery`: the indexer, the recovery transport, and the
  theorem that archive, index and recovery agree with the store.
- `Membership`, `MembershipSync`, `GroupDiscovery`: the permission replica, reconnect-safe replay,
  and the chat application's count of the same history.
- `Authentication`, `Handlers`, `FrontDoor`: who is admitted, what a write must carry, and the whole
  service with every request split into admission, check and write.
- `HeaderAuth`, `SessionKeys`, `QueuedSigner`, `Scanner`: self-contained algorithms of the clients
  and tools.

Main results, in one line each:

- Archive, index and recovery return exactly the store's visible messages, whatever the arrival
  order and whoever else's quilts are inspected, when no write overlaps a pass
  (`ArchiveRecovery.RecoveryAgreesWithTheStore`); page after page a client gets all of them exactly when
  none lies behind a full page of deleted ones (`ArchiveRecovery.PagedRecoveryAgreesIff`).
- A sync pass marks exactly the messages it archived and was answered for, and leaves every other as it
  was (`WalrusSync.PassMarksExactly`).
- Under every interleaving patch ids stay sound (`Archival.PatchIdsAreSound`), and a finished message
  can be trusted exactly when its last mark found status and content as fetched
  (`Archival.FinishedIsSoundIff`).
- A subscriber misses exactly the messages inserted behind it
  (`Subscription.SeenUnlessInsertedBehind`).
- The permission replica misses nothing exactly when no response runs ahead of the cursor and none
  that raises it comes without its checkpoint (`MembershipSync.NothingSkippedIff`).
- Every change is by the message's own sender, and every message is authentic, in every run of the
  whole service (`FrontDoor.AlterationsAreByTheSender`, `FrontDoor.EveryMessageIsAuthentic`).
- A message verifies for its readers exactly when it was sent in lower case with a key version that
  is a double (`Handlers.ReaderAcceptsIffReadable`).
- A request is admitted exactly when it is genuine and its sender holds the permission of its method
  (`Authentication.AdmittedIff`); left alone, it then does what its handler promises
  (`FrontDoor.UndisturbedAlteration`).
- The scanner finds exactly the outermost parseable blocks after the last unmatched closing brace
  (`Scanner.FoundIff`).
- The header cache's headroom is exact to one millisecond (`HeaderAuth.HeadroomIsExact`).

What follows the code where its own documentation says otherwise:

- relayer/src/storage/adapter.rs:107-108 promises the most recent messages when no lower bound is
  given; relayer/src/storage/memory.rs:118-132 serves the oldest, and applies both bounds together.
  `Paging.PageIsMostRecentIff` gives the exact condition under which the two coincide.
- relayer/src/services/walrus_sync.rs:231-246 marks whatever is stored, without comparing it with
  what was uploaded, so an edit or a deletion that lands during an upload is lost to the archive
  (`Archival.EditsCanBeLost`, `Archival.DeletionsCanBeLost`; exactly when: `Archival.MarkIsSoundIff`,
  `Archival.FinishedIsSoundIff`).
- Editing a deleted message is accepted, so no theorem says that deletion is final.
- The relayer verifies a signature over the text as sent but stores decoded bytes and a 64-bit
  integer; readers get lower case and round the integer to a double. A sender who used upper-case
  base16, or a key version such as 2^53 + 1, is accepted and then fails verification at every reader
  (`Handlers.ReaderAcceptsIffReadable`). The SDK's own requests are fine up to 2^53, and beyond that
  for the key versions of `Handlers.SdkMessagesVerifyIff`.
- The recovery converter hands on signature and public key as the arrays of numbers the relayer
  archived (relayer/src/models/message.rs:42), although its wire type declares strings
  (ts-sdks/packages/sui-stack-messaging/src/recovery/types.ts:35), so a recovered message never
  verifies (`Handlers.RecoveredNeverVerifies`).
- A page of recovered messages may be empty although more follow; it then names no order to go on
  from (`ArchiveRecovery.PagedRecoveryAgreesIff`).
- The time check (relayer/src/auth/signature.rs:23-27) takes a 64-bit difference, so besides the window
  it passes the timestamp exactly 2^63 seconds before the clock (`Authentication.OrdinaryWindow`).
- A response without its checkpoint raises the cursor all the same
  (relayer/src/services/membership_sync.rs:91-97), and that checkpoint is lost
  (`MembershipSync.EmptyResponsesLoseEvents`).

Modelling conventions. Clocks, generated ids, the publisher's replies and the checkpoint at which an
upload is recorded are parameters or choices of a step. A patch id is the number of an upload and a
position in it, and a patch's serialised body is the message value itself. UTF-8, the signature
schemes and Blake2b are parameters of type `Authentication.Crypto`; a result that needs their
correctness (`Handlers.Correct`), or that the one signature at hand is accepted for no second text
(`Handlers.OneText`), says so in its `requires`; `Handlers.OneTextBesideCorrect` shows that both can
hold. Arithmetic on timestamps wraps around at 64 bits, as in a release build
(relayer/Dockerfile:8). A message is an immutable value, since the relayer clones messages out of
its maps; its six editable fields are grouped as `Content`. The permission a handler acts on is the
one held at admission: a revocation that arrives between admission and write does not stop the
write.

## Model

| member | source | states |
|---|---|---|
| `ArchiveRecovery.RecoveryAgreesWithTheStore` | ts-sdks/packages/sui-stack-messaging/examples/recovery-transport/walrus-recovery-transport.ts:34-124 | End to end: in any run where no write overlaps a pass on the group's messages and none is pending, with increasing checkpoints per upload, inspecting every quilt in any order, among any quilts of others, and recovering between any two orders, with any limit the indexer lets through, gives exactly the non-deleted ones of the first so many stored messages there, once, in order, each equal in view to what the relayer serves, and says whether more are stored; a page as wide as the group gives the group |
| `ArchiveRecovery.PagedRecoveryAgreesIff` | ts-sdks/packages/sui-stack-messaging/examples/recovery-transport/walrus-recovery-transport.ts:34-124 | Recovering page after page, each from the order of the last message received: the client is told that there is no more if and only if no full page of deleted messages has anything behind it (such a page comes back empty and names no order to go on from); it has got every visible message, in order and as served, if and only if no such page has a visible message behind it |
| `ArchiveRecovery.WalkRecovers` | ts-sdks/packages/sui-stack-messaging/examples/recovery-transport/walrus-recovery-transport.ts:52-63 | Wherever the walk ends, the pages are the beginning of the group's visible messages, each once; and the two conditions above on any listing |
| `ArchiveRecovery.WalkEnds` | ts-sdks/packages/sui-stack-messaging/examples/recovery-transport/walrus-recovery-transport.ts:34-124 | With a positive limit every such walk comes to an end, finished or blocked |
| `ArchiveRecovery.IndexHoldsLastUpload` | walrus-discovery-indexer/src/discovery-store.ts:31-40 | Whatever the arrival order, the index holds for each message its last upload, when later uploads have later checkpoints |
| `ArchiveRecovery.DiscoverReadsTags` | walrus-discovery-indexer/src/blob-inspector.ts:18-36 | The indexer recovers message id, group, sender, status and order exactly from the identifier and tags the worker wrote, and takes for deleted what the relayer serves as deleted |
| `ArchiveRecovery.DiscoveredIff` | walrus-discovery-indexer/src/blob-inspector.ts:14-36 | From any quilt exactly the patches with the relayer's source tag and a message's name are discovered, whatever else it holds |
| `ArchiveRecovery.ForeignIffPassedOver` | walrus-discovery-indexer/src/blob-inspector.ts:14-16 | A quilt brings up nothing if and only if none of its patches has both tag and name |
| `ArchiveRecovery.InspectedAll` | walrus-discovery-indexer/src/blob-inspector.ts:6-49 | So inspecting the relayer's quilts among any foreign ones feeds the index with events of the relayer's own quilts only |
| `ArchiveRecovery.FetchReadsBody` | ts-sdks/packages/sui-stack-messaging/examples/recovery-transport/walrus-recovery-transport.ts:81-110 | Listing a quilt and looking a patch up by its identifier reads the body of that very patch |
| `ArchiveRecovery.IndexAll` | walrus-discovery-indexer/src/discovery-store.ts:23-42 | Feeding the events one by one leaves the indexer's map equal to the specified index, with its invariant |
| `Archival.PatchIdsAreSound` | relayer/src/services/walrus_sync.rs:165-254 | Under any interleaving of client writes with fetch, upload and mark: a patch id names an uploaded patch of the same message, group, order and sender, made from a version really stored earlier; a finished status has a patch id, its patch carries that status, and no later upload mentions the message |
| `Archival.ArchiveHoldsRealVersions` | relayer/src/services/walrus_sync.rs:165-222 | Every archived patch is a version some message really had while pending, with the target status of its pass |
| `Archival.QuietRunsArchiveTheCurrentMessage` | relayer/src/services/walrus_sync.rs:165-254 | If no write hits a message between its fetch and its mark, a finished status means the named patch holds the current content, identity and status |
| `Archival.StatusTellsTheLastWrite` | relayer/src/models/message.rs:134-160 | In such runs the status always tells the last accepted write: created, edited or deleted, each pending or archived as such |
| `Archival.MarkIsCurrentIff` | relayer/src/storage/memory.rs:191-210 | A mark leaves the archived content current if and only if the stored content is still the fetched content |
| `Archival.MarkKeepsStatusIff` | relayer/src/storage/memory.rs:191-210 | A mark leaves the status telling the last write if and only if the stored status is still the fetched one: exactly otherwise a deletion or an edit is overwritten |
| `Archival.MarkIsSoundIff` | relayer/src/services/walrus_sync.rs:231-246 | Nothing is lost by a mark, neither status nor content, if and only if both are still what was fetched; the code compares neither |
| `Archival.PendingTellsTheLastWrite` | relayer/src/models/message.rs:134-160 | In every run, overlapping or not, a pending status tells the last accepted write |
| `Archival.FinishedIsSoundIff` | relayer/src/services/walrus_sync.rs:165-254 | Over every run: a finished message tells its last write and is archived as stored if and only if, at the mark that finished it, status and content were still those fetched |
| `Archival.EditsCanBeLost` | relayer/src/services/walrus_sync.rs:231-246 | For any two different contents, a reachable state where the acknowledged edit is in no archived patch, no message has a pending status and the worker is idle (MarkIsSoundIff and FinishedIsSoundIff say exactly when) |
| `Archival.DeletionsCanBeLost` | relayer/src/storage/memory.rs:191-210 | For any content, a reachable run where an acknowledged deletion is overwritten by the mark (MarkKeepsStatusIff and FinishedIsSoundIff say exactly when) |
| `Archival.IdentitiesAreForever` | relayer/src/storage/memory.rs:137-210 | Over any stretch of any run no message is lost, its id, group, order, sender and creation time never change, and a patch id never disappears |
| `Archival.OrdersNeverCollide` | relayer/src/storage/memory.rs:37-88 | With any number of creates in flight, all orders of a group, stored or reserved, are distinct and between 1 and the group counter |
| `Archival.OrdersCountReservations` | relayer/src/storage/memory.rs:37-45 | The k-th create of a group is given order k, whether or not earlier ones were rejected |
| `Archival.NoncesNeverCollide` | relayer/src/storage/memory.rs:75-87 | In every reachable store the nonce set is exactly the set of stored nonces and has as many elements as there are messages |
| `Relayer.RunKeepsInv` | relayer/src/services/walrus_sync.rs:159-258 | Every reachable state keeps the store, reservation, archive, link and batch invariants |
| `Relayer.StepKeepsInv` | relayer/src/services/walrus_sync.rs:159-258 | Each single step (reserve, insert, update, delete, fetch, upload, failed upload, mark) keeps the invariant and every message's identity |
| `Relayer.ReserveKeepsFlight` | relayer/src/storage/memory.rs:37-45 | Reserving an order keeps all reserved and stored orders distinct |
| `Relayer.InsertKeepsFlight` | relayer/src/storage/memory.rs:60-88 | Inserting under an order reserved earlier, whatever happened since, keeps the store well formed |
| `Relayer.UploadKeepsArchive` | relayer/src/services/walrus_sync.rs:183-222 | An upload extends the archive with uniquely named patches of stored messages and breaks no link |
| `Relayer.AnswerNamesBatchVersion` | relayer/src/services/walrus_sync.rs:231-240 | The patch id looked up for a message names the patch made from that very batch entry |
| `Storage.InMemoryStorage.CreateMessage` | relayer/src/storage/memory.rs:60-88 | Order first, then the duplicate checks, then both maps: result and whole new state, and the invariant is kept |
| `Storage.InMemoryStorage.UpdateMessage` | relayer/src/storage/memory.rs:137-176 | Result and whole new state of an edit, including re-use of the message's own nonce |
| `Storage.InMemoryStorage.DeleteMessage` | relayer/src/storage/memory.rs:178-189 | Result and whole new state of a soft delete; only the message map is written |
| `Storage.InMemoryStorage.UpdateSyncStatus` | relayer/src/storage/memory.rs:191-210 | The status is overwritten unconditionally, the update time moves, a given patch id replaces the old one |
| `Storage.InMemoryStorage.GetMessagesByGroup` | relayer/src/storage/memory.rs:98-135 | Whatever order the hash map yields, the page is the first `limit` of all matching messages by strictly increasing order |
| `Storage.InMemoryStorage.GetMessagesBySyncStatus` | relayer/src/storage/memory.rs:212-230 | Some min(limit, n) distinct messages of the status, current versions |
| `Storage.CreateKeepsWellFormed` | relayer/src/storage/memory.rs:60-88 | A create succeeds exactly when id and nonce are both new, the id being reported first; a rejected one changes only the order counter; the invariant is kept |
| `Storage.UpdateKeepsWellFormed` | relayer/src/storage/memory.rs:137-176 | An edit succeeds exactly when the message exists and no other message holds the nonce, and says which of the two failed; a rejected one changes nothing; the invariant is kept |
| `Storage.StatusWritesKeepWellFormed` | relayer/src/storage/memory.rs:178-210 | Deleting and marking succeed exactly for stored messages, and keep the nonce index, the numbering and every identity |
| `Storage.NonceFreeIff` | relayer/src/storage/memory.rs:154-160 | The two constant-time nonce tests are equivalent to searching all other messages |
| `Storage.SortedValuesList` | relayer/src/storage/memory.rs:104-134 | Filtering and sorting any enumeration of the map gives the one listing of the matching messages |
| `WalrusSync.WalrusSyncService.SyncMessages` | relayer/src/services/walrus_sync.rs:159-258 | One call equals the specified pass over a batch the store could yield: store, archive and result, whichever patches fail to serialise and however the publisher answers |
| `WalrusSync.WalrusSyncService.SyncCycle` | relayer/src/services/walrus_sync.rs:112-121 | Three passes in sequence, each on what the one before left, whatever fails to serialise and however each upload is answered |
| `WalrusSync.UndisturbedCycleIsFull` | relayer/src/services/walrus_sync.rs:112-121 | When everything serialises and every patch is answered, that is the full cycle of the draining results |
| `WalrusSync.PassIsWorkerSteps` | relayer/src/services/walrus_sync.rs:159-258 | An undisturbed call is a sequence of enabled fetch, upload and mark steps of the machine, so the all-runs results cover it |
| `WalrusSync.AnswersAreTruthful` | relayer/src/walrus/types.rs:106-111 | An identifier is found in the response if and only if it was uploaded and the response names it, and what is found is the patch uploaded under it |
| `WalrusSync.PassMarksExactly` | relayer/src/services/walrus_sync.rs:231-254 | What a pass does to each stored message: one in the batch that serialises and is answered for gets the target status and the id of the patch made from it; every other one, unanswered ones of the batch included, is left exactly as it was |
| `WalrusSync.PassUploads` | relayer/src/services/walrus_sync.rs:183-222 | What a pass does to the archive: nothing, or one quilt with a patch for exactly the messages that serialise; and when it reports an error |
| `WalrusSync.Run` | relayer/src/services/walrus_sync.rs:73-127 | While the channel is open every tick starts a cycle, and a notification does exactly when a positive threshold of notifications since the last cycle is reached with it; cycles come in order, and the loop stops exactly when the channel closes |
| `WalrusSync.ThresholdBoundsWaiting` | relayer/src/services/walrus_sync.rs:92-125 | With a threshold, fewer than that many notifications ever wait for a cycle and the one that completes it starts one; without a threshold, ticks alone do |
| `WalrusSync.NotificationsCount` | relayer/src/services/walrus_sync.rs:92-94 | The count is of the notifications received in between, each once |
| `Draining.FullPassProgress` | relayer/src/services/walrus_sync.rs:165-254 | An answered pass takes min(batch, n) messages out of its status, uploads exactly those once, and leaves the other pending statuses alone, whichever batch the map yields |
| `Draining.CyclesDrain` | relayer/src/services/walrus_sync.rs:130-258 | After k undisturbed cycles every pending status has shrunk by k batches, and exactly the messages no longer pending were uploaded, once each |
| `Draining.DrainedAfterEnoughCycles` | relayer/src/services/walrus_sync.rs:130-258 | Once k batches cover the fullest status nothing is pending and each pending message was uploaded exactly once |
| `Paging.FetchPage` | relayer/src/handlers/messages/handlers.rs:125-138 | Of n matching messages the page holds the first min(n, 50), or min(n, k, 100) when k are asked for, and the flag is true exactly when that is fewer than n |
| `Paging.BoundsPartition` | relayer/src/storage/memory.rs:114-126 | Both bounds are exclusive and apply together: below, at and above an order partition the group, and two bounds give the intersection |
| `Paging.ForwardPagingIsExact` | relayer/src/handlers/messages/handlers.rs:125-141 | Following the last order until hasNext is false yields every matching message once, in order |
| `Paging.ForwardPagingEnds` | relayer/src/handlers/messages/handlers.rs:125-141 | With a page size of at least 1 that walk exists and is finite |
| `Paging.ZeroLimitServesNothing` | relayer/src/handlers/messages/handlers.rs:125-139 | A limit of 0 serves an empty page that reports more while anything matches |
| `Paging.PageIsMostRecentIff` | relayer/src/storage/memory.rs:118-132 | A page without lower bound holds the most recent messages (relayer/src/storage/adapter.rs:107-108) if and only if everything matching fits in it, or nothing was asked for |
| `Subscription.YieldsAreIncreasing` | ts-sdks/packages/sui-stack-messaging/src/relayer/http-transport.ts:372-402 | In every run of polls, failures and deliveries interleaved with all relayer steps, the yielded orders strictly increase and every yielded message is a stored one of the group above the start |
| `Subscription.SeenUnlessInsertedBehind` | ts-sdks/packages/sui-stack-messaging/src/relayer/http-transport.ts:372-402 | Of the stored messages the subscriber has passed, those it never saw are exactly those inserted after it had passed their order |
| `Subscription.AtomicCreatesMissNothing` | ts-sdks/packages/sui-stack-messaging/src/relayer/http-transport.ts:372-402 | When creates are atomic, at every moment, inside a page too, what was yielded is exactly the stored messages of the group above the start and up to the last order |
| `Subscription.PollMakesProgress` | ts-sdks/packages/sui-stack-messaging/src/relayer/http-transport.ts:377-392 | A poll takes exactly its page off the undelivered messages, and comes back empty only when none is undelivered |
| `Subscription.InterleavedCreatesCanBeMissed` | relayer/src/storage/memory.rs:60-87 | For any two contents with different nonces, a reachable run in which a create overtaken by a later one is never delivered |
| `Subscription.FeedKeepsInv` | ts-sdks/packages/sui-stack-messaging/src/relayer/http-transport.ts:372-402 | Every step of relayer and subscriber keeps the subscriber's cursor, buffer and yields consistent with the store |
| `Subscription.SubscribeLoop.HandlePage` | ts-sdks/packages/sui-stack-messaging/src/relayer/http-transport.ts:384-388 | The inner loop is that many deliveries of the machine, up to where the consumer stops |
| `Views.ArchivedViewIsServedView` | ts-sdks/packages/sui-stack-messaging/src/recovery/walrus-message.ts:29-53 | An archived body with the stored identity, content and status reads the same as the relayer serves it; ciphertext and nonce are the stored ones, and the key version is exactly when it is a double |
| `Views.ConvertersAgree` | ts-sdks/packages/sui-stack-messaging/src/recovery/walrus-message.ts:29-53 | On every message the recovery converter and the relayer's response followed by the SDK's converter agree in every field but signature and public key, which are base16 text in one and arrays of numbers in the other |
| `Views.StatusIsTold` | relayer/src/models/message.rs:73-84 | The six statuses read as six different texts, two of which are exactly those served as deleted |
| `Views.BytesToHexIsHexEncode` | ts-sdks/packages/sui-stack-messaging/src/recovery/walrus-message.ts:9-11 | Padding each byte to two digits is base16 as the relayer prints it |
| `Discovery.InMemoryDiscoveryStore.AddDiscovery` | walrus-discovery-indexer/src/discovery-store.ts:23-42 | The nested map after an event is the specified fold of its patches |
| `Discovery.AddAllKeepsLatest` | walrus-discovery-indexer/src/discovery-store.ts:31-40 | For each group and message the index holds the first arrival among the patches with the highest checkpoint, and nothing else |
| `Discovery.ArrivalOrderIrrelevant` | walrus-discovery-indexer/src/discovery-store.ts:23-42 | If no message has two different patches at its highest checkpoint, any permutation of the arrivals gives the same index |
| `Discovery.ArrivalOrderIrrelevantIff` | walrus-discovery-indexer/src/discovery-store.ts:33-37 | That condition is necessary too: otherwise two arrival orders give different indexes |
| `Discovery.CheckpointsNeverDecrease` | walrus-discovery-indexer/src/discovery-store.ts:33-37 | Adding patches never lowers a stored checkpoint and never drops a message |
| `Discovery.InMemoryDiscoveryStore.GetByGroup` | walrus-discovery-indexer/src/discovery-store.ts:45-72 | The page is the slice up to the limit, negative limits included, of the group's patches in range, ordered; hasMore is true exactly when the group is known and more are in range than the limit |
| `Discovery.InMemoryDiscoveryStore.GetGroupCount` | walrus-discovery-indexer/src/discovery-store.ts:80-82 | The count is the number of indexed messages of the group |
| `Discovery.InMemoryDiscoveryStore.GetStats` | walrus-discovery-indexer/src/discovery-store.ts:95-106 | The totals are the numbers of groups and of distinct (group, message) pairs |
| `Recovery.GroupByBlob` | ts-sdks/packages/sui-stack-messaging/examples/recovery-transport/walrus-recovery-transport.ts:65-74 | Every patch lands in its own blob's group, each blob is visited once, and nothing is lost or repeated |
| `Recovery.FetchBlob` | ts-sdks/packages/sui-stack-messaging/examples/recovery-transport/walrus-recovery-transport.ts:79-120 | One listing per blob gives what fetching its patches one by one gives, failures included |
| `Recovery.FetchGroups` | ts-sdks/packages/sui-stack-messaging/examples/recovery-transport/walrus-recovery-transport.ts:76-120 | Blob by blob gives what fetching all patches in that order gives |
| `Recovery.RecoverMessages` | ts-sdks/packages/sui-stack-messaging/examples/recovery-transport/walrus-recovery-transport.ts:34-124 | The answer is, sorted by order, exactly what fetching the page's active patches one by one yields, with the indexer's flag |
| `Recovery.CollectPermutes` | ts-sdks/packages/sui-stack-messaging/examples/recovery-transport/walrus-recovery-transport.ts:79-122 | The order in which patches are fetched does not change what is collected |
| `Recovery.CollectedAreFetched` | ts-sdks/packages/sui-stack-messaging/examples/recovery-transport/walrus-recovery-transport.ts:89-116 | With failures, exactly the messages of the patches that could be read are collected |
| `Recovery.FetchedIff` | ts-sdks/packages/sui-stack-messaging/examples/recovery-transport/walrus-recovery-transport.ts:81-110 | A discovered patch is read back exactly when its quilt lists, holds a patch of that name, and the last such patch downloads; what is read is its body |
| `Recovery.RequestCovers` | walrus-discovery-indexer/src/api.ts:12-12 | How much one request covers: 50 entries by default, as many as asked for up to 100, all but the last k for -k; and the flag says whether that was less than everything |
| `Membership.PermissionIff` | relayer/src/auth/membership.rs:123-255 | After any history a permission is held exactly when some grant of it went to a member added before and not removed since, and nothing later adds or removes the member or revokes it |
| `Membership.KnownIff` | relayer/src/auth/membership.rs:241-260 | A member is known exactly when some add has no later removal |
| `Membership.OthersNeverMatter` | relayer/src/auth/membership.rs:175-260 | Events about other groups or addresses never matter |
| `Membership.InMemoryMembershipStore.AddMember` | relayer/src/auth/membership.rs:241-253 | Adding replaces whatever permissions the member had |
| `Membership.InMemoryMembershipStore.RemoveMember` | relayer/src/auth/membership.rs:255-260 | Removing takes the member out of its group only |
| `Membership.InMemoryMembershipStore.GrantPermissions` | relayer/src/auth/membership.rs:175-206 | The loop adds exactly the listed permissions of a known member; an unknown one is an error and no change |
| `Membership.InMemoryMembershipStore.RevokePermissions` | relayer/src/auth/membership.rs:208-239 | The loop takes away exactly the listed permissions of a known member; an unknown one is an error and no change |
| `Membership.InMemoryMembershipStore.IsMember` | relayer/src/auth/membership.rs:145-164 | Reported as member exactly when some permission is held |
| `MembershipSync.MembershipSyncService.ApplyGroupsEvent` | relayer/src/services/membership_sync.rs:136-188 | Each event changes the store as specified, errors being logged only |
| `MembershipSync.MembershipSyncService.RunSubscription` | relayer/src/services/membership_sync.rs:77-98 | A session cut off anywhere leaves cursor and store as the specified fold over what arrived |
| `MembershipSync.RunSessions` | relayer/src/services/membership_sync.rs:41-59 | So does any sequence of reconnecting sessions |
| `MembershipSync.ReplicaIsOneReplay` | relayer/src/services/membership_sync.rs:77-98 | Whatever is repeated, the replica is one replay of the accepted checkpoints, whose cursors strictly increase |
| `MembershipSync.CursorlessResponses` | relayer/src/services/membership_sync.rs:79-87 | A response without a cursor counts as cursor 0: it is taken as the very first or not at all |
| `MembershipSync.NothingSkippedIff` | relayer/src/services/membership_sync.rs:77-98 | Every checkpoint from the first received to the cursor was applied if and only if no response lay beyond the cursor plus one when it arrived and every response that raised the cursor brought its checkpoint |
| `MembershipSync.ConsecutiveIff` | relayer/src/services/membership_sync.rs:84-97 | The accepted cursors run without a gap if and only if no response lay beyond the cursor plus one when it arrived |
| `MembershipSync.ReplicaIsChainSegment` | relayer/src/services/membership_sync.rs:77-98 | When nothing is skipped the replica is exactly the replay of the chain from the first checkpoint received, wherever that was, to the cursor |
| `MembershipSync.GapIsForever` | relayer/src/services/membership_sync.rs:84-97 | A checkpoint passed over, or missing from the response at its cursor, is never applied, whatever later sessions repeat |
| `MembershipSync.SkippingLosesEvents` | relayer/src/services/membership_sync.rs:84-97 | A stream that skips ahead and loses a removal, so that a removed member stays known (NothingSkippedIff says exactly when checkpoints are lost) |
| `MembershipSync.EmptyResponsesLoseEvents` | relayer/src/services/membership_sync.rs:91-97 | After any stream that never ran ahead: a response without its checkpoint loses it, whatever it held; sending it again changes nothing |
| `MembershipSync.CountingAgreesIff` | chat-app/src/hooks/useGroupDiscovery.ts:163-175 | The net count tells membership after every event of a history, as 0 or 1, if and only if the history adds only the absent and removes only the present |
| `MembershipSync.CountingAgreesWithReplaying` | chat-app/src/hooks/useGroupDiscovery.ts:163-175 | On such histories the final net count is 0 or 1 and is membership |
| `MembershipSync.CountIgnoresOrder` | chat-app/src/hooks/useGroupDiscovery.ts:163-175 | The net count depends only on which events there are, not on their order |
| `MembershipSync.CountingNeedsAlternation` | chat-app/src/hooks/useGroupDiscovery.ts:163-175 | A history with a repeated add where the count says member and the replay does not (CountingAgreesIff says exactly when) |
| `GroupDiscovery.QueryAllEventGroupIds` | chat-app/src/hooks/useGroupDiscovery.ts:68-104 | However the events are paged, the loop returns the member's group ids, all of them, in order |
| `GroupDiscovery.Tally` | chat-app/src/hooks/useGroupDiscovery.ts:164-170 | The two folds give each group its additions minus its removals |
| `GroupDiscovery.TallyIsNetCount` | chat-app/src/hooks/useGroupDiscovery.ts:155-170 | Counting the two event streams apart is the net count of the history they come from |
| `GroupDiscovery.ActiveGroups` | chat-app/src/hooks/useGroupDiscovery.ts:155-175 | The two event queries may end at different points of the history: the active groups are exactly those in which the relayer's replay knows the user throughout the events between, if the removals were read further, or at some moment between, if the additions were; at equal points, exactly those the replay knows |
| `GroupDiscovery.ExcessIs` | chat-app/src/hooks/useGroupDiscovery.ts:163-175 | The counting fact behind it, for each group and any two points of the history |
| `GroupDiscovery.GroupStore.Reconcile` | chat-app/src/hooks/useGroupDiscovery.ts:177-205 | Afterwards the stored groups are the stored ones still active plus the active ones with metadata; kept entries are untouched |
| `Authentication.AdmittedIff` | relayer/src/auth/middleware.rs:73-300 | Over the whole membership history: a GET, POST, PUT or DELETE is admitted exactly when genuine and its sender holds the reader, sender, editor or deleter permission, granted while a member and not taken away since; other methods pass unchecked |
| `Authentication.RefusalsNameTheFault` | relayer/src/auth/middleware.rs:90-289 | Every other request is refused, with a status and a code that name a fault it has: in its form, in what it claims, or, when it is genuine, the missing permission |
| `Authentication.KeysHaveTheirLengths` | relayer/src/auth/middleware.rs:114-161 | A key header decodes exactly to 32 bytes behind flag 0 or 33 bytes behind flag 1 or 2 |
| `Authentication.TimestampTexts` | relayer/src/auth/middleware.rs:222-253 | A timestamp header is read exactly when it is an optional sign and at least one digit within 64 bits |
| `Authentication.ValidTimestampIff` | relayer/src/auth/signature.rs:20-34 | The wrapping subtraction and absolute value pass exactly the timestamps within the window, the one half the 64-bit range away, and those so far that the distance wraps back into the window |
| `Authentication.OrdinaryWindow` | relayer/src/auth/signature.rs:20-34 | With an ordinary clock and window: within the window, or exactly 2^63 seconds before the clock |
| `Authentication.AdmittedOrForbidden` | relayer/src/auth/middleware.rs:259-288 | A genuine request, with a timestamp that passes, is admitted or refused with 403 by the permission alone, and only such requests are admitted |
| `Authentication.VerbDecidesPermissionOnly` | relayer/src/auth/middleware.rs:78-85 | Genuineness does not depend on the verb: requests that differ in nothing else get the same answer up to the permission the verb requires |
| `Authentication.HeaderCanonicalInjective` | relayer/src/auth/middleware.rs:253-256 | The signed header text determines timestamp, sender and group, whatever the group id holds |
| `Authentication.AddressHoldsTheHash` | relayer/src/auth/signature.rs:82-107 | A derived address is 0x and the lower-case base16 of the hash of flag and key, so it has no colon |
| `Handlers.CanonicalInjective` | relayer/src/handlers/messages/handlers.rs:260-262 | The signed message text determines group, ciphertext, nonce and key version for every group id, colons included |
| `Handlers.CreateMessage` | relayer/src/handlers/messages/handlers.rs:30-89 | A request that fails decoding changes nothing; otherwise result and state are those of the store's create; a refusal leaves messages and nonces as they were |
| `Handlers.UpdateMessage` | relayer/src/handlers/messages/handlers.rs:146-212 | Succeeds exactly for the sender in the message's own group, with acceptable content and a free nonce, then changes exactly that message; a refusal changes nothing, and names the first of unknown message, owner, content and nonce that fails |
| `Handlers.DeleteMessage` | relayer/src/handlers/messages/handlers.rs:216-240 | Succeeds exactly for the original sender in the message's own group; a refusal says whether the message is unknown or another's |
| `Handlers.GetMessages` | relayer/src/handlers/messages/handlers.rs:93-142 | One message, a page, or the error the handler gives: not found, another group, no group asked for |
| `Handlers.EveryWriteIsShown` | relayer/src/handlers/messages/response.rs:53-73 | After an edit, a deletion or a mark alike a reader sees the time of that write, and the message as edited exactly when that is not its creation time |
| `Handlers.CreationIsShown` | relayer/src/handlers/messages/response.rs:53-73 | A message just created is shown neither as edited nor as deleted |
| `Handlers.PageAnswersAreBounded` | relayer/src/handlers/messages/handlers.rs:125-141 | The answer to a list query is a page of the responses of that many matching messages, whatever is asked for, and says whether more match |
| `Handlers.OnlyTheOwnGroupIsServed` | relayer/src/handlers/messages/handlers.rs:102-123 | Whatever is asked, only messages of the group the caller was admitted to are served |
| `Handlers.AcceptedIsSigned` | relayer/src/handlers/messages/handlers.rs:244-273 | Every accepted content carries the caller's signature over the texts as sent, and sizes as required |
| `Handlers.AcceptedIff` | relayer/src/handlers/messages/handlers.rs:36-77 | A create or an update is accepted exactly when it carries what is then stored: base16 throughout, nonces of 12 bytes, and the caller's signature over its texts as sent |
| `Handlers.RejectionNamesTheFault` | relayer/src/handlers/messages/handlers.rs:36-77 | Otherwise the answer names something that is wrong with it |
| `Handlers.AttachmentsDecodeIff` | relayer/src/handlers/messages/request.rs:24-51 | Attachments decode exactly to what they stand for, one for one, with 12-byte nonces |
| `Handlers.ReaderAcceptsIff` | ts-sdks/packages/sui-stack-messaging/src/verification.ts:81-109 | A reader accepts a served message exactly when the stored signature covers the base16 the relayer prints and the key version as JavaScript reads it |
| `Handlers.ReadableVerifies` | ts-sdks/packages/sui-stack-messaging/src/verification.ts:81-109 | A message sent in lower-case base16 with a key version that is a double verifies for every reader |
| `Handlers.ReaderAcceptsIffReadable` | ts-sdks/packages/sui-stack-messaging/src/relayer/http-transport.ts:108-110 | For any accepted message whose signature is accepted for no second text: it verifies for readers if and only if it was sent in lower case with a key version that is a double |
| `Handlers.SdkAssumptionsCanHold` | ts-sdks/packages/sui-stack-messaging/src/verification.ts:38-58 | The assumptions of the SDK results below can be met for every content |
| `Handlers.OneTextBesideCorrect` | ts-sdks/packages/sui-stack-messaging/src/verification.ts:38-58 | That assumption can hold beside the correctness of the key pair, for every text and every scheme |
| `Handlers.RecoveredNeverVerifies` | ts-sdks/packages/sui-stack-messaging/src/recovery/walrus-message.ts:50-51 | A recovered message never verifies: its signature is an array of numbers where the verifier decodes text |
| `Handlers.SdkMessagesVerify` | ts-sdks/packages/sui-stack-messaging/src/verification.ts:38-58 | For key versions up to 2^53: signed by the SDK, accepted, stored as bytes, served and read again with the same bytes, key version and attachments, and verified |
| `Handlers.SdkMessagesVerifyIff` | ts-sdks/packages/sui-stack-messaging/src/relayer/http-transport.ts:282-282 | The exact range, when the SDK's signature is accepted for no second text: accepted and verified if and only if the key version is a 64-bit double that JavaScript prints as itself |
| `Handlers.SdkSignatureAcceptedIff` | ts-sdks/packages/sui-stack-messaging/src/relayer/http-transport.ts:277-284 | Under the same assumption, the relayer accepts the SDK's signature if and only if JavaScript sends the key version as itself |
| `JsonNumbers.NumberKeepsIff` | ts-sdks/packages/sui-stack-messaging/src/relayer/http-transport.ts:110-110 | Reading an integer as a JavaScript number keeps it if and only if its magnitude is at most 2^53 times a power of two |
| `JsonNumbers.MagnitudeIsNearest` | ts-sdks/packages/sui-stack-messaging/src/relayer/http-transport.ts:110-110 | The reading is a nearest double: no double is closer |
| `JsonNumbers.TiesGoToEven` | ts-sdks/packages/sui-stack-messaging/src/relayer/http-transport.ts:110-110 | Of two doubles equally close it is the one with the even last digit in base 2 |
| `JsonNumbers.PrintedIsShortest` | ts-sdks/packages/sui-stack-messaging/src/relayer/http-transport.ts:282-282 | What JavaScript prints for a double is the shortest decimal that reads as it: no other has more trailing zeros, and of those with as many it is the closest, the even one on a tie |
| `JsonNumbers.SentReadsBack` | ts-sdks/packages/sui-stack-messaging/src/relayer/http-transport.ts:282-282 | What JavaScript prints for a number reads back as that number |
| `JsonNumbers.SmallNumbersSurvive` | ts-sdks/packages/sui-stack-messaging/src/relayer/http-transport.ts:282-282 | Every integer of magnitude up to 2^53 is both sent and read unchanged |
| `Handlers.AttachmentsNormalForm` | relayer/src/handlers/messages/request.rs:24-51 | Accepted attachments have 12-byte nonces, and are served as they were sent exactly when they were sent in lower case |
| `Encoding.HexRoundTrip` | ts-sdks/packages/sui-stack-messaging/src/verification.ts:28-28 | Base16 printing is lower case and is undone by decoding |
| `Encoding.HexNormalForm` | relayer/src/handlers/messages/handlers.rs:36-41 | Decoding and printing again gives the same text exactly when the text was lower case |
| `Encoding.HexDecodesIff` | relayer/src/handlers/messages/handlers.rs:36-41 | Text decodes exactly when it is an even number of base16 digits of either case |
| `Encoding.HexIgnoresCase` | relayer/src/handlers/messages/handlers.rs:36-41 | Upper and lower case decode to the same bytes |
| `Encoding.DecimalRoundTrip` | walrus-discovery-indexer/src/blob-inspector.ts:34-34 | Decimal printing is undone by parsing, for every integer |
| `FrontDoor.AlterationsAreByTheSender` | relayer/src/handlers/messages/handlers.rs:146-240 | Check-then-act is sound over all runs: every change of content and every new deletion is by a caller admitted earlier as that message's original sender, for its own group, with the verb's permission at admission; new content is exactly what an admitted PUT decodes to, and a deletion comes from an admitted DELETE of that message |
| `FrontDoor.CreationsAreByTheSender` | relayer/src/handlers/messages/handlers.rs:30-89 | Every created message names the sender and group its creator was authenticated and entitled for, and holds what the admitted POST decodes to |
| `FrontDoor.GenuineRequestsGetIn` | relayer/src/auth/middleware.rs:73-300 | Whoever is genuine and holds the permission gets in: with a POST to create, a PUT to edit, a DELETE to delete |
| `FrontDoor.UndisturbedAlteration` | relayer/src/handlers/messages/handlers.rs:146-240 | A request that is not interrupted comes to what its handler promises: the owner's update or deletion takes effect, anybody else's changes nothing, and nothing of the request stays behind |
| `FrontDoor.UndisturbedCreate` | relayer/src/handlers/messages/handlers.rs:30-89 | Likewise a create: what decodes is stored as the store's own create does it |
| `FrontDoor.EveryMessageIsAuthentic` | relayer/src/handlers/messages/handlers.rs:49-77 | In every reachable state every message stored, in flight, being archived or archived carries its sender's signature over its own group, ciphertext, nonce and key version, with nonces and signature of the required sizes |
| `FrontDoor.KeyVersionsFit` | relayer/src/handlers/messages/request.rs:63-63 | Key versions are 64-bit integers wherever a message is |
| `FrontDoor.EveryMessageVerifies` | ts-sdks/packages/sui-stack-messaging/src/verification.ts:81-109 | When clients send lower-case base16 and key versions that are doubles, every message the relayer serves, in every reachable state, verifies for every reader |
| `FrontDoor.ArchivedMessagesVerifyOnlyIfServed` | ts-sdks/packages/sui-stack-messaging/src/recovery/walrus-message.ts:50-51 | Every archived body would then verify if the relayer served it, and as recovered from the archive never does |
| `FrontDoor.ServiceRefinesStore` | relayer/src/handlers/messages/handlers.rs:146-240 | Every run of the whole service is a run of the store machine, so the archive and order results hold for it |
| `FrontDoor.ServiceRunKeepsInv` | relayer/src/auth/middleware.rs:73-300 | Every reachable service state keeps the store invariant and the soundness of all requests under way |
| `FrontDoor.MembersAreReplayed` | relayer/src/auth/middleware.rs:275-288 | The permissions consulted are always the replay of the events received so far |
| `HeaderAuth.AlwaysAcceptedIff` | relayer/src/auth/signature.rs:20-34 | Despite flooring on both sides, an elapsed time short of where 64-bit seconds wrap is always accepted exactly when it is within the window |
| `HeaderAuth.HeadroomIsExact` | ts-sdks/packages/sui-stack-messaging/src/relayer/http-transport.ts:256-269 | For any configured lifetime and any window of the relayer: every header the cache can hand out is accepted if and only if what signing, transit and skew add up to leaves room for the oldest one and none comes from further ahead than the window |
| `HeaderAuth.MatchingHeadroom` | ts-sdks/packages/sui-stack-messaging/src/relayer/http-transport.ts:256-269 | When the lifetime is the window: up to the smaller of a minute and a tenth of it, plus one millisecond, and no further |
| `HeaderAuth.HeaderAuthCache.Lookup` | ts-sdks/packages/sui-stack-messaging/src/relayer/http-transport.ts:266-271 | A cached header is the caller's own, for the group asked about, and acceptable for every transit, skew and backward step of the client's clock within what signing left of the budget; a miss is exactly an absent or aged entry |
| `HeaderAuth.HeaderAuthCache.Remember` | ts-sdks/packages/sui-stack-messaging/src/relayer/http-transport.ts:272-274 | A fresh header is acceptable likewise, and only its own entry is written |
| `HeaderAuth.HeaderAuthCache.Disconnect` | ts-sdks/packages/sui-stack-messaging/src/relayer/http-transport.ts:404-408 | Disconnecting empties the cache and keeps its invariant |
| `HeaderAuth.SdkHeadersAreGenuine` | ts-sdks/packages/sui-stack-messaging/src/relayer/http-transport.ts:177-189 | Headers the SDK signs are read back and verified by the middleware, whose answer within the window depends on the permission alone |
| `HeaderAuth.CachedHeadersAreAdmitted` | ts-sdks/packages/sui-stack-messaging/src/relayer/http-transport.ts:266-275 | End to end: what the cache hands out is admitted by the middleware, if the permission is held, throughout the remaining headroom |
| `Scanner.FoundIff` | publish/src/utils/testPublish.ts:65-97 | On every input exactly the outermost parseable brace-balanced blocks after the last unmatched closing brace are found |
| `Scanner.FoundInOrder` | publish/src/utils/testPublish.ts:65-97 | What is found is in text order, disjoint, balanced and parseable |
| `Scanner.PiecesOfSpans` | publish/src/utils/testPublish.ts:88-92 | The returned texts are those spans, in order |
| `Scanner.ScanObjects` | publish/src/utils/testPublish.ts:65-97 | The outer loop terminates and returns exactly those pieces |
| `Scanner.MatchingOpen` | publish/src/utils/testPublish.ts:72-84 | The inner loop finds where the backwards brace count reaches zero |
| `Scanner.MatchBackIff` | publish/src/utils/testPublish.ts:75-84 | That place starts a balanced block, and there is none exactly when the closing brace is unmatched |
| `Scanner.ScanRoundTrip` | publish/src/utils/testPublish.ts:61-97 | Objects separated by text without closing braces come back exactly, in order |
| `Scanner.BraceInStringLosesTheObject` | publish/src/utils/testPublish.ts:75-86 | An object with a closing brace inside a string is not found |
| `SessionKeys.SessionKeyManager.GetSessionKey` | ts-sdks/packages/sui-stack-messaging/src/encryption/session-key-manager.ts:52-60 | A call up to its first await: the stored key exactly while it outlives the refresh buffer, else the creation under way, else a new one |
| `SessionKeys.SessionKeyManager.Continue` | ts-sdks/packages/sui-stack-messaging/src/encryption/session-key-manager.ts:60-66 | The rest of a call: the owner stores a created key and clears the promise on both outcomes |
| `SessionKeys.RunKeepsInv` | ts-sdks/packages/sui-stack-messaging/src/encryption/session-key-manager.ts:52-67 | In every interleaving: one owner per outstanding creation, every returned key a real result, and the stored key the one from the last creation that succeeded |
| `SessionKeys.OneCreationAtATime` | ts-sdks/packages/sui-stack-messaging/src/encryption/session-key-manager.ts:57-60 | At most one creation is outstanding at any time |
| `SessionKeys.JoinersGetTheResult` | ts-sdks/packages/sui-stack-messaging/src/encryption/session-key-manager.ts:57-66 | Whoever starts or joins a creation ends with the result of that very creation |
| `SessionKeys.NobodyIsStuck` | ts-sdks/packages/sui-stack-messaging/src/encryption/session-key-manager.ts:60-66 | Every unfinished call waits for a creation that can still settle either way and then lets the call resume with that result and be over; the owner's resumption clears the promise |
| `SessionKeys.QuiescentCallsStartAfresh` | ts-sdks/packages/sui-stack-messaging/src/encryption/session-key-manager.ts:52-60 | Once all calls are over, the next one has a fresh key or starts a new creation |
| `QueuedSigner.QueuedCurrentAccountSigner.SignPersonalMessage` | chat-app/src/lib/queued-signer.ts:24-30 | A call appends one signing behind all earlier ones |
| `QueuedSigner.OneAtATimeInOrder` | chat-app/src/lib/queued-signer.ts:24-30 | In every interleaving at most one signing runs, and only after all earlier ones ended |
| `QueuedSigner.AlwaysMoves` | chat-app/src/lib/queued-signer.ts:27-28 | While any signing is unsettled exactly the first such one can move, and end either way, so a failure never blocks the next |
| `QueuedSigner.EachGetsItsOwnResult` | chat-app/src/lib/queued-signer.ts:24-30 | Whoever submitted a signing gets the outcome of that very signing, over its own bytes, whatever is signed after it |
| `QueuedSigner.QueueDrains` | chat-app/src/lib/queued-signer.ts:24-30 | Without new calls the queue empties after exactly the work it holds, however each signing ends |

## Left out

- HTTP, gRPC, multipart and JSON plumbing, environment parsing, logging, React rendering and the
  persistence of the chat application: they carry no state of the protocol.
- Cryptography: Seal, AES-GCM, the signature curves and Blake2b enter as parameters only.
- Overflow of the 64-bit order counter and poisoned locks: neither can be reached by the protocol's
  own steps in a realistic number of them.
- Content de-duplication by the archive (an upload of bytes stored before): every accepted upload is
  a new quilt here.
- Rounding of orders and of times in seconds by JSON: both stay far below 2^53, orders because each
  takes one create. The exponent JavaScript prints from 10^21 on: no 64-bit key version is that large.
- `isEdited`, `updatedAt` and the patch id in the comparison of recovered and served messages: the
  mark itself moves the update time after the archived copy was made.
- Backward paging as a complete walk: the code does not provide one.
- `set_group_members`, `get_permissions` and the handlers' error-to-status tables: each is decided by one line.
- The indexer's bound on concurrent inspections, its checkpoint listener and `setLastCheckpoint`:
  the recovery theorem assumes every quilt was inspected.
- Lenient number parsing in the indexer (`parseInt` of text that is not a plain decimal) and a
  missing tag: the worker always writes all five tags in full.
- The envelope encryption, its key cache and the BCS layouts: they rest on libraries that are not
  part of this model.
- Handlers.SdkMessagesVerify: the three key-pair schemes only; a reader's SDK also knows
  multi-signature and zkLogin keys, which the relayer never stores.
- HeaderAuth.HeaderAuthCache.Lookup: one lookup and one store at a time; two callers that miss
  together both sign, and the later entry stays, which Remember allows.
- Subscription.SubscribeLoop.HandlePage: the polling delay and the immediate failure on a client
  error are not modelled; a failed poll is a step that changes nothing.
- SessionKeys.SessionKeyManager.GetSessionKey: how a key is created (three configurations) is one
  outcome of the environment; expiry as the library reports it is a parameter of the call.
- HeaderAuth.HeadroomIsExact: a tenth of the lifetime is computed exactly rather than in binary floating
  point; clocks and windows within 2^62 seconds, so that nothing wraps around.
- HeaderAuth.AlwaysAcceptedIff: for clocks within 2^62 seconds of each other, so that nothing wraps around.
- ArchiveRecovery.PagedRecoveryAgreesIff: for walks with a positive limit; with a negative one every page
  of a group with messages claims that there is more.
- ArchiveRecovery.RecoveryAgreesWithTheStore: nobody else's quilt carries both the relayer's source tag and
  a message's name; the indexer does not check who wrote a quilt, and would take it for the relayer's.
