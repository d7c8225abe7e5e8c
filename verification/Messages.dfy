/**
  The entities of the relayer: messages with their archival status, and the patches and quilts
  the archive keeps (relayer/src/models, relayer/src/walrus/types.rs).
 */
module Messages {
  import opened Encoding
  import opened Wrappers

  /** The text form of a version 4 UUID. */
  type MessageId = string
  type GroupId = string
  type Address = string

  /** A patch is named by the upload that stored it and its position in that quilt. */
  datatype PatchId = PatchId(quilt: nat, index: nat)

  datatype Attachment = Attachment(
    storageId: string, nonce: Bytes, encryptedMetadata: Bytes, metadataNonce: Bytes)

  datatype SyncStatus = SyncPending | Synced | UpdatePending | Updated | DeletePending | Deleted

  /** The six fields a client may replace by editing. */
  datatype Content = Content(
    encryptedMsg: Bytes, nonce: Bytes, keyVersion: int,
    attachments: seq<Attachment>, signature: Bytes, publicKey: Bytes)

  datatype Message = Message(
    id: MessageId, groupId: GroupId, order: Option<int>, sender: Address, content: Content,
    createdAt: int, updatedAt: int, syncStatus: SyncStatus, quiltPatchId: Option<PatchId>)

  function NewMessage(id: MessageId, groupId: GroupId, sender: Address, content: Content, now: int): Message {
    Message(id, groupId, None, sender, content, now, now, SyncPending, None)
  }

  function UpdateContent(m: Message, content: Content, now: int): Message {
    m.(content := content, syncStatus := UpdatePending, updatedAt := now)
  }

  function MarkForDeletion(m: Message, now: int): Message {
    m.(syncStatus := DeletePending, updatedAt := now)
  }

  /** The order as every reader takes it: an absent order reads as 0. */
  function OrderOf(m: Message): int {
    m.order.GetOr(0)
  }

  /** What no operation may change once a message is stored. */
  datatype Identity = Identity(id: MessageId, groupId: GroupId, order: Option<int>, sender: Address, createdAt: int)

  function IdentityOf(m: Message): Identity {
    Identity(m.id, m.groupId, m.order, m.sender, m.createdAt)
  }

  predicate IsPending(s: SyncStatus) {
    s.SyncPending? || s.UpdatePending? || s.DeletePending?
  }

  /** The status a sync pass gives to messages it fetched with status `from`. */
  function Target(from: SyncStatus): SyncStatus
    requires IsPending(from)
  {
    match from
    case SyncPending => Synced
    case UpdatePending => Updated
    case DeletePending => Deleted
  }

  function StatusText(s: SyncStatus): string {
    match s
    case SyncPending => "SYNC_PENDING"
    case Synced => "SYNCED"
    case UpdatePending => "UPDATE_PENDING"
    case Updated => "UPDATED"
    case DeletePending => "DELETE_PENDING"
    case Deleted => "DELETED"
  }

  // ---------------------------------------------------------------- the archive

  const MSG_PREFIX := "msg-"
  const SOURCE_TAG := "sui-messaging-relayer"

  function Identifier(id: MessageId): string {
    MSG_PREFIX + id
  }

  datatype Tags = Tags(source: string, groupId: string, sender: string, syncStatus: string, order: string)

  /** `body` is the message as it was serialised, carrying the pass's target status. */
  datatype Patch = Patch(identifier: string, tags: Tags, body: Message)

  /** One upload, and the checkpoint at which the chain recorded it. */
  datatype Quilt = Quilt(patches: seq<Patch>, checkpoint: nat)

  function TagsOf(body: Message): Tags {
    Tags(SOURCE_TAG, body.groupId, body.sender, StatusText(body.syncStatus),
         if body.order.Some? then Decimal(body.order.value) else "")
  }

  function PatchOf(m: Message, to: SyncStatus): Patch {
    var body := m.(syncStatus := to);
    Patch(Identifier(m.id), TagsOf(body), body)
  }

  predicate ValidPatch(archive: seq<Quilt>, p: PatchId) {
    p.quilt < |archive| && p.index < |archive[p.quilt].patches|
  }

  function PatchAt(archive: seq<Quilt>, p: PatchId): Patch
    requires ValidPatch(archive, p)
  {
    archive[p.quilt].patches[p.index]
  }

  lemma IdentifierInjective(a: MessageId, b: MessageId)
    ensures Identifier(a) == Identifier(b) <==> a == b
  {
    assert Identifier(a)[|MSG_PREFIX|..] == a && Identifier(b)[|MSG_PREFIX|..] == b;
  }
}
