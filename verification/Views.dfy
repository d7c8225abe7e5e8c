/**
  How a stored message reaches a reader: over the relayer's HTTP API
  (relayer/src/handlers/messages/response.rs, http-transport.ts `fromWireMessage`) or from the archive
  (ts-sdks/packages/sui-stack-messaging/src/recovery/walrus-message.ts).
 */
module Views {
  import opened Encoding
  import opened JsonNumbers
  import opened Messages
  import opened Wrappers

  /** An attachment with its bytes in base16, on the wire and in the SDK alike. */
  datatype WireAttachment = WireAttachment(storageId: string, nonce: string, encryptedMetadata: string, metadataNonce: string)

  /** The relayer's JSON answer for one message. */
  datatype MessageResponse = MessageResponse(
    messageId: MessageId, groupId: GroupId, order: int, encryptedText: string, nonce: string, keyVersion: int,
    senderAddress: Address, createdAt: int, updatedAt: int, attachments: seq<WireAttachment>,
    isEdited: bool, isDeleted: bool, syncStatus: string, quiltPatchId: Option<PatchId>,
    signature: string, publicKey: string)

  /** What a field declared as text holds: the relayer's API sends base16, an archived body an array of numbers. */
  datatype TextField = Text(text: string) | NumberArray(bytes: Bytes)

  /** The SDK's message. */
  datatype RelayerMessage = RelayerMessage(
    messageId: MessageId, groupId: GroupId, order: int, encryptedText: Bytes, nonce: Bytes, keyVersion: int,
    senderAddress: Address, createdAt: int, updatedAt: int, attachments: seq<WireAttachment>,
    isEdited: bool, isDeleted: bool, syncStatus: string, quiltPatchId: Option<PatchId>,
    signature: TextField, publicKey: TextField)

  function EncodeAttachments(atts: seq<Attachment>): seq<WireAttachment> {
    if atts == [] then []
    else [WireAttachment(atts[0].storageId, HexEncode(atts[0].nonce), HexEncode(atts[0].encryptedMetadata),
                         HexEncode(atts[0].metadataNonce))] + EncodeAttachments(atts[1..])
  }

  /** Times are stored in nanoseconds and served in whole seconds. */
  function Respond(m: Message): MessageResponse {
    MessageResponse(
      m.id, m.groupId, OrderOf(m), HexEncode(m.content.encryptedMsg), HexEncode(m.content.nonce), m.content.keyVersion,
      m.sender, m.createdAt / 1_000_000_000, m.updatedAt / 1_000_000_000, EncodeAttachments(m.content.attachments),
      m.updatedAt != m.createdAt, m.syncStatus.DeletePending? || m.syncStatus.Deleted?, StatusText(m.syncStatus),
      m.quiltPatchId, HexEncode(m.content.signature), HexEncode(m.content.publicKey))
  }

  /** The key version passes through a JavaScript number before it becomes a big integer. */
  function FromWireMessage(w: MessageResponse): RelayerMessage {
    RelayerMessage(
      w.messageId, w.groupId, w.order,
      HexDecode(w.encryptedText).GetOr([]), HexDecode(w.nonce).GetOr([]), Number(w.keyVersion),
      w.senderAddress, w.createdAt, w.updatedAt, w.attachments, w.isEdited, w.isDeleted, w.syncStatus, w.quiltPatchId,
      Text(w.signature), Text(w.publicKey))
  }

  /** `toString(16)` padded to two digits. */
  function PaddedHex(b: Byte): string {
    if b < 16 then "0" + [HexDigit(b)] else [HexDigit(b / 16), HexDigit(b % 16)]
  }

  function BytesToHex(bytes: Bytes): string {
    if bytes == [] then "" else PaddedHex(bytes[0]) + BytesToHex(bytes[1..])
  }

  function MapAttachments(atts: seq<Attachment>): seq<WireAttachment> {
    if atts == [] then []
    else [WireAttachment(atts[0].storageId, BytesToHex(atts[0].nonce), BytesToHex(atts[0].encryptedMetadata),
                         BytesToHex(atts[0].metadataNonce))] + MapAttachments(atts[1..])
  }

  /** JavaScript dates keep milliseconds, then the code floors to seconds. */
  function FromWalrusMessage(m: Message): RelayerMessage {
    RelayerMessage(
      m.id, m.groupId, OrderOf(m), m.content.encryptedMsg, m.content.nonce, Number(m.content.keyVersion),
      m.sender, m.createdAt / 1_000_000 / 1000, m.updatedAt / 1_000_000 / 1000, MapAttachments(m.content.attachments),
      m.createdAt != m.updatedAt, m.syncStatus.DeletePending? || m.syncStatus.Deleted?, StatusText(m.syncStatus),
      m.quiltPatchId, NumberArray(m.content.signature), NumberArray(m.content.publicKey))
  }

  lemma {:induction false} BytesToHexIsHexEncode(bytes: Bytes)
    ensures BytesToHex(bytes) == HexEncode(bytes)
  {
    if bytes == [] {
    } else {
      BytesToHexIsHexEncode(bytes[1..]);
      assert bytes[0] < 16 ==> bytes[0] / 16 == 0 && bytes[0] % 16 == bytes[0];
      assert PaddedHex(bytes[0]) == [HexDigit(bytes[0] / 16), HexDigit(bytes[0] % 16)];
    }
  }

  lemma {:induction false} AttachmentEncodingsAgree(atts: seq<Attachment>)
    ensures MapAttachments(atts) == EncodeAttachments(atts)
  {
    if atts == [] {
    } else {
      AttachmentEncodingsAgree(atts[1..]);
      BytesToHexIsHexEncode(atts[0].nonce);
      BytesToHexIsHexEncode(atts[0].encryptedMetadata);
      BytesToHexIsHexEncode(atts[0].metadataNonce);
    }
  }

  /** The fields an archived copy must share with the live message: all but those a mark still changes. */
  ghost predicate SameView(a: RelayerMessage, b: RelayerMessage) {
    && a.messageId == b.messageId && a.groupId == b.groupId && a.order == b.order
    && a.encryptedText == b.encryptedText && a.nonce == b.nonce && a.keyVersion == b.keyVersion
    && a.senderAddress == b.senderAddress && a.createdAt == b.createdAt && a.attachments == b.attachments
    && a.isDeleted == b.isDeleted && a.syncStatus == b.syncStatus
  }

  /** What a reader of the relayer's API gets for a stored message. */
  function Served(m: Message): RelayerMessage {
    FromWireMessage(Respond(m))
  }

  /** Six statuses, six texts, as readers name them; deletion shows in two of them. */
  lemma StatusIsTold(m: Message)
    ensures Served(m).syncStatus == (match m.syncStatus
                                     case SyncPending => "SYNC_PENDING" case Synced => "SYNCED"
                                     case UpdatePending => "UPDATE_PENDING" case Updated => "UPDATED"
                                     case DeletePending => "DELETE_PENDING" case Deleted => "DELETED")
    ensures Served(m).isDeleted <==> Served(m).syncStatus == "DELETE_PENDING" || Served(m).syncStatus == "DELETED"
    ensures forall other: Message :: Served(other).syncStatus == Served(m).syncStatus <==> other.syncStatus == m.syncStatus
  {
  }

  /**
    The two ways to read a message agree in every field but two, on every message: the relayer's API
    gives signature and public key as base16 text, an archived body as arrays of numbers.
   */
  lemma ConvertersAgree(m: Message)
    ensures FromWalrusMessage(m)
         == Served(m).(signature := NumberArray(m.content.signature), publicKey := NumberArray(m.content.publicKey))
    ensures Served(m).signature == Text(HexEncode(m.content.signature))
    ensures Served(m).publicKey == Text(HexEncode(m.content.publicKey))
  {
    HexRoundTrip(m.content.encryptedMsg);
    HexRoundTrip(m.content.nonce);
    AttachmentEncodingsAgree(m.content.attachments);
    assert m.createdAt / 1_000_000 / 1000 == m.createdAt / 1_000_000_000;
    assert m.updatedAt / 1_000_000 / 1000 == m.updatedAt / 1_000_000_000;
  }

  /** Reading the archived body gives the same view as asking the relayer, when identity, content and status agree. */
  lemma ArchivedViewIsServedView(body: Message, m: Message)
    requires IdentityOf(body) == IdentityOf(m) && body.content == m.content && body.syncStatus == m.syncStatus
    ensures SameView(FromWalrusMessage(body), Served(m))
    ensures Served(m).encryptedText == m.content.encryptedMsg && Served(m).nonce == m.content.nonce
    ensures Served(m).keyVersion == m.content.keyVersion <==> Representable(Abs(m.content.keyVersion))
  {
    HexRoundTrip(m.content.encryptedMsg);
    HexRoundTrip(m.content.nonce);
    ConvertersAgree(m);
    NumberKeepsIff(m.content.keyVersion);
  }
}
