/**
  What a write request must carry, and what becomes of it: decoding and signature checks in the
  handlers (relayer/src/handlers/messages/handlers.rs, request.rs), signing and re-verification in the
  SDK (ts-sdks/packages/sui-stack-messaging/src/verification.ts).
 */
module Handlers {
  import opened Authentication
  import opened Encoding
  import opened JsonNumbers
  import opened Messages
  import opened Paging
  import opened Sequences
  import opened Storage
  import opened Views
  import opened Wrappers

  // ---------------------------------------------------------------- the signed text

  function Canonical(groupId: GroupId, encryptedText: string, nonce: string, keyVersion: int): string {
    Joined(Joined(Joined(groupId, encryptedText), nonce), Decimal(keyVersion))
  }

  /**
    The signed text determines all four parts, whatever the group id: the other three hold no colon
    and are read back from the end.
   */
  lemma CanonicalInjective(g1: GroupId, e1: string, n1: string, k1: int, g2: GroupId, e2: string, n2: string, k2: int)
    requires HexDecode(e1).Some? && HexDecode(n1).Some? && HexDecode(e2).Some? && HexDecode(n2).Some?
    ensures Canonical(g1, e1, n1, k1) == Canonical(g2, e2, n2, k2) <==> g1 == g2 && e1 == e2 && n1 == n2 && k1 == k2
  {
    if Canonical(g1, e1, n1, k1) == Canonical(g2, e2, n2, k2) {
      DecimalRoundTrip(k1);
      DecimalRoundTrip(k2);
      HexTextHasNoColon(e1);
      HexTextHasNoColon(n1);
      HexTextHasNoColon(e2);
      HexTextHasNoColon(n2);
      SplitAtLastColon(Joined(Joined(g1, e1), n1), Decimal(k1), Joined(Joined(g2, e2), n2), Decimal(k2));
      SplitAtLastColon(Joined(g1, e1), n1, Joined(g2, e2), n2);
      SplitAtLastColon(g1, e1, g2, e2);
    }
  }

  // ---------------------------------------------------------------- the relayer's side

  datatype Reason = MissingGroup | InvalidHex | WrongNonceLength | InvalidSignature | InvalidAttachment

  datatype ApiError = BadRequest(reason: Reason) | Forbidden | Refusal(error: StorageError)

  /** The body of a create or an update, without the fields only the middleware reads. */
  datatype WriteRequest = WriteRequest(
    groupId: GroupId, senderAddress: Address, encryptedText: string, nonce: string, keyVersion: int,
    messageSignature: string, attachments: seq<WireAttachment>)

  const NONCE_LENGTH := 12

  function DecodeAttachment(w: WireAttachment): Option<Attachment> {
    match (HexDecode(w.nonce), HexDecode(w.encryptedMetadata), HexDecode(w.metadataNonce))
    case (Some(nonce), Some(metadata), Some(metadataNonce)) =>
      if |nonce| == NONCE_LENGTH && |metadataNonce| == NONCE_LENGTH
      then Some(Attachment(w.storageId, nonce, metadata, metadataNonce))
      else None
    case _ => None
  }

  function DecodeAttachments(ws: seq<WireAttachment>): Option<seq<Attachment>> {
    if ws == [] then Some([])
    else
      match (DecodeAttachment(ws[0]), DecodeAttachments(ws[1..]))
      case (Some(a), Some(rest)) => Some([a] + rest)
      case _ => None
  }

  function VerifyMessageSignature(c: Crypto, auth: AuthContext, r: WriteRequest): Option<Bytes> {
    match HexDecode(r.messageSignature)
    case None => None
    case Some(signature) =>
      var canonical := Canonical(r.groupId, r.encryptedText, r.nonce, r.keyVersion);
      if VerifySignature(c, c.utf8(canonical), signature, auth.publicKey, auth.scheme) then Some(signature) else None
  }

  /** The checks `create_message` and `update_message` share, in their order. */
  function DecodeContent(c: Crypto, auth: AuthContext, r: WriteRequest): Result<Content, ApiError> {
    match (HexDecode(r.encryptedText), HexDecode(r.nonce))
    case (Some(encryptedMsg), Some(nonce)) =>
      if |nonce| != NONCE_LENGTH then Failure(BadRequest(WrongNonceLength))
      else if VerifyMessageSignature(c, auth, r).None? then Failure(BadRequest(InvalidSignature))
      else if DecodeAttachments(r.attachments).None? then Failure(BadRequest(InvalidAttachment))
      else
        Success(Content(encryptedMsg, nonce, r.keyVersion, DecodeAttachments(r.attachments).value,
                        VerifyMessageSignature(c, auth, r).value, [Flag(auth.scheme)] + auth.publicKey))
    case _ => Failure(BadRequest(InvalidHex))
  }

  // ---------------------------------------------------------------- what is accepted, and why not

  /** The attachment as sent stands for the stored one; both nonces have 12 bytes. */
  ghost predicate StandsFor(w: WireAttachment, a: Attachment) {
    && w.storageId == a.storageId && HexDecode(w.nonce) == Some(a.nonce) && |a.nonce| == 12
    && HexDecode(w.encryptedMetadata) == Some(a.encryptedMetadata)
    && HexDecode(w.metadataNonce) == Some(a.metadataNonce) && |a.metadataNonce| == 12
  }

  lemma AttachmentDecodesIff(w: WireAttachment, a: Attachment)
    ensures DecodeAttachment(w) == Some(a) <==> StandsFor(w, a)
  {
  }

  ghost predicate AllStandFor(ws: seq<WireAttachment>, atts: seq<Attachment>) {
    |atts| == |ws| && forall i | 0 <= i < |ws| :: StandsFor(ws[i], atts[i])
  }

  lemma StandForFirst(ws: seq<WireAttachment>, atts: seq<Attachment>)
    requires ws != [] && atts != []
    ensures AllStandFor(ws, atts) <==> StandsFor(ws[0], atts[0]) && AllStandFor(ws[1..], atts[1..])
  {
    if StandsFor(ws[0], atts[0]) && AllStandFor(ws[1..], atts[1..]) {
      forall i | 0 <= i < |ws| ensures StandsFor(ws[i], atts[i]) {
        if i > 0 { assert StandsFor(ws[1..][i - 1], atts[1..][i - 1]); }
      }
    }
  }

  lemma {:induction false} AttachmentsDecodeIff(ws: seq<WireAttachment>, atts: seq<Attachment>)
    ensures DecodeAttachments(ws) == Some(atts) <==> AllStandFor(ws, atts)
  {
    if ws != [] && atts != [] {
      AttachmentDecodesIff(ws[0], atts[0]);
      AttachmentsDecodeIff(ws[1..], atts[1..]);
      StandForFirst(ws, atts);
      assert DecodeAttachments(ws) == Some(atts) ==> DecodeAttachments(ws[1..]) == Some(atts[1..]);
      assert atts == [atts[0]] + atts[1..];
    }
  }

  /** The signature the request carries, when it is the caller's over the texts as sent. */
  ghost predicate SignedBy(c: Crypto, auth: AuthContext, r: WriteRequest, signature: Bytes) {
    && HexDecode(r.messageSignature) == Some(signature)
    && VerifySignature(c, c.utf8(r.groupId + ":" + r.encryptedText + ":" + r.nonce + ":" + Decimal(r.keyVersion)),
                       signature, auth.publicKey, auth.scheme)
  }

  lemma SignatureChecked(c: Crypto, auth: AuthContext, r: WriteRequest, signature: Bytes)
    ensures VerifyMessageSignature(c, auth, r) == Some(signature) <==> SignedBy(c, auth, r, signature)
  {
    assert Canonical(r.groupId, r.encryptedText, r.nonce, r.keyVersion)
        == r.groupId + ":" + r.encryptedText + ":" + r.nonce + ":" + Decimal(r.keyVersion);
  }

  /** A create or an update is accepted exactly when it carries what is then stored, signed by the caller. */
  lemma AcceptedIff(c: Crypto, auth: AuthContext, r: WriteRequest, content: Content)
    ensures DecodeContent(c, auth, r) == Success(content) <==>
      && HexDecode(r.encryptedText) == Some(content.encryptedMsg)
      && HexDecode(r.nonce) == Some(content.nonce) && |content.nonce| == 12
      && content.keyVersion == r.keyVersion && SignedBy(c, auth, r, content.signature)
      && AllStandFor(r.attachments, content.attachments)
      && content.publicKey == [Flag(auth.scheme)] + auth.publicKey
  {
    SignatureChecked(c, auth, r, content.signature);
    AttachmentsDecodeIff(r.attachments, content.attachments);
  }

  /** Otherwise the answer names something that is wrong with it. */
  lemma RejectionNamesTheFault(c: Crypto, auth: AuthContext, r: WriteRequest)
    requires DecodeContent(c, auth, r).Failure?
    ensures match DecodeContent(c, auth, r).error
      case BadRequest(InvalidHex) => HexDecode(r.encryptedText).None? || HexDecode(r.nonce).None?
      case BadRequest(WrongNonceLength) => HexDecode(r.nonce).Some? && |HexDecode(r.nonce).value| != 12
      case BadRequest(InvalidSignature) => forall signature :: !SignedBy(c, auth, r, signature)
      case BadRequest(InvalidAttachment) => forall atts :: !AllStandFor(r.attachments, atts)
      case _ => false
  {
    forall signature { SignatureChecked(c, auth, r, signature); }
    forall atts { AttachmentsDecodeIff(r.attachments, atts); }
  }

  /** The caller sent this message, and was admitted to its group. */
  ghost predicate Owns(auth: AuthContext, m: Message) {
    m.sender == auth.senderAddress && m.groupId == auth.authorizedGroup
  }

  /** Only the original sender, acting in the message's own group, passes. */
  function CheckOwner(auth: AuthContext, ms: map<MessageId, Message>, id: MessageId): Result<(), ApiError> {
    if id !in ms then Failure(Refusal(NotFound(id)))
    else if ms[id].groupId != auth.authorizedGroup then Failure(Forbidden)
    else if ms[id].sender != auth.senderAddress then Failure(Forbidden)
    else Success(())
  }

  // ---------------------------------------------------------------- the handlers

  /** POST /messages.  A refused create leaves messages and nonces as they were; a late one has burnt an order. */
  method CreateMessage(c: Crypto, storage: InMemoryStorage, auth: AuthContext, r: WriteRequest, id: MessageId, now: int)
    returns (res: Result<MessageId, ApiError>)
    modifies storage
    ensures var content := DecodeContent(c, auth, r);
      match content
      case Failure(e) => res == Failure(e) && storage.State() == old(storage.State())
      case Success(content) =>
        var outcome := Create(old(storage.State()), NewMessage(id, r.groupId, r.senderAddress, content, now));
        && storage.State() == outcome.store
        && res == (match outcome.result case Success(m) => Success(m.id) case Failure(e) => Failure(Refusal(e)))
    ensures res.Failure? ==> storage.messages == old(storage.messages) && storage.nonces == old(storage.nonces)
    ensures old(WellFormed(storage.State())) ==> WellFormed(storage.State())
  {
    var content := DecodeContent(c, auth, r);
    if content.Failure? {
      return Failure(content.error);
    }
    var created := storage.CreateMessage(NewMessage(id, r.groupId, r.senderAddress, content.value, now));
    res := if created.Success? then Success(created.value.id) else Failure(Refusal(created.error));
  }

  /** PUT /messages: ownership first, then the content, then the nonce. */
  method UpdateMessage(c: Crypto, storage: InMemoryStorage, auth: AuthContext, id: MessageId, r: WriteRequest, now: int)
    returns (res: Result<(), ApiError>)
    modifies storage
    ensures res.Success? <==>
      && id in old(storage.messages) && Owns(auth, old(storage.messages)[id]) && DecodeContent(c, auth, r).Success?
      && Update(old(storage.State()), id, DecodeContent(c, auth, r).value, now).result.Success?
    ensures res.Success? ==> storage.State() == Update(old(storage.State()), id, DecodeContent(c, auth, r).value, now).store
    ensures res.Failure? ==> storage.State() == old(storage.State())
    ensures res.Success? || res.error == (
      if id !in old(storage.messages) then Refusal(NotFound(id))
      else if !Owns(auth, old(storage.messages)[id]) then Forbidden
      else if DecodeContent(c, auth, r).Failure? then DecodeContent(c, auth, r).error
      else Refusal(DuplicateNonce))
    ensures old(WellFormed(storage.State())) ==> WellFormed(storage.State())
  {
    var existing := storage.GetMessage(id);
    if existing.Failure? {
      return Failure(Refusal(existing.error));
    }
    if existing.value.groupId != auth.authorizedGroup {
      return Failure(Forbidden);
    }
    if existing.value.sender != auth.senderAddress {
      return Failure(Forbidden);
    }
    var content := DecodeContent(c, auth, r);
    if content.Failure? {
      return Failure(content.error);
    }
    var updated := storage.UpdateMessage(id, content.value, now);
    res := if updated.Success? then Success(()) else Failure(Refusal(updated.error));
  }

  /** DELETE /messages/:message_id. */
  method DeleteMessage(storage: InMemoryStorage, auth: AuthContext, id: MessageId, now: int) returns (res: Result<(), ApiError>)
    modifies storage
    ensures res.Success? <==> id in old(storage.messages) && Owns(auth, old(storage.messages)[id])
    ensures res.Failure? ==> res.error == if id in old(storage.messages) then Forbidden else Refusal(NotFound(id))
    ensures res == CheckOwner(auth, old(storage.messages), id)
    ensures storage.State() == if res.Success? then Delete(old(storage.State()), id, now).store else old(storage.State())
    ensures old(WellFormed(storage.State())) ==> WellFormed(storage.State())
  {
    var existing := storage.GetMessage(id);
    if existing.Failure? {
      return Failure(Refusal(existing.error));
    }
    if existing.value.groupId != auth.authorizedGroup {
      return Failure(Forbidden);
    }
    if existing.value.sender != auth.senderAddress {
      return Failure(Forbidden);
    }
    var deleted := storage.DeleteMessage(id, now);
    assert deleted.Success?;
    res := Success(());
  }

  datatype MessagesQuery = MessagesQuery(
    messageId: Option<MessageId>, groupId: Option<GroupId>, afterOrder: Option<int>, beforeOrder: Option<int>, limit: Option<nat>)

  datatype MessagesAnswer = Single(message: MessageResponse) | Page(messages: seq<MessageResponse>, hasNext: bool)

  function Responses(ms: seq<Message>): seq<MessageResponse> {
    seq(|ms|, i requires 0 <= i < |ms| => Respond(ms[i]))
  }

  /** What GET /messages answers to callers admitted to a group: the one message, or the page, of that group only. */
  ghost predicate Answers(s: Store, auth: AuthContext, q: MessagesQuery, res: Result<MessagesAnswer, ApiError>) {
    match (q.messageId, q.groupId)
    case (Some(id), _) =>
      res == if id !in s.messages then Failure(Refusal(NotFound(id)))
             else if s.messages[id].groupId != auth.authorizedGroup then Failure(Forbidden)
             else Success(Single(Respond(s.messages[id])))
    case (None, None) => res == Failure(BadRequest(MissingGroup))
    case (None, Some(groupId)) =>
      if groupId != auth.authorizedGroup then res == Failure(Forbidden)
      else
        exists page, hasNext :: Serves(s, groupId, q.afterOrder, q.beforeOrder, PageLimit(q.limit), page, hasNext)
          && res == Success(Page(Responses(page), hasNext))
  }

  method GetMessages(storage: InMemoryStorage, auth: AuthContext, q: MessagesQuery) returns (res: Result<MessagesAnswer, ApiError>)
    requires WellFormed(storage.State())
    ensures Answers(storage.State(), auth, q, res)
    ensures q.messageId.Some? && q.messageId.value !in storage.messages ==> res == Failure(Refusal(NotFound(q.messageId.value)))
    ensures q.messageId.Some? && q.messageId.value in storage.messages ==>
      var m := storage.messages[q.messageId.value];
      res == if m.groupId == auth.authorizedGroup then Success(Single(Respond(m))) else Failure(Forbidden)
    ensures q.messageId.None? && q.groupId != Some(auth.authorizedGroup) ==>
      res == Failure(if q.groupId.None? then BadRequest(MissingGroup) else Forbidden)
  {
    if q.messageId.Some? {
      var message := storage.GetMessage(q.messageId.value);
      if message.Failure? {
        return Failure(Refusal(message.error));
      }
      if message.value.groupId != auth.authorizedGroup {
        return Failure(Forbidden);
      }
      return Success(Single(Respond(message.value)));
    }
    if q.groupId.None? {
      return Failure(BadRequest(MissingGroup));
    }
    if q.groupId.value != auth.authorizedGroup {
      return Failure(Forbidden);
    }
    var page, hasNext := FetchPage(storage, q.groupId.value, q.afterOrder, q.beforeOrder, q.limit);
    res := Success(Page(Responses(page), hasNext));
  }

  /**
    How much a reader gets at once: all that matches up to 50 messages, or up to as many as it asks for
    but never more than 100; and it is told whether that was all.
   */
  lemma PageAnswersAreBounded(s: Store, auth: AuthContext, q: MessagesQuery, res: Result<MessagesAnswer, ApiError>)
    requires WellFormed(s) && q.messageId.None? && q.groupId == Some(auth.authorizedGroup) && Answers(s, auth, q, res)
    ensures res.Success? && res.value.Page?
    ensures var n := |Matching(s.messages, auth.authorizedGroup, q.afterOrder, q.beforeOrder)|;
      && |res.value.messages| == (if q.limit.None? then Min(n, 50) else Min(n, Min(q.limit.value, 100)))
      && (res.value.hasNext <==> |res.value.messages| < n)
    ensures forall i | 0 <= i < |res.value.messages| ::
      exists m :: m in Matching(s.messages, auth.authorizedGroup, q.afterOrder, q.beforeOrder) && res.value.messages[i] == Respond(m)
  {
    var g := auth.authorizedGroup;
    var page, hasNext :| Serves(s, g, q.afterOrder, q.beforeOrder, PageLimit(q.limit), page, hasNext)
      && res == Success(Page(Responses(page), hasNext));
    var all :| Lists(all, Matching(s.messages, g, q.afterOrder, q.beforeOrder)) && page == Take(all, PageLimit(q.limit));
    ListingSize(all, Matching(s.messages, g, q.afterOrder, q.beforeOrder));
    forall i | 0 <= i < |page| ensures page[i] in Matching(s.messages, g, q.afterOrder, q.beforeOrder) {
      assert page[i] == all[i] && all[i] in all;
    }
  }

  /** Whatever a reader asks for, it sees messages of the group it was admitted to, and no other. */
  lemma OnlyTheOwnGroupIsServed(s: Store, auth: AuthContext, q: MessagesQuery, res: Result<MessagesAnswer, ApiError>)
    requires WellFormed(s) && Answers(s, auth, q, res) && res.Success?
    ensures match res.value
      case Single(m) => m.groupId == auth.authorizedGroup
      case Page(ms, _) => forall m | m in ms :: m.groupId == auth.authorizedGroup
  {
    if res.value.Page? {
      var page, hasNext :| Serves(s, q.groupId.value, q.afterOrder, q.beforeOrder, PageLimit(q.limit), page, hasNext)
        && res == Success(Page(Responses(page), hasNext));
      var all :| Lists(all, Matching(s.messages, q.groupId.value, q.afterOrder, q.beforeOrder)) && page == Take(all, PageLimit(q.limit));
      forall m | m in page ensures m.groupId == q.groupId.value {
        assert m in all;
      }
    }
  }

  /** How a reader sees a message last written at `now`: edited exactly when that is not when it was created. */
  ghost predicate ShownAsWrittenAt(m: Message, now: int) {
    && Served(m).updatedAt == now / 1_000_000_000 && Served(m).createdAt == m.createdAt / 1_000_000_000
    && (Served(m).isEdited <==> now != m.createdAt)
  }

  /** A reader sees the time of the last write, whichever it was: the worker's mark counts as an edit too. */
  lemma EveryWriteIsShown(s: Store, id: MessageId, content: Content, status: SyncStatus, patch: Option<PatchId>, now: int)
    requires id in s.messages
    ensures var edited := Storage.Update(s, id, content, now).result;
      edited.Success? ==> ShownAsWrittenAt(edited.value, now) && edited.value.createdAt == s.messages[id].createdAt
    ensures var deleted := Storage.Delete(s, id, now).result;
      deleted.Success? && ShownAsWrittenAt(deleted.value, now) && deleted.value.createdAt == s.messages[id].createdAt
    ensures var marked := Storage.SetSyncStatus(s, id, status, patch, now).result;
      marked.Success? && ShownAsWrittenAt(marked.value, now) && marked.value.createdAt == s.messages[id].createdAt
  {
  }

  /** A message just created is not shown as edited. */
  lemma CreationIsShown(s: Store, id: MessageId, groupId: GroupId, sender: Address, content: Content, now: int)
    ensures var created := Storage.Create(s, NewMessage(id, groupId, sender, content, now)).result;
      created.Success? ==> ShownAsWrittenAt(created.value, now) && !Served(created.value).isEdited && !Served(created.value).isDeleted
  {
  }

  // ---------------------------------------------------------------- the SDK's side

  datatype KeyPair = KeyPair(scheme: Scheme, publicKey: Bytes, sign: Bytes -> Bytes)

  /** The assumption on the signature schemes: what a key pair signs verifies under its public key. */
  ghost predicate Correct(c: Crypto, k: KeyPair) {
    |k.publicKey| == KeyLength(k.scheme) && forall m :: VerifySignature(c, m, k.sign(m), k.publicKey, k.scheme)
  }

  /** This one signature is accepted for one text only: nobody has found it a second one. */
  ghost predicate OneText(c: Crypto, signature: Bytes, key: Bytes, scheme: Scheme) {
    forall s, t {:trigger c.utf8(s), c.utf8(t)} ::
      c.accepts(c.utf8(s), signature, key, scheme) && c.accepts(c.utf8(t), signature, key, scheme) ==> s == t
  }

  /**
    The two assumptions go together: for any text there are schemes in which a key pair is correct and
    its signature of that text is accepted for no other.
   */
  lemma OneTextBesideCorrect(text: string, scheme: Scheme, publicKey: Bytes) returns (c: Crypto, k: KeyPair)
    requires |publicKey| == KeyLength(scheme)
    ensures k.scheme == scheme && k.publicKey == publicKey
    ensures Correct(c, k) && OneText(c, k.sign(c.utf8(text)), k.publicKey, k.scheme)
  {
    var ours, others := seq(SIGNATURE_LENGTH, _ => 0 as Byte), seq(SIGNATURE_LENGTH, _ => 1 as Byte);
    var utf8: string -> Bytes := (s: string) => if s == text then [1] else [];
    var sign: Bytes -> Bytes := (m: Bytes) => if m == [1] then ours else others;
    var accepts := (m: Bytes, signature: Bytes, key: Bytes, scheme: Scheme) => signature == sign(m);
    c := Crypto(utf8, accepts, (b: Bytes) => b);
    k := KeyPair(scheme, publicKey, sign);
    assert ours[0] != others[0];
  }

  /** The SDK's own printer, from bytes. */
  function BuildCanonicalMessage(groupId: GroupId, encryptedText: Bytes, nonce: Bytes, keyVersion: int): string {
    groupId + ":" + HexEncode(encryptedText) + ":" + HexEncode(nonce) + ":" + Decimal(keyVersion)
  }

  /** The signed text holds the key version itself, the JSON body what JavaScript prints for its double. */
  function SdkRequest(
    c: Crypto, k: KeyPair, groupId: GroupId, encryptedText: Bytes, nonce: Bytes, keyVersion: int,
    attachments: seq<WireAttachment>): WriteRequest
  {
    WriteRequest(
      groupId, DeriveAddress(c, k.publicKey, k.scheme), HexEncode(encryptedText), HexEncode(nonce), Sent(keyVersion),
      HexEncode(k.sign(c.utf8(BuildCanonicalMessage(groupId, encryptedText, nonce, keyVersion)))), attachments)
  }

  /** What the reader's SDK decides about a message it has read; anything but text fails to decode. */
  function VerifyMessageSender(c: Crypto, m: RelayerMessage): bool {
    match (m.signature, m.publicKey)
    case (Text(signatureText), Text(keyText)) =>
      (match (HexDecode(signatureText), DecodeKey(keyText))
       case (Some(signature), Some((scheme, key))) =>
         && VerifySignature(c, c.utf8(BuildCanonicalMessage(m.groupId, m.encryptedText, m.nonce, m.keyVersion)), signature, key, scheme)
         && DeriveAddress(c, key, scheme) == m.senderAddress
       case _ => false)
    case _ => false
  }

  // ---------------------------------------------------------------- what a stored signature covers

  /** The content's signature is its sender's, over these very texts. */
  ghost predicate Signed(c: Crypto, groupId: GroupId, sender: Address, content: Content, encryptedText: string, nonce: string) {
    && HexDecode(encryptedText) == Some(content.encryptedMsg) && HexDecode(nonce) == Some(content.nonce)
    && exists key, scheme :: IsKeyOf(c, content.publicKey, sender, key, scheme)
        && VerifySignature(c, c.utf8(Canonical(groupId, encryptedText, nonce, content.keyVersion)), content.signature, key, scheme)
  }

  ghost predicate IsKeyOf(c: Crypto, framed: Bytes, sender: Address, key: Bytes, scheme: Scheme) {
    framed == [Flag(scheme)] + key && |key| == KeyLength(scheme) && sender == DeriveAddress(c, key, scheme)
  }

  /** The fixed sizes: AES-GCM nonces of 12 bytes, signatures of 64. */
  predicate WellSized(content: Content) {
    && |content.nonce| == NONCE_LENGTH && |content.signature| == SIGNATURE_LENGTH
    && forall a | a in content.attachments :: |a.nonce| == NONCE_LENGTH && |a.metadataNonce| == NONCE_LENGTH
  }

  ghost predicate Authentic(c: Crypto, groupId: GroupId, sender: Address, content: Content) {
    WellSized(content) && exists encryptedText, nonce :: Signed(c, groupId, sender, content, encryptedText, nonce)
  }

  predicate Derived(c: Crypto, auth: AuthContext) {
    |auth.publicKey| == KeyLength(auth.scheme) && auth.senderAddress == DeriveAddress(c, auth.publicKey, auth.scheme)
  }

  lemma FramedKeyUnique(framed: Bytes, k1: Bytes, s1: Scheme, k2: Bytes, s2: Scheme)
    requires framed == [Flag(s1)] + k1 && framed == [Flag(s2)] + k2
    ensures k1 == k2 && s1 == s2
  {
    assert framed[1..] == k1 && framed[1..] == k2 && framed[0] == Flag(s1) && framed[0] == Flag(s2);
  }

  /** Whatever the handlers accept carries its sender's signature over the texts as sent. */
  lemma AcceptedIsSigned(c: Crypto, auth: AuthContext, r: WriteRequest)
    requires Derived(c, auth) && DecodeContent(c, auth, r).Success?
    ensures Signed(c, r.groupId, auth.senderAddress, DecodeContent(c, auth, r).value, r.encryptedText, r.nonce)
    ensures Authentic(c, r.groupId, auth.senderAddress, DecodeContent(c, auth, r).value)
  {
    var content := DecodeContent(c, auth, r).value;
    AttachmentsNormalForm(r.attachments);
    assert IsKeyOf(c, content.publicKey, auth.senderAddress, auth.publicKey, auth.scheme);
    assert Signed(c, r.groupId, auth.senderAddress, content, r.encryptedText, r.nonce);
  }

  /** The content as a reader of the relayer's API takes it. */
  function AsRead(content: Content): Content {
    content.(keyVersion := Number(content.keyVersion))
  }

  /** The reader accepts exactly when the signature covers the base16 the relayer prints and the key version as read. */
  lemma ReaderAcceptsIff(c: Crypto, m: Message)
    ensures VerifyMessageSender(c, Served(m))
       <==> Signed(c, m.groupId, m.sender, AsRead(m.content), HexEncode(m.content.encryptedMsg), HexEncode(m.content.nonce))
  {
    var content := AsRead(m.content);
    HexRoundTrip(content.encryptedMsg);
    HexRoundTrip(content.nonce);
    HexRoundTrip(content.signature);
    HexRoundTrip(content.publicKey);
    if VerifyMessageSender(c, Served(m)) {
      var (scheme, key) := DecodeKey(HexEncode(content.publicKey)).value;
      KeyIff(HexEncode(content.publicKey), scheme, key);
      assert IsKeyOf(c, content.publicKey, m.sender, key, scheme);
    }
    if Signed(c, m.groupId, m.sender, content, HexEncode(content.encryptedMsg), HexEncode(content.nonce)) {
      var key, scheme :| IsKeyOf(c, content.publicKey, m.sender, key, scheme)
        && VerifySignature(c, c.utf8(BuildCanonicalMessage(m.groupId, content.encryptedMsg, content.nonce, content.keyVersion)),
                           content.signature, key, scheme);
      KeyIff(HexEncode(content.publicKey), scheme, key);
    }
  }

  /** What a sender must do for its readers: print base16 in lower case, and use a key version that is a double. */
  predicate Readable(encryptedText: string, nonce: string, keyVersion: int) {
    IsLowerCase(encryptedText) && IsLowerCase(nonce) && Number(keyVersion) == keyVersion
  }

  lemma AcceptedReadable(c: Crypto, auth: AuthContext, r: WriteRequest)
    requires Derived(c, auth) && DecodeContent(c, auth, r).Success? && Readable(r.encryptedText, r.nonce, r.keyVersion)
    ensures var content := DecodeContent(c, auth, r).value;
      Signed(c, r.groupId, auth.senderAddress, AsRead(content), HexEncode(content.encryptedMsg), HexEncode(content.nonce))
  {
    AcceptedIsSigned(c, auth, r);
    HexNormalForm(r.encryptedText);
    HexNormalForm(r.nonce);
    var content := DecodeContent(c, auth, r).value;
    assert AsRead(content) == content;
  }

  /** A message sent so verifies for every reader. */
  lemma ReadableVerifies(c: Crypto, m: Message, encryptedText: string, nonce: string)
    requires Signed(c, m.groupId, m.sender, m.content, encryptedText, nonce)
    requires Readable(encryptedText, nonce, m.content.keyVersion)
    ensures VerifyMessageSender(c, Served(m))
  {
    HexNormalForm(encryptedText);
    HexNormalForm(nonce);
    assert AsRead(m.content) == m.content;
    ReaderAcceptsIff(c, m);
  }

  /** Under the key stored with it, the content's signature is accepted for one text only. */
  ghost predicate UniquelySigned(c: Crypto, content: Content) {
    forall key, scheme | content.publicKey == [Flag(scheme)] + key :: OneText(c, content.signature, key, scheme)
  }

  /**
    The relayer checks the signature over the text as sent, stores decoded bytes and a 64-bit integer,
    and serves lower case; the reader rounds the integer to a double.  An accepted message verifies for
    its readers exactly when it was sent in lower case with a key version that is a double.
   */
  lemma ReaderAcceptsIffReadable(c: Crypto, m: Message, encryptedText: string, nonce: string)
    requires UniquelySigned(c, m.content) && Signed(c, m.groupId, m.sender, m.content, encryptedText, nonce)
    ensures VerifyMessageSender(c, Served(m)) <==> Readable(encryptedText, nonce, m.content.keyVersion)
  {
    var content := m.content;
    var e, n := HexEncode(content.encryptedMsg), HexEncode(content.nonce);
    HexNormalForm(encryptedText);
    HexNormalForm(nonce);
    if VerifyMessageSender(c, Served(m)) {
      ReaderAcceptsIff(c, m);
      OneSignedText(c, m.groupId, m.sender, content, encryptedText, nonce, AsRead(content), e, n);
    } else if Readable(encryptedText, nonce, content.keyVersion) {
      ReadableVerifies(c, m, encryptedText, nonce);
    }
  }

  /** A recovered message never verifies, whatever its sender signed: its signature is not text. */
  lemma RecoveredNeverVerifies(c: Crypto, m: Message)
    ensures !VerifyMessageSender(c, FromWalrusMessage(m))
  {
  }

  /** One signature is over one text, so over one spelling and one key version. */
  lemma OneSignedText(c: Crypto, groupId: GroupId, sender: Address, content: Content, e1: string, n1: string,
                      content': Content, e2: string, n2: string)
    requires UniquelySigned(c, content) && content' == content.(keyVersion := content'.keyVersion)
    requires Signed(c, groupId, sender, content, e1, n1) && Signed(c, groupId, sender, content', e2, n2)
    ensures e1 == e2 && n1 == n2 && content'.keyVersion == content.keyVersion
  {
    var k1, s1 :| IsKeyOf(c, content.publicKey, sender, k1, s1)
      && VerifySignature(c, c.utf8(Canonical(groupId, e1, n1, content.keyVersion)), content.signature, k1, s1);
    var k2, s2 :| IsKeyOf(c, content'.publicKey, sender, k2, s2)
      && VerifySignature(c, c.utf8(Canonical(groupId, e2, n2, content'.keyVersion)), content'.signature, k2, s2);
    FramedKeyUnique(content.publicKey, k1, s1, k2, s2);
    assert OneText(c, content.signature, k1, s1);
    CanonicalInjective(groupId, e1, n1, content.keyVersion, groupId, e2, n2, content'.keyVersion);
  }

  // ---------------------------------------------------------------- from the SDK and back

  /** The stored message, from a request the handler accepts. */
  function StoredFrom(c: Crypto, auth: AuthContext, r: WriteRequest, id: MessageId, now: int): Message
    requires DecodeContent(c, auth, r).Success?
  {
    NewMessage(id, r.groupId, r.senderAddress, DecodeContent(c, auth, r).value, now)
  }

  /** The key version fits the relayer's field, the handler accepts, and every reader verifies. */
  predicate AcceptedAndVerified(c: Crypto, auth: AuthContext, r: WriteRequest, id: MessageId, now: int) {
    && IsI64(r.keyVersion) && DecodeContent(c, auth, r).Success?
    && VerifyMessageSender(c, Served(StoredFrom(c, auth, r, id, now)))
  }

  /**
    From the SDK and back: for key versions up to 2^53 a request the SDK signs is accepted, and what
    readers get has the same bytes, key version and attachments, and verifies.
   */
  lemma SdkMessagesVerify(
    c: Crypto, k: KeyPair, groupId: GroupId, encryptedText: Bytes, nonce: Bytes, keyVersion: int,
    attachments: seq<WireAttachment>, id: MessageId, now: int)
    requires Correct(c, k) && Abs(keyVersion) <= EXACT && |nonce| == NONCE_LENGTH && DecodeAttachments(attachments).Some?
    ensures var r := SdkRequest(c, k, groupId, encryptedText, nonce, keyVersion, attachments);
      var auth := AuthContext(r.senderAddress, k.publicKey, k.scheme, groupId);
      && AcceptedAndVerified(c, auth, r, id, now)
      && var read := Served(StoredFrom(c, auth, r, id, now));
         && read.encryptedText == encryptedText && read.nonce == nonce && read.keyVersion == keyVersion
         && (AllLowerCase(attachments) <==> read.attachments == attachments)
  {
    SmallNumbersSurvive(keyVersion);
    SdkContentDecodes(c, k, groupId, encryptedText, nonce, keyVersion, attachments);
    var r := SdkRequest(c, k, groupId, encryptedText, nonce, keyVersion, attachments);
    var auth := AuthContext(r.senderAddress, k.publicKey, k.scheme, groupId);
    var m := StoredFrom(c, auth, r, id, now);
    AcceptedIsSigned(c, auth, r);
    HexRoundTrip(encryptedText);
    HexRoundTrip(nonce);
    ReadableVerifies(c, m, r.encryptedText, r.nonce);
    AttachmentsNormalForm(attachments);
  }

  /** What JavaScript sends as itself is accepted, with the very bytes that were signed. */
  lemma SdkContentDecodes(c: Crypto, k: KeyPair, groupId: GroupId, encryptedText: Bytes, nonce: Bytes, keyVersion: int,
                          attachments: seq<WireAttachment>)
    requires Correct(c, k) && |nonce| == NONCE_LENGTH && DecodeAttachments(attachments).Some? && Sent(keyVersion) == keyVersion
    ensures var r := SdkRequest(c, k, groupId, encryptedText, nonce, keyVersion, attachments);
      var content := DecodeContent(c, AuthContext(r.senderAddress, k.publicKey, k.scheme, groupId), r);
      && content.Success? && content.value.encryptedMsg == encryptedText && content.value.nonce == nonce
      && content.value.keyVersion == keyVersion
  {
    HexRoundTrip(encryptedText);
    HexRoundTrip(nonce);
    HexRoundTrip(k.sign(c.utf8(BuildCanonicalMessage(groupId, encryptedText, nonce, keyVersion))));
  }

  /** The signature the SDK makes for this content is accepted for no other text. */
  ghost predicate SdkSignsOnce(c: Crypto, k: KeyPair, groupId: GroupId, encryptedText: Bytes, nonce: Bytes, keyVersion: int) {
    OneText(c, k.sign(c.utf8(BuildCanonicalMessage(groupId, encryptedText, nonce, keyVersion))), k.publicKey, k.scheme)
  }

  /** Both assumptions of the following results can be met, whatever the content. */
  lemma SdkAssumptionsCanHold(scheme: Scheme, publicKey: Bytes, groupId: GroupId, encryptedText: Bytes, nonce: Bytes, keyVersion: int)
    returns (c: Crypto, k: KeyPair)
    requires |publicKey| == KeyLength(scheme)
    ensures k.scheme == scheme && k.publicKey == publicKey
    ensures Correct(c, k) && SdkSignsOnce(c, k, groupId, encryptedText, nonce, keyVersion)
  {
    c, k := OneTextBesideCorrect(BuildCanonicalMessage(groupId, encryptedText, nonce, keyVersion), scheme, publicKey);
  }

  /** The relayer accepts the SDK's signature exactly when JavaScript sends the key version as itself. */
  lemma SdkSignatureAcceptedIff(
    c: Crypto, k: KeyPair, auth: AuthContext,
    encryptedText: Bytes, nonce: Bytes, keyVersion: int, attachments: seq<WireAttachment>)
    requires Correct(c, k) && auth.publicKey == k.publicKey && auth.scheme == k.scheme
    requires SdkSignsOnce(c, k, auth.authorizedGroup, encryptedText, nonce, keyVersion)
    ensures var r := SdkRequest(c, k, auth.authorizedGroup, encryptedText, nonce, keyVersion, attachments);
      VerifyMessageSignature(c, auth, r).Some? <==> Sent(keyVersion) == keyVersion
  {
    var g := auth.authorizedGroup;
    var signed := c.utf8(BuildCanonicalMessage(g, encryptedText, nonce, keyVersion));
    HexRoundTrip(encryptedText);
    HexRoundTrip(nonce);
    HexRoundTrip(k.sign(signed));
    CanonicalInjective(g, HexEncode(encryptedText), HexEncode(nonce), keyVersion,
                       g, HexEncode(encryptedText), HexEncode(nonce), Sent(keyVersion));
    assert VerifySignature(c, signed, k.sign(signed), k.publicKey, k.scheme);
  }

  /** Accepted requests of the SDK verify exactly when the reader's double is the key version. */
  lemma SdkAcceptedVerifiesIff(
    c: Crypto, k: KeyPair, groupId: GroupId, encryptedText: Bytes, nonce: Bytes, keyVersion: int,
    attachments: seq<WireAttachment>, id: MessageId, now: int)
    requires Correct(c, k) && SdkSignsOnce(c, k, groupId, encryptedText, nonce, keyVersion)
    requires |nonce| == NONCE_LENGTH && DecodeAttachments(attachments).Some?
    requires Sent(keyVersion) == keyVersion
    ensures var r := SdkRequest(c, k, groupId, encryptedText, nonce, keyVersion, attachments);
      AcceptedAndVerified(c, AuthContext(r.senderAddress, k.publicKey, k.scheme, groupId), r, id, now)
      <==> IsI64(keyVersion) && Number(keyVersion) == keyVersion
  {
    var r := SdkRequest(c, k, groupId, encryptedText, nonce, keyVersion, attachments);
    var auth := AuthContext(r.senderAddress, k.publicKey, k.scheme, groupId);
    SdkContentDecodes(c, k, groupId, encryptedText, nonce, keyVersion, attachments);
    AcceptedIsSigned(c, auth, r);
    HexRoundTrip(encryptedText);
    HexRoundTrip(nonce);
    var content := DecodeContent(c, auth, r).value;
    forall key, scheme | content.publicKey == [Flag(scheme)] + key ensures OneText(c, content.signature, key, scheme) {
      FramedKeyUnique(content.publicKey, key, scheme, k.publicKey, k.scheme);
      HexRoundTrip(k.sign(c.utf8(BuildCanonicalMessage(groupId, encryptedText, nonce, keyVersion))));
    }
    ReaderAcceptsIffReadable(c, StoredFrom(c, auth, r, id, now), r.encryptedText, r.nonce);
  }

  /**
    The exact range of key versions: a request of the SDK is accepted and verifies for every reader if
    and only if the key version is a 64-bit double that JavaScript prints as itself.
   */
  lemma SdkMessagesVerifyIff(
    c: Crypto, k: KeyPair, groupId: GroupId, encryptedText: Bytes, nonce: Bytes, keyVersion: int,
    attachments: seq<WireAttachment>, id: MessageId, now: int)
    requires Correct(c, k) && SdkSignsOnce(c, k, groupId, encryptedText, nonce, keyVersion)
    requires |nonce| == NONCE_LENGTH && DecodeAttachments(attachments).Some?
    ensures var r := SdkRequest(c, k, groupId, encryptedText, nonce, keyVersion, attachments);
      AcceptedAndVerified(c, AuthContext(r.senderAddress, k.publicKey, k.scheme, groupId), r, id, now)
      <==> IsI64(keyVersion) && Representable(Abs(keyVersion)) && Printed(keyVersion) == keyVersion
  {
    NumberKeepsIff(keyVersion);
    var r := SdkRequest(c, k, groupId, encryptedText, nonce, keyVersion, attachments);
    var auth := AuthContext(r.senderAddress, k.publicKey, k.scheme, groupId);
    SdkSignatureAcceptedIff(c, k, auth, encryptedText, nonce, keyVersion, attachments);
    NothingElseAccepted(c, auth, r, id, now);
    if Sent(keyVersion) == keyVersion {
      SdkAcceptedVerifiesIff(c, k, groupId, encryptedText, nonce, keyVersion, attachments, id, now);
    }
  }

  lemma NothingElseAccepted(c: Crypto, auth: AuthContext, r: WriteRequest, id: MessageId, now: int)
    ensures AcceptedAndVerified(c, auth, r, id, now) ==> VerifyMessageSignature(c, auth, r).Some?
  {
  }

  ghost predicate AllLowerCase(ws: seq<WireAttachment>) {
    forall w | w in ws :: IsLowerCase(w.nonce) && IsLowerCase(w.encryptedMetadata) && IsLowerCase(w.metadataNonce)
  }

  lemma AttachmentNormalForm(w: WireAttachment)
    requires DecodeAttachment(w).Some?
    ensures var a := DecodeAttachment(w).value;
      && |a.nonce| == NONCE_LENGTH && |a.metadataNonce| == NONCE_LENGTH
      && (WireAttachment(a.storageId, HexEncode(a.nonce), HexEncode(a.encryptedMetadata), HexEncode(a.metadataNonce)) == w
          <==> AllLowerCase([w]))
  {
    HexNormalForm(w.nonce);
    HexNormalForm(w.encryptedMetadata);
    HexNormalForm(w.metadataNonce);
    assert w in [w];
  }

  /** Attachments are served as they were sent exactly when they were sent in lower case; their nonces have the fixed size. */
  lemma {:induction false} AttachmentsNormalForm(ws: seq<WireAttachment>)
    requires DecodeAttachments(ws).Some?
    ensures EncodeAttachments(DecodeAttachments(ws).value) == ws <==> AllLowerCase(ws)
    ensures forall a | a in DecodeAttachments(ws).value :: |a.nonce| == NONCE_LENGTH && |a.metadataNonce| == NONCE_LENGTH
  {
    if ws == [] {
    } else {
      AttachmentNormalForm(ws[0]);
      AttachmentsNormalForm(ws[1..]);
      assert ws == [ws[0]] + ws[1..];
      assert AllLowerCase(ws) <==> AllLowerCase([ws[0]]) && AllLowerCase(ws[1..]);
      var atts := DecodeAttachments(ws).value;
      assert atts[1..] == DecodeAttachments(ws[1..]).value;
    }
  }
}
