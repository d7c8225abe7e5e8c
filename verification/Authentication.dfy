/**
  Who may call the relayer: the authentication middleware (relayer/src/auth/middleware.rs) and the
  signature, address and time checks it makes (relayer/src/auth/signature.rs, schemes.rs).
 */
module Authentication {
  import opened Encoding
  import opened Membership
  import opened Messages
  import opened Wrappers

  datatype Scheme = Ed25519 | Secp256k1 | Secp256r1

  function Flag(s: Scheme): Byte {
    match s
    case Ed25519 => 0
    case Secp256k1 => 1
    case Secp256r1 => 2
  }

  function FromFlag(flag: Byte): Option<Scheme> {
    if flag == 0 then Some(Ed25519) else if flag == 1 then Some(Secp256k1) else if flag == 2 then Some(Secp256r1) else None
  }

  function KeyLength(s: Scheme): nat {
    if s.Ed25519? then 32 else 33
  }

  const SIGNATURE_LENGTH := 64

  /** What the model does not look into: UTF-8, the three signature schemes and Blake2b. */
  datatype Crypto = Crypto(
    utf8: string -> Bytes,
    accepts: (Bytes, Bytes, Bytes, Scheme) -> bool,  // message, signature, public key
    hash: Bytes -> Bytes)

  function VerifySignature(c: Crypto, message: Bytes, signature: Bytes, publicKey: Bytes, scheme: Scheme): bool {
    |signature| == SIGNATURE_LENGTH && |publicKey| == KeyLength(scheme) && c.accepts(message, signature, publicKey, scheme)
  }

  function DeriveAddress(c: Crypto, publicKey: Bytes, scheme: Scheme): Address {
    "0x" + HexEncode(c.hash([Flag(scheme)] + publicKey))
  }

  // ---------------------------------------------------------------- the time window

  /** Rust's 64-bit integers, whose arithmetic wraps around in a release build. */
  type I64 = n: int | -HALF <= n < HALF

  const HALF := 0x8000_0000_0000_0000

  predicate IsI64(n: int) {
    -HALF <= n < HALF
  }

  function Wrap(n: int): I64 {
    (n + HALF) % (2 * HALF) - HALF
  }

  /** The least integer has no positive counterpart and stays as it is. */
  function WrappingAbs(n: I64): I64 {
    if -HALF < n < 0 then -n else n
  }

  /** The relayer's check, in seconds. */
  predicate ValidTimestamp(timestamp: I64, now: I64, ttl: I64) {
    WrappingAbs(Wrap(now - timestamp)) <= ttl
  }

  /** The same said of the distance between timestamp and clock: within the window, or so far that it wraps around. */
  predicate Timely(timestamp: int, now: int, ttl: int) {
    var distance := Abs(now - timestamp);
    distance <= ttl || distance == HALF || (distance > HALF && 2 * HALF - distance <= ttl)
  }

  lemma ValidTimestampIff(timestamp: I64, now: I64, ttl: I64)
    ensures ValidTimestamp(timestamp, now, ttl) <==> Timely(timestamp, now, ttl)
  {
  }

  /** With an ordinary clock and window, exactly one timestamp outside the window passes. */
  lemma OrdinaryWindow(timestamp: I64, now: I64, ttl: I64)
    requires 0 <= now && 0 <= ttl && now + ttl < HALF
    ensures ValidTimestamp(timestamp, now, ttl) <==> Abs(now - timestamp) <= ttl || timestamp == now - HALF
  {
    ValidTimestampIff(timestamp, now, ttl);
  }

  // ---------------------------------------------------------------- the middleware

  datatype Verb = GET | POST | PUT | DELETE | OtherMethod

  /** What the JSON body holds for the middleware. */
  datatype BodyFields = BodyFields(groupId: GroupId, senderAddress: Address, timestamp: I64)

  datatype Body = Unreadable | Empty | Raw(bytes: Bytes, fields: Option<BodyFields>)

  /** Header values are already trimmed. */
  datatype HttpRequest = HttpRequest(
    verb: Verb, signature: Option<string>, publicKey: Option<string>,
    senderAddress: Option<string>, timestamp: Option<string>, groupId: Option<string>, body: Body)

  datatype AuthContext = AuthContext(senderAddress: Address, publicKey: Bytes, scheme: Scheme, authorizedGroup: GroupId)

  datatype Verdict = Unchecked | Refused(status: nat, code: string) | Admitted(auth: AuthContext)

  /** What a request says about itself, and the bytes its signature covers. */
  datatype Claim = Claim(groupId: GroupId, senderAddress: Address, timestamp: I64, signed: Bytes)

  function Required(m: Verb): Option<Permission> {
    match m
    case GET => Some(MessagingReader)
    case POST => Some(MessagingSender)
    case PUT => Some(MessagingEditor)
    case DELETE => Some(MessagingDeleter)
    case OtherMethod => None
  }

  /** A 64-bit integer with an optional sign of either kind. */
  function ParseI64(s: string): Option<I64> {
    var unsigned := if |s| > 1 && s[0] == '+' && s[1] != '-' then s[1..] else s;
    var n := ParseDecimal(unsigned);
    if n.Some? && IsI64(n.value) then Some(n.value) else None
  }

  function HeaderCanonical(timestamp: int, senderAddress: Address, groupId: GroupId): string {
    Joined(Decimal(timestamp), Joined(senderAddress, groupId))
  }

  function ReadClaim(c: Crypto, req: HttpRequest): Result<Claim, Verdict> {
    match req.body
    case Unreadable => Failure(Refused(400, "BODY_READ_ERROR"))
    case Raw(bytes, None) => Failure(Refused(400, "INVALID_BODY"))
    case Raw(bytes, Some(f)) => Success(Claim(f.groupId, f.senderAddress, f.timestamp, bytes))
    case Empty =>
      if req.senderAddress.None? then Failure(Refused(401, "MISSING_SENDER_ADDRESS"))
      else if req.timestamp.None? then Failure(Refused(401, "MISSING_TIMESTAMP"))
      else if req.groupId.None? then Failure(Refused(401, "MISSING_GROUP_ID"))
      else if ParseI64(req.timestamp.value).None? then Failure(Refused(400, "INVALID_TIMESTAMP"))
      else
        var timestamp := ParseI64(req.timestamp.value).value;
        var canonical := HeaderCanonical(timestamp, req.senderAddress.value, req.groupId.value);
        Success(Claim(req.groupId.value, req.senderAddress.value, timestamp, c.utf8(canonical)))
  }

  /** The flag byte names the scheme, and the rest must have the scheme's length. */
  function DecodeKey(text: string): Option<(Scheme, Bytes)> {
    match HexDecode(text)
    case None => None
    case Some(bytes) =>
      if bytes == [] || FromFlag(bytes[0]).None? || |bytes[1..]| != KeyLength(FromFlag(bytes[0]).value) then None
      else Some((FromFlag(bytes[0]).value, bytes[1..]))
  }

  function AuthMiddleware(c: Crypto, req: HttpRequest, members: Members, now: I64, ttl: I64): Verdict {
    if Required(req.verb).None? then Unchecked
    else if req.signature.None? then Refused(401, "MISSING_SIGNATURE")
    else if req.publicKey.None? then Refused(401, "MISSING_PUBLIC_KEY")
    else if DecodeKey(req.publicKey.value).None? then Refused(401, "INVALID_PUBLIC_KEY_FORMAT")
    else if HexDecode(req.signature.value).None? then Refused(401, "INVALID_SIGNATURE_FORMAT")
    else
      var (scheme, publicKey) := DecodeKey(req.publicKey.value).value;
      var signature := HexDecode(req.signature.value).value;
      match ReadClaim(c, req)
      case Failure(refusal) => refusal
      case Success(claim) =>
        if !ValidTimestamp(claim.timestamp, now, ttl) then Refused(401, "REQUEST_EXPIRED")
        else if |signature| != SIGNATURE_LENGTH then Refused(401, "INVALID_SIGNATURE_FORMAT")
        else if !VerifySignature(c, claim.signed, signature, publicKey, scheme) then Refused(401, "SIGNATURE_VERIFICATION_FAILED")
        else if claim.senderAddress != DeriveAddress(c, publicKey, scheme) then Refused(401, "ADDRESS_MISMATCH")
        else if !HasPermission(members, claim.groupId, claim.senderAddress, Required(req.verb).value)
        then Refused(403, "NOT_GROUP_MEMBER")
        else Admitted(AuthContext(claim.senderAddress, publicKey, scheme, claim.groupId))
  }

  // ---------------------------------------------------------------- what admission means

  /** The holder of the context's key signed this request, and its timestamp is timely. */
  ghost predicate Genuine(c: Crypto, req: HttpRequest, auth: AuthContext, now: I64, ttl: I64) {
    && auth.senderAddress == DeriveAddress(c, auth.publicKey, auth.scheme)
    && req.publicKey.Some? && HexDecode(req.publicKey.value) == Some([Flag(auth.scheme)] + auth.publicKey)
    && req.signature.Some? && HexDecode(req.signature.value).Some?
    && exists timestamp: I64, signed ::
      && ReadClaim(c, req) == Success(Claim(auth.authorizedGroup, auth.senderAddress, timestamp, signed))
      && Timely(timestamp, now, ttl)
      && VerifySignature(c, signed, HexDecode(req.signature.value).value, auth.publicKey, auth.scheme)
  }

  /** A decoded key is 32 bytes behind flag 0, or 33 bytes behind flag 1 or 2, and nothing else decodes. */
  lemma KeysHaveTheirLengths(text: string, key: Bytes)
    ensures DecodeKey(text) == Some((Ed25519, key)) <==> HexDecode(text) == Some([0] + key) && |key| == 32
    ensures DecodeKey(text) == Some((Secp256k1, key)) <==> HexDecode(text) == Some([1] + key) && |key| == 33
    ensures DecodeKey(text) == Some((Secp256r1, key)) <==> HexDecode(text) == Some([2] + key) && |key| == 33
  {
    KeyIffFlag(text, key, Ed25519);
    KeyIffFlag(text, key, Secp256k1);
    KeyIffFlag(text, key, Secp256r1);
  }

  lemma KeyIffFlag(text: string, key: Bytes, scheme: Scheme)
    ensures DecodeKey(text) == Some((scheme, key)) <==> HexDecode(text) == Some([Flag(scheme)] + key) && |key| == KeyLength(scheme)
  {
    if DecodeKey(text) == Some((scheme, key)) {
      var bytes := HexDecode(text).value;
      assert bytes == [bytes[0]] + bytes[1..];
    }
  }

  /** An address is 0x and the key's hash under its flag, in lower-case base16. */
  lemma AddressHoldsTheHash(c: Crypto, publicKey: Bytes, scheme: Scheme)
    ensures var address := DeriveAddress(c, publicKey, scheme);
      var flag := match scheme case Ed25519 => 0 case Secp256k1 => 1 case Secp256r1 => 2;
      && address[..2] == "0x" && HexDecode(address[2..]) == Some(c.hash([flag] + publicKey))
      && IsLowerCase(address) && ':' !in address
  {
    var text := HexEncode(c.hash([Flag(scheme)] + publicKey));
    HexRoundTrip(c.hash([Flag(scheme)] + publicKey));
    assert DeriveAddress(c, publicKey, scheme)[2..] == text;
  }

  lemma KeyIff(text: string, scheme: Scheme, key: Bytes)
    requires |key| == KeyLength(scheme)
    ensures DecodeKey(text) == Some((scheme, key)) <==> HexDecode(text) == Some([Flag(scheme)] + key)
  {
  }

  /** A refusal is never for the sender's membership unless everything else was in order. */
  lemma AdmittedOrForbidden(c: Crypto, req: HttpRequest, members: Members, auth: AuthContext, now: I64, ttl: I64)
    requires Required(req.verb).Some?
    ensures Genuine(c, req, auth, now, ttl) ==>
      AuthMiddleware(c, req, members, now, ttl)
      == if HasPermission(members, auth.authorizedGroup, auth.senderAddress, Required(req.verb).value)
         then Admitted(auth) else Refused(403, "NOT_GROUP_MEMBER")
    ensures AuthMiddleware(c, req, members, now, ttl) == Admitted(auth) ==>
      && Genuine(c, req, auth, now, ttl)
      && HasPermission(members, auth.authorizedGroup, auth.senderAddress, Required(req.verb).value)
  {
    if ReadClaim(c, req).Success? { ValidTimestampIff(ReadClaim(c, req).value.timestamp, now, ttl); }
    if Genuine(c, req, auth, now, ttl) {
      KeyIff(req.publicKey.value, auth.scheme, auth.publicKey);
    }
    if AuthMiddleware(c, req, members, now, ttl) == Admitted(auth) {
      KeyIff(req.publicKey.value, auth.scheme, auth.publicKey);
      var claim := ReadClaim(c, req).value;
      assert ReadClaim(c, req) == Success(Claim(auth.authorizedGroup, auth.senderAddress, claim.timestamp, claim.signed));
    }
  }

  /** Granted while a member, with nothing later that takes it away. */
  ghost predicate Holds(history: seq<GroupsEvent>, g: GroupId, a: Address, p: Permission) {
    exists k, i :: GrantStands(history, g, a, p, k) && AddedBy(history, k, g, a, i)
  }

  /**
    Who is admitted, over the whole membership history: exactly the genuine requests whose sender holds
    the reader's permission for a GET, the sender's for a POST, the editor's for a PUT and the deleter's
    for a DELETE.  Other methods are let through unchecked.
   */
  lemma AdmittedIff(c: Crypto, req: HttpRequest, history: seq<GroupsEvent>, auth: AuthContext, now: I64, ttl: I64)
    ensures var verdict := AuthMiddleware(c, req, Replay(history), now, ttl);
      var g, a := auth.authorizedGroup, auth.senderAddress;
      match req.verb
      case GET => verdict == Admitted(auth) <==> Genuine(c, req, auth, now, ttl) && Holds(history, g, a, MessagingReader)
      case POST => verdict == Admitted(auth) <==> Genuine(c, req, auth, now, ttl) && Holds(history, g, a, MessagingSender)
      case PUT => verdict == Admitted(auth) <==> Genuine(c, req, auth, now, ttl) && Holds(history, g, a, MessagingEditor)
      case DELETE => verdict == Admitted(auth) <==> Genuine(c, req, auth, now, ttl) && Holds(history, g, a, MessagingDeleter)
      case OtherMethod => verdict == Unchecked
  {
    if Required(req.verb).Some? {
      AdmittedOrForbidden(c, req, Replay(history), auth, now, ttl);
      PermissionIff(history, auth.authorizedGroup, auth.senderAddress, Required(req.verb).value);
    }
  }

  /**
    The verb enters only through the permission it requires: genuineness does not depend on it, so two
    requests that differ in nothing else get the same answer up to that permission.
   */
  lemma VerbDecidesPermissionOnly(c: Crypto, req: HttpRequest, verb: Verb, members: Members, auth: AuthContext, now: I64, ttl: I64)
    requires Required(req.verb).Some? && Required(verb).Some?
    ensures Genuine(c, req, auth, now, ttl) <==> Genuine(c, req.(verb := verb), auth, now, ttl)
    ensures AuthMiddleware(c, req, members, now, ttl) == Admitted(auth) ==>
      AuthMiddleware(c, req.(verb := verb), members, now, ttl)
      == if HasPermission(members, auth.authorizedGroup, auth.senderAddress, Required(verb).value)
         then Admitted(auth) else Refused(403, "NOT_GROUP_MEMBER")
  {
    var other := req.(verb := verb);
    assert ReadClaim(c, other) == ReadClaim(c, req);
    AdmittedOrForbidden(c, req, members, auth, now, ttl);
    AdmittedOrForbidden(c, other, members, auth, now, ttl);
  }

  /** Derived addresses hold no colon, so the signed header text determines its three parts. */
  lemma HeaderCanonicalInjective(t1: int, a1: Address, g1: GroupId, t2: int, a2: Address, g2: GroupId)
    requires ':' !in a1 && ':' !in a2
    ensures HeaderCanonical(t1, a1, g1) == HeaderCanonical(t2, a2, g2) <==> t1 == t2 && a1 == a2 && g1 == g2
  {
    if HeaderCanonical(t1, a1, g1) == HeaderCanonical(t2, a2, g2) {
      DecimalRoundTrip(t1);
      DecimalRoundTrip(t2);
      SplitAtFirstColon(Decimal(t1), Joined(a1, g1), Decimal(t2), Joined(a2, g2));
      SplitAtFirstColon(a1, g1, a2, g2);
    }
  }

  /** At least one digit, alone for `n`, or behind the sign of `n`. */
  ghost predicate Reads(digits: string, s: string, n: int) {
    && digits != "" && ParseDigits(digits) == Some(Abs(n))
    && (if n < 0 then s == "-" + digits else s == digits || s == "+" + digits || (n == 0 && s == "-" + digits))
  }

  lemma WhatReadsParses(digits: string, s: string, n: int)
    requires IsI64(n) && Reads(digits, s, n)
    ensures ParseI64(s) == Some(n)
  {
    DigitsOnly(digits);
    assert digits[0] in digits;
    assert s != digits ==> s[1..] == digits;
  }

  lemma WhatParsesReads(s: string, n: int) returns (digits: string)
    requires ParseI64(s) == Some(n)
    ensures Reads(digits, s, n)
  {
    DigitsOnly(s);
    assert s != "" ==> s[0] in s;
    if s[0] == '-' || (|s| > 1 && s[0] == '+') {
      digits := s[1..];
      assert s == [s[0]] + digits;
    } else {
      digits := s;
    }
  }

  /** A timestamp header is an optional sign and at least one digit, and fits 64 bits. */
  lemma TimestampTexts(s: string, n: int)
    ensures ParseI64(s) == Some(n) <==> IsI64(n) && exists digits :: Reads(digits, s, n)
  {
    if ParseI64(s) == Some(n) {
      var digits := WhatParsesReads(s, n);
    }
    if IsI64(n) {
      forall digits | Reads(digits, s, n) { WhatReadsParses(digits, s, n); }
    }
  }

  // ---------------------------------------------------------------- what a refusal means

  /** The signature header holds base16 of the fixed length. */
  ghost predicate SignatureHeld(req: HttpRequest, signature: Bytes) {
    req.signature.Some? && HexDecode(req.signature.value) == Some(signature) && |signature| == 64
  }

  /** Something the request should carry is missing or malformed. */
  ghost predicate FaultInForm(req: HttpRequest, status: nat, code: string) {
    || (status == 401 && code == "MISSING_SIGNATURE" && req.signature.None?)
    || (status == 401 && code == "MISSING_PUBLIC_KEY" && req.publicKey.None?)
    || (status == 401 && code == "INVALID_PUBLIC_KEY_FORMAT" && req.publicKey.Some? && DecodeKey(req.publicKey.value).None?)
    || (status == 401 && code == "INVALID_SIGNATURE_FORMAT" && req.signature.Some? && forall b :: !SignatureHeld(req, b))
    || (status == 400 && code == "BODY_READ_ERROR" && req.body.Unreadable?)
    || (status == 400 && code == "INVALID_BODY" && req.body.Raw? && req.body.fields.None?)
    || (status == 401 && code == "MISSING_SENDER_ADDRESS" && req.body.Empty? && req.senderAddress.None?)
    || (status == 401 && code == "MISSING_TIMESTAMP" && req.body.Empty? && req.timestamp.None?)
    || (status == 401 && code == "MISSING_GROUP_ID" && req.body.Empty? && req.groupId.None?)
    || (status == 400 && code == "INVALID_TIMESTAMP" && req.body.Empty? && req.timestamp.Some? && ParseI64(req.timestamp.value).None?)
  }

  /** What the request claims does not hold. */
  ghost predicate FaultInClaim(c: Crypto, req: HttpRequest, claim: Claim, key: Bytes, scheme: Scheme, now: I64, ttl: I64, code: string) {
    || (code == "REQUEST_EXPIRED" && !Timely(claim.timestamp, now, ttl))
    || (code == "SIGNATURE_VERIFICATION_FAILED"
        && exists signature :: SignatureHeld(req, signature) && !c.accepts(claim.signed, signature, key, scheme))
    || (code == "ADDRESS_MISMATCH" && claim.senderAddress != DeriveAddress(c, key, scheme))
  }

  /**
    A request that is checked and not admitted is refused for a fault it has: in its form, in what it
    claims, or, when it is genuine, for a permission its sender lacks.
   */
  lemma RefusalsNameTheFault(c: Crypto, req: HttpRequest, members: Members, now: I64, ttl: I64)
    requires Required(req.verb).Some? && !AuthMiddleware(c, req, members, now, ttl).Admitted?
    ensures var verdict := AuthMiddleware(c, req, members, now, ttl);
      && verdict.Refused?
      && (|| FaultInForm(req, verdict.status, verdict.code)
          || (verdict.status == 401 && ReadClaim(c, req).Success? && req.publicKey.Some?
              && exists key, scheme :: DecodeKey(req.publicKey.value) == Some((scheme, key))
                   && FaultInClaim(c, req, ReadClaim(c, req).value, key, scheme, now, ttl, verdict.code))
          || (verdict == Refused(403, "NOT_GROUP_MEMBER")
              && exists auth :: Genuine(c, req, auth, now, ttl)
                   && !HasPermission(members, auth.authorizedGroup, auth.senderAddress, Required(req.verb).value)))
  {
    var verdict := AuthMiddleware(c, req, members, now, ttl);
    if !FaultInForm(req, verdict.status, verdict.code) {
      var (scheme, key) := DecodeKey(req.publicKey.value).value;
      var claim := ReadClaim(c, req).value;
      ValidTimestampIff(claim.timestamp, now, ttl);
      KeyIffFlag(req.publicKey.value, key, scheme);
      var signature := HexDecode(req.signature.value).value;
      if verdict.status == 401 {
        assert SignatureHeld(req, signature) || verdict.code == "REQUEST_EXPIRED";
        assert FaultInClaim(c, req, claim, key, scheme, now, ttl, verdict.code);
      } else {
        var auth := AuthContext(claim.senderAddress, key, scheme, claim.groupId);
        assert ReadClaim(c, req) == Success(Claim(auth.authorizedGroup, auth.senderAddress, claim.timestamp, claim.signed));
        assert Genuine(c, req, auth, now, ttl);
      }
    }
  }
}
