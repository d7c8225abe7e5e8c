/**
  The SDK signs GET and DELETE headers once and reuses them from a cache
  (ts-sdks/packages/sui-stack-messaging/src/relayer/http-transport.ts:219-275); the relayer accepts a
  timestamp within its window (relayer/src/auth/signature.rs:20-34).  Both sides floor to seconds, and
  the timestamp is taken before signing while the age is counted from after it.  Times are in
  milliseconds unless named otherwise.
 */
module HeaderAuth {
  import opened Authentication
  import opened Encoding
  import opened Handlers
  import opened Membership
  import opened Messages
  import opened Wrappers

  const HEADROOM_FIXED := 60_000.0
  const HEADROOM_RATIO := 0.1

  function Headroom(serverTtl: real): real {
    if HEADROOM_FIXED <= serverTtl * HEADROOM_RATIO then HEADROOM_FIXED else serverTtl * HEADROOM_RATIO
  }

  function CacheTtl(serverTtl: real): real {
    if serverTtl - Headroom(serverTtl) <= 0.0 then 0.0 else serverTtl - Headroom(serverTtl)
  }

  function Seconds(ms: int): int {
    ms / 1000
  }

  /** The relayer's check, `behind` milliseconds of its own clock after the client read `taken` off its clock. */
  predicate Accepted(taken: int, behind: int, ttlSeconds: int) {
    Timely(Seconds(taken), Seconds(taken + behind), ttlSeconds)
  }

  /** At whatever moment the timestamp was taken. */
  ghost predicate AlwaysAccepted(behind: int, ttlSeconds: int) {
    forall taken :: Accepted(taken, behind, ttlSeconds)
  }

  /** Far beyond any two clocks, and far from where 64-bit seconds wrap around. */
  const CLOCK_RANGE := 0x4000_0000_0000_0000

  lemma WithinIsAccepted(behind: int, ttlSeconds: nat)
    requires -1000 * ttlSeconds <= behind <= 1000 * ttlSeconds
    ensures AlwaysAccepted(behind, ttlSeconds)
  {
  }

  /** Whatever the two floors do, an elapsed time is always accepted exactly when it is within the window. */
  lemma AlwaysAcceptedIff(behind: int, ttlSeconds: nat)
    requires Abs(behind) <= 1000 * CLOCK_RANGE
    ensures AlwaysAccepted(behind, ttlSeconds) <==> -1000 * ttlSeconds <= behind <= 1000 * ttlSeconds
  {
    if -1000 * ttlSeconds <= behind <= 1000 * ttlSeconds { WithinIsAccepted(behind, ttlSeconds); }
    assert behind > 1000 * ttlSeconds ==> !Accepted(999, behind, ttlSeconds);
    assert behind < -1000 * ttlSeconds ==> !Accepted(0, behind, ttlSeconds);
  }

  /** The cache hands out a header of this age; `lifetime` is what the client is told of the relayer's window. */
  predicate Fresh(age: int, lifetime: real) {
    0 <= age && age as real < CacheTtl(lifetime)
  }

  /** Every header the cache can hand out is accepted when signing, transit and skew add `extra`. */
  ghost predicate CacheIsSafe(extra: int, lifetime: real, ttlSeconds: nat) {
    forall age | Fresh(age, lifetime) :: AlwaysAccepted(age + extra, ttlSeconds)
  }

  /** A tenth short of the lifetime, or a minute short of a long one; without a positive lifetime nothing is reused. */
  lemma CacheTtlIs(lifetime: real)
    ensures lifetime > 0.0 ==> CacheTtl(lifetime) == if lifetime < 600_000.0 then 0.9 * lifetime else lifetime - 60_000.0
    ensures lifetime <= 0.0 ==> forall age :: !Fresh(age, lifetime)
  {
  }

  /**
    How much the headroom buys, exactly, whatever lifetime the client is configured with and whatever
    window the relayer keeps: with `extra` for signing, transit and clock skew together, every header
    the cache can hand out is accepted if and only if the oldest one is, and none comes from too far
    in the future.
   */
  lemma HeadroomIsExact(extra: int, lifetime: real, ttlSeconds: nat)
    requires lifetime > 0.0 && Abs(extra) <= 1000 * CLOCK_RANGE && ttlSeconds < CLOCK_RANGE
    ensures CacheIsSafe(extra, lifetime, ttlSeconds)
       <==> -1000 * ttlSeconds <= extra
            && (if lifetime < 600_000.0 then 0.9 * lifetime else lifetime - 60_000.0) <= (1000 * ttlSeconds - extra + 1) as real
  {
    CacheTtlIs(lifetime);
    var window := 1000 * ttlSeconds;
    AlwaysAcceptedIff(0 + extra, ttlSeconds);
    AlwaysAcceptedIff(window + 1, ttlSeconds);
    assert Fresh(0, lifetime);
    if -window <= extra <= window && CacheTtl(lifetime) > (window - extra + 1) as real {
      assert Fresh(window - extra + 1, lifetime);
    }
    if -window <= extra && CacheTtl(lifetime) <= (window - extra + 1) as real {
      forall age | Fresh(age, lifetime) ensures AlwaysAccepted(age + extra, ttlSeconds) {
        WithinIsAccepted(age + extra, ttlSeconds);
      }
    }
  }

  /** A tenth of the window, and at most a minute. */
  function Slack(ttlSeconds: nat): nat {
    if ttlSeconds < 600 then 100 * ttlSeconds else 60_000
  }

  /** When the lifetime is the window, as it should be: one millisecond over the headroom is still accepted, two are not. */
  lemma MatchingHeadroom(extra: int, ttlSeconds: nat)
    requires 0 < ttlSeconds < CLOCK_RANGE && Abs(extra) <= 1000 * CLOCK_RANGE
    ensures CacheIsSafe(extra, 1000.0 * ttlSeconds as real, ttlSeconds)
       <==> -1000 * ttlSeconds <= extra <= Slack(ttlSeconds) + 1
  {
    HeadroomIsExact(extra, 1000.0 * ttlSeconds as real, ttlSeconds);
    NineTenths(ttlSeconds);
  }

  lemma NineTenths(ttlSeconds: nat)
    requires ttlSeconds > 0
    ensures var lifetime := 1000.0 * ttlSeconds as real;
      (if lifetime < 600_000.0 then 0.9 * lifetime else lifetime - 60_000.0) == (1000 * ttlSeconds - Slack(ttlSeconds)) as real
  {
  }

  // ---------------------------------------------------------------- the cache

  datatype AuthHeaders = AuthHeaders(senderAddress: Address, groupId: GroupId, timestamp: int)

  datatype Entry = Entry(headers: AuthHeaders, createdAt: int)

  /** Signing began when the client's clock read `taken`, and took at most `signing`. */
  ghost predicate SignedFrom(e: Entry, taken: int, signing: int) {
    e.headers.timestamp == Seconds(taken) && taken <= e.createdAt <= taken + signing
  }

  predicate WithinBudget(transit: nat, skew: int, budget: int) {
    transit + Abs(skew) <= budget
  }

  /** However long transit takes and however the clocks differ within the budget, the relayer accepts the header. */
  ghost predicate GoodFor(h: AuthHeaders, now: int, budget: int, ttlSeconds: nat) {
    forall transit, skew | WithinBudget(transit, skew, budget) ::
      Timely(h.timestamp, Seconds(now + transit + skew), ttlSeconds)
  }

  /** What the window leaves beyond the cache's own lifetime. */
  function Budget(lifetime: real, ttlSeconds: nat): int {
    ((1000 * ttlSeconds) as real - CacheTtl(lifetime)).Floor
  }

  /** How far the client's clock stands behind the time the entry was made. */
  function SteppedBack(createdAt: int, now: int): nat {
    if now < createdAt then createdAt - now else 0
  }

  class HeaderAuthCache {
    const lifetime: real
    const ttl: real
    var entries: map<string, Entry>

    ghost predicate Valid(signing: int)
      reads this
    {
      && ttl == CacheTtl(lifetime) && signing >= 0
      && forall key | key in entries ::
           && key == Joined(entries[key].headers.senderAddress, entries[key].headers.groupId)
           && ':' !in entries[key].headers.senderAddress
           && exists taken :: SignedFrom(entries[key], taken, signing)
    }

    constructor (lifetime: real)
      ensures this.lifetime == lifetime && entries == map[]
      ensures forall signing: nat :: Valid(signing)
    {
      this.lifetime := lifetime;
      this.ttl := CacheTtl(lifetime);
      this.entries := map[];
    }

    /**
      A header from the cache is the caller's own, for the group asked about, and acceptable to a relayer
      with the given window while signing, transit, skew and any backward step of the client's clock
      stay together within the budget.
     */
    method Lookup(senderAddress: Address, groupId: GroupId, now: int, ghost signing: int, ghost ttlSeconds: nat)
      returns (r: Option<AuthHeaders>)
      requires Valid(signing) && ':' !in senderAddress
      ensures r.Some? ==>
        && Joined(senderAddress, groupId) in entries
        && r.value.senderAddress == senderAddress && r.value.groupId == groupId
        && GoodFor(r.value, now,
                   Budget(lifetime, ttlSeconds) - signing - SteppedBack(entries[Joined(senderAddress, groupId)].createdAt, now),
                   ttlSeconds)
      ensures r.None? <==>
        (var key := Joined(senderAddress, groupId); key in entries ==> !((now - entries[key].createdAt) as real < ttl))
    {
      var cacheKey := Joined(senderAddress, groupId);
      r := None;
      if cacheKey in entries {
        var cached := entries[cacheKey];
        if (now - cached.createdAt) as real < ttl {
          SplitAtFirstColon(senderAddress, groupId, cached.headers.senderAddress, cached.headers.groupId);
          CachedIsGood(cached, now, signing, lifetime, ttlSeconds);
          r := Some(cached.headers);
        }
      }
    }

    /** After signing: `taken` was read before, `createdAt` after. */
    method Remember(senderAddress: Address, groupId: GroupId, taken: int, createdAt: int, ghost signing: int, ghost ttlSeconds: nat)
      returns (headers: AuthHeaders)
      requires Valid(signing) && ':' !in senderAddress && taken <= createdAt <= taken + signing
      modifies this`entries
      ensures Valid(signing) && headers == AuthHeaders(senderAddress, groupId, Seconds(taken))
      ensures entries == old(entries)[Joined(senderAddress, groupId) := Entry(headers, createdAt)]
      ensures GoodFor(headers, createdAt, 1000 * ttlSeconds - signing, ttlSeconds)
    {
      headers := AuthHeaders(senderAddress, groupId, Seconds(taken));
      var e := Entry(headers, createdAt);
      assert SignedFrom(e, taken, signing);
      ElapsedIsGood(e, taken, createdAt, 0, signing, 1000 * ttlSeconds, ttlSeconds);
      entries := entries[Joined(senderAddress, groupId) := e];
    }

    method Disconnect()
      modifies this`entries
      ensures entries == map[] && forall signing: nat :: old(Valid(signing)) ==> Valid(signing)
    {
      entries := map[];
    }
  }

  /** A header read `age` after it was made, or before, stays within the window for what is left of it. */
  lemma ElapsedIsGood(e: Entry, taken: int, now: int, age: nat, signing: int, window: int, ttlSeconds: nat)
    requires SignedFrom(e, taken, signing) && now - e.createdAt <= age && age + window <= 1000 * ttlSeconds
    ensures GoodFor(e.headers, now, window - signing - SteppedBack(e.createdAt, now), ttlSeconds)
  {
    var budget := window - signing - SteppedBack(e.createdAt, now);
    forall transit: nat, skew | WithinBudget(transit, skew, budget)
      ensures Timely(e.headers.timestamp, Seconds(now + transit + skew), ttlSeconds)
    {
      var behind := now + transit + skew - taken;
      WithinIsAccepted(behind, ttlSeconds);
      assert Accepted(taken, behind, ttlSeconds);
    }
  }

  lemma CachedIsGood(e: Entry, now: int, signing: int, lifetime: real, ttlSeconds: nat)
    requires (now - e.createdAt) as real < CacheTtl(lifetime) && exists taken :: SignedFrom(e, taken, signing)
    ensures GoodFor(e.headers, now, Budget(lifetime, ttlSeconds) - signing - SteppedBack(e.createdAt, now), ttlSeconds)
  {
    var taken :| SignedFrom(e, taken, signing);
    var age := if now < e.createdAt then 0 else now - e.createdAt;
    ElapsedIsGood(e, taken, now, age, signing, Budget(lifetime, ttlSeconds), ttlSeconds);
  }

  // ---------------------------------------------------------------- admission

  /** The bodyless request the SDK builds and signs for a group. */
  function SdkHeaderRequest(c: Crypto, k: KeyPair, verb: Verb, groupId: GroupId, timestamp: int): HttpRequest {
    var address := DeriveAddress(c, k.publicKey, k.scheme);
    var canonical := Decimal(timestamp) + ":" + address + ":" + groupId;
    HttpRequest(
      verb, Some(HexEncode(k.sign(c.utf8(canonical)))), Some(HexEncode([Flag(k.scheme)] + k.publicKey)),
      Some(address), Some(Decimal(timestamp)), Some(groupId), Empty)
  }

  lemma TimestampsParse(timestamp: int)
    requires IsI64(timestamp)
    ensures ParseI64(Decimal(timestamp)) == Some(timestamp)
  {
    DecimalRoundTrip(timestamp);
    DigitsRoundTrip(Abs(timestamp));
    assert Digits(Abs(timestamp))[0] in Digits(Abs(timestamp));
    assert Decimal(timestamp)[0] != '+';
  }

  /** Within the window, the middleware's answer to the SDK's headers is decided by the permission alone. */
  lemma SdkHeadersAreGenuine(c: Crypto, k: KeyPair, verb: Verb, groupId: GroupId, timestamp: I64, members: Members, now: I64, ttl: I64)
    requires Correct(c, k) && Required(verb).Some? && Timely(timestamp, now, ttl)
    ensures var address := DeriveAddress(c, k.publicKey, k.scheme);
      AuthMiddleware(c, SdkHeaderRequest(c, k, verb, groupId, timestamp), members, now, ttl)
      == if HasPermission(members, groupId, address, Required(verb).value)
         then Admitted(AuthContext(address, k.publicKey, k.scheme, groupId)) else Refused(403, "NOT_GROUP_MEMBER")
  {
    var address := DeriveAddress(c, k.publicKey, k.scheme);
    var req := SdkHeaderRequest(c, k, verb, groupId, timestamp);
    var auth := AuthContext(address, k.publicKey, k.scheme, groupId);
    var signed := c.utf8(HeaderCanonical(timestamp, address, groupId));
    assert HeaderCanonical(timestamp, address, groupId) == Decimal(timestamp) + ":" + address + ":" + groupId;
    TimestampsParse(timestamp);
    HexRoundTrip(k.sign(signed));
    HexRoundTrip([Flag(k.scheme)] + k.publicKey);
    assert ReadClaim(c, req) == Success(Claim(groupId, address, timestamp, signed));
    assert VerifySignature(c, signed, k.sign(signed), k.publicKey, k.scheme);
    assert Genuine(c, req, auth, now, ttl);
    AdmittedOrForbidden(c, req, members, auth, now, ttl);
  }

  /** Whatever the cache hands out is admitted, if the permission is held, throughout the remaining headroom. */
  lemma CachedHeadersAreAdmitted(c: Crypto, k: KeyPair, verb: Verb, h: AuthHeaders, now: int, budget: int, ttlSeconds: nat,
                                 transit: nat, skew: int, members: Members)
    requires Correct(c, k) && Required(verb).Some? && h.senderAddress == DeriveAddress(c, k.publicKey, k.scheme)
    requires GoodFor(h, now, budget, ttlSeconds) && WithinBudget(transit, skew, budget)
    requires IsI64(h.timestamp) && IsI64(ttlSeconds) && IsI64(Seconds(now + transit + skew))
    requires HasPermission(members, h.groupId, h.senderAddress, Required(verb).value)
    ensures AuthMiddleware(c, SdkHeaderRequest(c, k, verb, h.groupId, h.timestamp), members, Seconds(now + transit + skew), ttlSeconds)
         == Admitted(AuthContext(h.senderAddress, k.publicKey, k.scheme, h.groupId))
  {
    SdkHeadersAreGenuine(c, k, verb, h.groupId, h.timestamp, members, Seconds(now + transit + skew), ttlSeconds);
  }
}
