/**
  The whole relayer as clients meet it: a request is admitted by the middleware, the handler reads the
  message and checks its owner, and only then writes, each under its own lock.  Other requests, the
  sync worker and the membership replica may move between any two of these
  (relayer/src/auth/middleware.rs, relayer/src/handlers/messages/handlers.rs).
 */
module FrontDoor {
  import opened Authentication
  import opened Encoding
  import opened Handlers
  import opened Membership
  import opened Messages
  import opened Relayer
  import opened Storage
  import opened Views
  import opened Wrappers

  /** What the body or path asks for; a created message's id is a fresh UUID. */
  datatype Call =
    | Post(id: MessageId, request: WriteRequest)
    | Put(id: MessageId, request: WriteRequest)
    | Remove(id: MessageId)

  datatype Phase =
    | Waiting(auth: AuthContext, call: Call)  // admitted, nothing read yet
    | Allowed(auth: AuthContext, call: Call)  // the message was read and its owner checked

  datatype Service = Service(system: System, members: Members, requests: map<nat, Phase>)

  datatype Event =
    | Admit(token: nat, req: HttpRequest, call: Call, now: I64)
    | Check(token: nat)
    | Write(token: nat, at: int)  // an update, a deletion, or the first half of a create
    | Finish(token: nat)           // the second half of a create
    | Sync(action: Action)
    | Replicate(event: GroupsEvent)

  function Start(batchSize: nat): Service {
    Service(Init(batchSize), map[], map[])
  }

  /** Middleware and handler parse the same body; a create and an update have one. */
  predicate Fits(req: HttpRequest, call: Call) {
    match call
    case Post(_, r) => req.verb == POST && BodyAgrees(req, r)
    case Put(_, r) => req.verb == PUT && BodyAgrees(req, r)
    case Remove(_) => req.verb == DELETE
  }

  predicate BodyAgrees(req: HttpRequest, r: WriteRequest) {
    && req.body.Raw? && req.body.fields.Some?
    && req.body.fields.value.groupId == r.groupId && req.body.fields.value.senderAddress == r.senderAddress
    && IsI64(r.keyVersion)
  }

  predicate IsSync(a: Action) {
    a.Fetch? || a.Upload? || a.UploadFails? || a.Mark?
  }

  /** The write a request makes on the store, if it makes one. */
  function WriteOf(c: Crypto, phase: Phase, token: nat, now: int): Option<Action> {
    match phase
    case Waiting(auth, Post(id, r)) =>
      (match DecodeContent(c, auth, r)
       case Success(content) => Some(Reserve(token, NewMessage(id, r.groupId, r.senderAddress, content, now)))
       case Failure(_) => None)
    case Allowed(auth, Put(id, r)) =>
      (match DecodeContent(c, auth, r)
       case Success(content) => Some(Update(id, content, now))
       case Failure(_) => None)
    case Allowed(_, Remove(id)) => Some(Delete(id, now))
    case _ => None
  }

  function ActionOf(c: Crypto, s: Service, e: Event): Option<Action> {
    match e
    case Write(token, now) => if token in s.requests then WriteOf(c, s.requests[token], token, now) else None
    case Finish(token) => Some(Insert(token))
    case Sync(action) => Some(action)
    case _ => None
  }

  ghost predicate CanHappen(c: Crypto, ttl: I64, s: Service, e: Event) {
    match e
    case Admit(token, req, call, now) =>
      && token !in s.requests && token !in s.system.inFlight
      && AuthMiddleware(c, req, s.members, now, ttl).Admitted? && Fits(req, call)
    case Check(token) => token in s.requests && s.requests[token].Waiting? && !s.requests[token].call.Post?
    case Write(token, _) => token in s.requests && (s.requests[token].Allowed? || s.requests[token].call.Post?)
    case Finish(token) => token in s.system.inFlight
    case Sync(action) => IsSync(action) && Enabled(s.system, action)
    case Replicate(_) => true
  }

  function RequestsAfter(c: Crypto, ttl: I64, s: Service, e: Event): map<nat, Phase> {
    match e
    case Admit(token, req, call, now) =>
      var verdict := AuthMiddleware(c, req, s.members, now, ttl);
      if verdict.Admitted? then s.requests[token := Waiting(verdict.auth, call)] else s.requests
    case Check(token) =>
      if token !in s.requests || s.requests[token].call.Post? then s.requests
      else
        var auth, call := s.requests[token].auth, s.requests[token].call;
        if CheckOwner(auth, s.system.store.messages, call.id).Success? then s.requests[token := Allowed(auth, call)]
        else s.requests - {token}
    case Write(token, _) => s.requests - {token}
    case _ => s.requests
  }

  function After(c: Crypto, ttl: I64, s: Service, e: Event): Service {
    var action := ActionOf(c, s, e);
    Service(
      if action.Some? then Apply(s.system, action.value) else s.system,
      if e.Replicate? then ApplyEvent(s.members, e.event) else s.members,
      RequestsAfter(c, ttl, s, e))
  }

  ghost predicate Happens(c: Crypto, ttl: I64, s: Service, e: Event, s': Service) {
    CanHappen(c, ttl, s, e) && s' == After(c, ttl, s, e)
  }

  ghost predicate IsServiceRun(c: Crypto, ttl: I64, states: seq<Service>, events: seq<Event>) {
    && |states| == |events| + 1
    && states[0] == Start(states[0].system.batchSize)
    && forall i | 0 <= i < |events| :: Happens(c, ttl, states[i], events[i], states[i + 1])
  }

  // ---------------------------------------------------------------- refinement of the store machine

  ghost predicate RequestOk(c: Crypto, phase: Phase, ms: map<MessageId, Message>) {
    && Derived(c, phase.auth)
    && (phase.call.Post? ==> phase.call.request.senderAddress == phase.auth.senderAddress)
    && (!phase.call.Remove? ==> phase.call.request.groupId == phase.auth.authorizedGroup)
    && (phase.Allowed? ==> !phase.call.Post? && CheckOwner(phase.auth, ms, phase.call.id).Success?)
  }

  ghost predicate ServiceInv(c: Crypto, s: Service) {
    && SystemInv(s.system)
    && forall t | t in s.requests :: t !in s.system.inFlight && RequestOk(c, s.requests[t], s.system.store.messages)
  }

  /** Every event is one step of the store machine, or leaves it alone. */
  lemma EventIsStoreStep(c: Crypto, ttl: I64, s: Service, e: Event)
    requires CanHappen(c, ttl, s, e) && ServiceInv(c, s)
    ensures var action := ActionOf(c, s, e);
      if action.Some? then Step(s.system, action.value, After(c, ttl, s, e).system)
      else After(c, ttl, s, e).system == s.system
  {
  }

  /** Ownership, once checked, stays true: nothing in between can change who a message belongs to. */
  lemma OwnershipIsStable(auth: AuthContext, ms: map<MessageId, Message>, ms': map<MessageId, Message>, id: MessageId)
    requires CheckOwner(auth, ms, id).Success? && Retains(ms, ms')
    ensures CheckOwner(auth, ms', id).Success?
  {
  }

  lemma AdmittedRequestOk(c: Crypto, ttl: I64, s: Service, e: Event, ms: map<MessageId, Message>)
    requires CanHappen(c, ttl, s, e) && e.Admit?
    ensures RequestOk(c, Waiting(AuthMiddleware(c, e.req, s.members, e.now, ttl).auth, e.call), ms)
  {
  }

  lemma EventKeepsInv(c: Crypto, ttl: I64, s: Service, e: Event, s': Service)
    requires ServiceInv(c, s) && Happens(c, ttl, s, e, s')
    ensures ServiceInv(c, s') && Retains(s.system.store.messages, s'.system.store.messages)
  {
    EventIsStoreStep(c, ttl, s, e);
    var action := ActionOf(c, s, e);
    if action.Some? { StepKeepsInv(s.system, action.value, s'.system); }
    if e.Admit? { AdmittedRequestOk(c, ttl, s, e, s.system.store.messages); }
    var ms, ms' := s.system.store.messages, s'.system.store.messages;
    assert Retains(ms, ms');
    forall t | t in s'.requests ensures t !in s'.system.inFlight && RequestOk(c, s'.requests[t], ms') {
      RequestSurvives(c, ttl, s, e, t);
    }
  }

  lemma RequestSurvives(c: Crypto, ttl: I64, s: Service, e: Event, t: nat)
    requires CanHappen(c, ttl, s, e)
    requires t in s.requests ==> t !in s.system.inFlight && RequestOk(c, s.requests[t], s.system.store.messages)
    requires t in After(c, ttl, s, e).requests
    requires Retains(s.system.store.messages, After(c, ttl, s, e).system.store.messages)
    ensures var s' := After(c, ttl, s, e);
      t !in s'.system.inFlight && RequestOk(c, s'.requests[t], s'.system.store.messages)
  {
    var s' := After(c, ttl, s, e);
    if t !in s.requests {
      AdmittedRequestOk(c, ttl, s, e, s'.system.store.messages);
    } else if s'.requests[t].Allowed? {
      OwnershipIsStable(s'.requests[t].auth, s.system.store.messages, s'.system.store.messages, s'.requests[t].call.id);
    }
  }

  lemma {:induction false} ServiceRunKeepsInv(c: Crypto, ttl: I64, states: seq<Service>, events: seq<Event>, n: nat)
    requires IsServiceRun(c, ttl, states, events) && n < |states|
    ensures ServiceInv(c, states[n])
  {
    if n == 0 {
    } else {
      ServiceRunKeepsInv(c, ttl, states, events, n - 1);
      assert Happens(c, ttl, states[n - 1], events[n - 1], states[n]);
      EventKeepsInv(c, ttl, states[n - 1], events[n - 1], states[n]);
    }
  }

  lemma StoreStepAt(c: Crypto, ttl: I64, states: seq<Service>, events: seq<Event>, n: nat) returns (action: Option<Action>)
    requires IsServiceRun(c, ttl, states, events) && n < |events|
    ensures action == ActionOf(c, states[n], events[n])
    ensures if action.Some? then Step(states[n].system, action.value, states[n + 1].system)
            else states[n + 1].system == states[n].system
  {
    assert Happens(c, ttl, states[n], events[n], states[n + 1]);
    ServiceRunKeepsInv(c, ttl, states, events, n);
    EventIsStoreStep(c, ttl, states[n], events[n]);
    action := ActionOf(c, states[n], events[n]);
  }

  /** `acts` leads from an empty relayer to `s` in at most `n` steps. */
  ghost predicate LeadsTo(systems: seq<System>, acts: seq<Action>, s: System, n: nat) {
    IsRun(systems, acts) && |acts| <= n && systems[|acts|] == s
  }

  lemma LeadsFurther(systems: seq<System>, acts: seq<Action>, s: System, n: nat, a: Action, s': System)
    requires LeadsTo(systems, acts, s, n) && Step(s, a, s')
    ensures LeadsTo(systems + [s'], acts + [a], s', n + 1)
  {
  }

  /** A run of the service is a run of the store machine, so everything proved of those holds here. */
  lemma {:induction false} ServiceRefinesStore(c: Crypto, ttl: I64, states: seq<Service>, events: seq<Event>, n: nat)
    returns (systems: seq<System>, acts: seq<Action>)
    requires IsServiceRun(c, ttl, states, events) && n < |states|
    ensures LeadsTo(systems, acts, states[n].system, n)
  {
    if n == 0 {
      systems, acts := [states[0].system], [];
    } else {
      systems, acts := ServiceRefinesStore(c, ttl, states, events, n - 1);
      var action := StoreStepAt(c, ttl, states, events, n - 1);
      if action.Some? {
        LeadsFurther(systems, acts, states[n - 1].system, n - 1, action.value, states[n].system);
        systems, acts := systems + [states[n].system], acts + [action.value];
      }
    }
  }

  // ---------------------------------------------------------------- an undisturbed request

  /** Whoever is genuine and entitled gets in, by the method for what it wants, with a body that says the same to the handler. */
  lemma GenuineRequestsGetIn(c: Crypto, ttl: I64, s: Service, token: nat, req: HttpRequest, call: Call, now: I64, auth: AuthContext)
    requires token !in s.requests && token !in s.system.inFlight && Genuine(c, req, auth, now, ttl)
    requires match call
      case Post(_, _) => req.verb == POST && HasPermission(s.members, auth.authorizedGroup, auth.senderAddress, MessagingSender)
      case Put(_, _) => req.verb == PUT && HasPermission(s.members, auth.authorizedGroup, auth.senderAddress, MessagingEditor)
      case Remove(_) => req.verb == DELETE && HasPermission(s.members, auth.authorizedGroup, auth.senderAddress, MessagingDeleter)
    requires !call.Remove? ==>
      && req.body.Raw? && IsI64(call.request.keyVersion)
      && call.request.groupId == auth.authorizedGroup && call.request.senderAddress == auth.senderAddress
    ensures CanHappen(c, ttl, s, Admit(token, req, call, now)) && AuthMiddleware(c, req, s.members, now, ttl) == Admitted(auth)
  {
    AdmittedOrForbidden(c, req, s.members, auth, now, ttl);
  }

  /** What the handler leaves in the store for its owner's update or deletion, when nothing comes between. */
  ghost function Altered(c: Crypto, auth: AuthContext, store: Store, call: Call, at: int): Store
    requires !call.Post?
  {
    match call
    case Put(id, r) =>
      if DecodeContent(c, auth, r).Success? then Storage.Update(store, id, DecodeContent(c, auth, r).value, at).store else store
    case Remove(id) => Storage.Delete(store, id, at).store
  }

  /**
    Left alone, an admitted update or deletion does what its handler promises: the owner's takes effect,
    anybody else's ends with nothing changed, and nothing of the request stays behind.
   */
  lemma UndisturbedAlteration(c: Crypto, ttl: I64, s: Service, token: nat, req: HttpRequest, call: Call, now: I64, at: int)
    requires CanHappen(c, ttl, s, Admit(token, req, call, now)) && !call.Post?
    ensures var auth := AuthMiddleware(c, req, s.members, now, ttl).auth;
      var s1 := After(c, ttl, s, Admit(token, req, call, now));
      var s2 := After(c, ttl, s1, Check(token));
      && CanHappen(c, ttl, s1, Check(token))
      && if call.id in s.system.store.messages && Owns(auth, s.system.store.messages[call.id])
         then CanHappen(c, ttl, s2, Write(token, at))
              && After(c, ttl, s2, Write(token, at)) == s.(system := s.system.(store := Altered(c, auth, s.system.store, call, at)))
         else s2 == s
  {
    var auth := AuthMiddleware(c, req, s.members, now, ttl).auth;
    var s1 := After(c, ttl, s, Admit(token, req, call, now));
    var s2 := After(c, ttl, s1, Check(token));
    assert s1 == s.(requests := s.requests[token := Waiting(auth, call)]);
    if call.id in s.system.store.messages && Owns(auth, s.system.store.messages[call.id]) {
      assert s2 == s.(requests := s.requests[token := Allowed(auth, call)]);
      assert After(c, ttl, s2, Write(token, at)).requests == s.requests;
    } else {
      assert s2.requests == s.requests;
    }
  }

  /** Likewise an admitted create: what decodes is stored as the store's own create does it. */
  lemma UndisturbedCreate(c: Crypto, ttl: I64, s: Service, token: nat, req: HttpRequest, call: Call, now: I64, at: int)
    requires CanHappen(c, ttl, s, Admit(token, req, call, now)) && call.Post?
    ensures var auth := AuthMiddleware(c, req, s.members, now, ttl).auth;
      var s1 := After(c, ttl, s, Admit(token, req, call, now));
      var s2 := After(c, ttl, s1, Write(token, at));
      var content := DecodeContent(c, auth, call.request);
      && CanHappen(c, ttl, s1, Write(token, at))
      && if content.Success?
         then CanHappen(c, ttl, s2, Finish(token))
              && After(c, ttl, s2, Finish(token))
              == s.(system := s.system.(store := Storage.Create(
                      s.system.store, NewMessage(call.id, call.request.groupId, call.request.senderAddress, content.value, at)).store))
         else s2 == s
  {
    var auth := AuthMiddleware(c, req, s.members, now, ttl).auth;
    var s1 := After(c, ttl, s, Admit(token, req, call, now));
    var s2 := After(c, ttl, s1, Write(token, at));
    assert s1 == s.(requests := s.requests[token := Waiting(auth, call)]);
    assert s2.requests == s.requests;
    if DecodeContent(c, auth, call.request).Success? {
      assert After(c, ttl, s2, Finish(token)).system.inFlight == s.system.inFlight;
    }
  }

  /** The worker is never held up by requests: each of its enabled steps can happen, and is just that step. */
  lemma WorkerIsNotHeldUp(c: Crypto, ttl: I64, s: Service, a: Action)
    requires Enabled(s.system, a) && (a.Fetch? || a.Upload? || a.UploadFails? || a.Mark?)
    ensures CanHappen(c, ttl, s, Sync(a)) && After(c, ttl, s, Sync(a)) == s.(system := Apply(s.system, a))
  {
  }

  /** Nor is the membership replica. */
  lemma ReplicaIsNotHeldUp(c: Crypto, ttl: I64, s: Service, e: GroupsEvent)
    ensures CanHappen(c, ttl, s, Replicate(e)) && After(c, ttl, s, Replicate(e)) == s.(members := ApplyEvent(s.members, e))
  {
  }

  // ---------------------------------------------------------------- who wrote

  function Replicated(events: seq<Event>): seq<GroupsEvent> {
    if events == [] then []
    else
      var front, e := events[..|events| - 1], events[|events| - 1];
      if e.Replicate? then Replicated(front) + [e.event] else Replicated(front)
  }

  /** The permissions consulted are always the replay of the events replicated so far. */
  lemma {:induction false} MembersAreReplayed(c: Crypto, ttl: I64, states: seq<Service>, events: seq<Event>, n: nat)
    requires IsServiceRun(c, ttl, states, events) && n < |states|
    ensures states[n].members == Replay(Replicated(events[..n]))
  {
    if n == 0 {
    } else {
      MembersAreReplayed(c, ttl, states, events, n - 1);
      var e := events[n - 1];
      assert Happens(c, ttl, states[n - 1], e, states[n]);
      assert events[..n][..n - 1] == events[..n - 1];
      var front := Replicated(events[..n - 1]);
      if e.Replicate? {
        assert (front + [e.event])[..|front|] == front;
      }
    }
  }

  /** Event `j` admitted this very call for this caller. */
  ghost predicate AdmittedAt(c: Crypto, ttl: I64, states: seq<Service>, events: seq<Event>, j: nat, token: nat, auth: AuthContext, call: Call)
  {
    && j < |events| && j < |states|
    && events[j].Admit? && events[j].token == token && events[j].call == call && Fits(events[j].req, call)
    && AuthMiddleware(c, events[j].req, states[j].members, events[j].now, ttl) == Admitted(auth)
  }

  /** A request under way was so before, for the same caller and call, or has just been admitted. */
  lemma RequestStep(c: Crypto, ttl: I64, s: Service, e: Event, token: nat)
    requires CanHappen(c, ttl, s, e) && token in After(c, ttl, s, e).requests
    ensures var phase := After(c, ttl, s, e).requests[token];
      if e.Admit? && e.token == token
      then AuthMiddleware(c, e.req, s.members, e.now, ttl) == Admitted(phase.auth) && e.call == phase.call && Fits(e.req, e.call)
      else token in s.requests && s.requests[token].auth == phase.auth && s.requests[token].call == phase.call
  {
  }

  /** Every request under way was admitted at some earlier event. */
  lemma {:induction false} RequestsWereAdmitted(c: Crypto, ttl: I64, states: seq<Service>, events: seq<Event>, n: nat, token: nat)
    returns (j: nat)
    requires IsServiceRun(c, ttl, states, events) && n < |states| && token in states[n].requests
    ensures j < n && AdmittedAt(c, ttl, states, events, j, token, states[n].requests[token].auth, states[n].requests[token].call)
  {
    var e := events[n - 1];
    assert Happens(c, ttl, states[n - 1], e, states[n]);
    RequestStep(c, ttl, states[n - 1], e, token);
    if e.Admit? && e.token == token {
      j := n - 1;
    } else {
      j := RequestsWereAdmitted(c, ttl, states, events, n - 1, token);
    }
  }

  /** The effects only an owner may have: new content, or a new deletion. */
  predicate Alters(m: Message, m': Message) {
    m'.content != m.content || (m'.syncStatus.DeletePending? && !m.syncStatus.DeletePending?)
  }

  lemma MarksDoNotAlter(s: System, now: int, id: MessageId)
    requires s.worker.Marking? && WorkerInv(s.worker, s.store.messages, s.archive) && id in s.store.messages
    ensures id in Apply(s, Mark(now)).store.messages
    ensures !Alters(s.store.messages[id], Apply(s, Mark(now)).store.messages[id])
  {
    assert s.worker.batch[s.worker.next] in s.worker.batch;
  }

  /** Content changes only to what an admitted PUT decodes to, and only an admitted DELETE deletes. */
  ghost predicate EffectOf(c: Crypto, auth: AuthContext, call: Call, m: Message, m': Message) {
    && (m'.content != m.content ==> call.Put? && DecodeContent(c, auth, call.request) == Success(m'.content))
    && (m'.syncStatus.DeletePending? && !m.syncStatus.DeletePending? ==> call.Remove?)
  }

  lemma WriteHasItsEffect(c: Crypto, phase: Phase, token: nat, at: int, s: System, id: MessageId)
    requires KeyedById(s.store.messages) && WriteOf(c, phase, token, at).Some?
    requires WriteOf(c, phase, token, at).value.Update? || WriteOf(c, phase, token, at).value.Delete?
    requires WriteOf(c, phase, token, at).value.id == id && id in s.store.messages
    ensures var a := WriteOf(c, phase, token, at).value;
      && id in Apply(s, a).store.messages && phase.Allowed? && phase.call.id == id
      && EffectOf(c, phase.auth, phase.call, s.store.messages[id], Apply(s, a).store.messages[id])
  {
  }

  lemma OnlyWritesAlter(s: System, a: Action, id: MessageId)
    requires Enabled(s, a) && SystemInv(s)
    requires id in s.store.messages && id in Apply(s, a).store.messages
    requires Alters(s.store.messages[id], Apply(s, a).store.messages[id])
    ensures (a.Update? || a.Delete?) && a.id == id
  {
    if s.worker.Marking? && a.Mark? { MarksDoNotAlter(s, a.now, id); }
  }

  /** The caller held the permission for its verb when it was admitted. */
  ghost predicate Entitled(members: Members, auth: AuthContext, call: Call) {
    HasPermission(members, auth.authorizedGroup, auth.senderAddress,
                  match call case Post(_, _) => MessagingSender case Put(_, _) => MessagingEditor case Remove(_) => MessagingDeleter)
  }

  /**
    Check-then-act is sound: whenever a stored message's content changes or it becomes deleted, the
    writer was authenticated earlier as that message's original sender, for that message's own group,
    and held the permission for that kind of write when it was admitted; new content is what an
    admitted PUT carried, and a deletion comes from an admitted DELETE.
   */
  lemma AlterationsAreByTheSender(c: Crypto, ttl: I64, states: seq<Service>, events: seq<Event>, n: nat, id: MessageId)
    returns (j: nat, auth: AuthContext)
    requires IsServiceRun(c, ttl, states, events) && n < |events| && id in states[n].system.store.messages
    requires id in states[n + 1].system.store.messages
    requires Alters(states[n].system.store.messages[id], states[n + 1].system.store.messages[id])
    ensures events[n].Write? && j < n && events[j].Admit? && events[j].token == events[n].token
    ensures var m := states[n].system.store.messages[id];
      auth.senderAddress == m.sender && auth.authorizedGroup == m.groupId
    ensures AdmittedAt(c, ttl, states, events, j, events[n].token, auth, events[j].call) && events[j].call.id == id
    ensures EffectOf(c, auth, events[j].call, states[n].system.store.messages[id], states[n + 1].system.store.messages[id])
    ensures Genuine(c, events[j].req, auth, events[j].now, ttl)
    ensures Entitled(states[j].members, auth, events[j].call) && !events[j].call.Post?
  {
    var s, e := states[n], events[n];
    assert Happens(c, ttl, s, e, states[n + 1]);
    ServiceRunKeepsInv(c, ttl, states, events, n);
    EventIsStoreStep(c, ttl, s, e);
    OnlyWritesAlter(s.system, ActionOf(c, s, e).value, id);
    var phase := s.requests[e.token];
    WriteHasItsEffect(c, phase, e.token, e.at, s.system, id);
    auth := phase.auth;
    j := RequestsWereAdmitted(c, ttl, states, events, n, e.token);
    AdmittedOrForbidden(c, events[j].req, states[j].members, auth, events[j].now, ttl);
  }

  /** Likewise a new message names as sender and group what its creator was authenticated and entitled for. */
  lemma CreationsAreByTheSender(c: Crypto, ttl: I64, states: seq<Service>, events: seq<Event>, n: nat, token: nat)
    returns (j: nat, auth: AuthContext)
    requires IsServiceRun(c, ttl, states, events) && n < |events|
    requires token !in states[n].system.inFlight && token in states[n + 1].system.inFlight
    ensures var m := states[n + 1].system.inFlight[token];
      auth.senderAddress == m.sender && auth.authorizedGroup == m.groupId
    ensures j < n && events[j].Admit? && AdmittedAt(c, ttl, states, events, j, token, auth, events[j].call)
    ensures Genuine(c, events[j].req, auth, events[j].now, ttl)
    ensures Entitled(states[j].members, auth, events[j].call) && events[j].call.Post?
    ensures var m, call := states[n + 1].system.inFlight[token], events[j].call;
      m.id == call.id && DecodeContent(c, auth, call.request) == Success(m.content)
  {
    var s, e := states[n], events[n];
    assert Happens(c, ttl, s, e, states[n + 1]);
    ServiceRunKeepsInv(c, ttl, states, events, n);
    EventIsStoreStep(c, ttl, s, e);
    auth := s.requests[token].auth;
    j := RequestsWereAdmitted(c, ttl, states, events, n, token);
    AdmittedOrForbidden(c, events[j].req, states[j].members, auth, events[j].now, ttl);
  }

  // ---------------------------------------------------------------- every content is its sender's

  type Claimed = (GroupId, Address, Content) -> bool

  ghost predicate Bears(m: Message, p: Claimed) {
    p(m.groupId, m.sender, m.content)
  }

  /** Stored, about to be stored, being archived, or archived. */
  ghost predicate AllBear(s: System, p: Claimed) {
    && (forall id | id in s.store.messages :: Bears(s.store.messages[id], p))
    && (forall t | t in s.inFlight :: Bears(s.inFlight[t], p))
    && (!s.worker.Idle? ==> forall m | m in s.worker.batch :: Bears(m, p))
    && (forall q {:trigger PatchAt(s.archive, q)} | ValidPatch(s.archive, q) :: Bears(PatchAt(s.archive, q).body, p))
  }

  lemma UploadKeepsBearing(s: System, a: Action, p: Claimed)
    requires AllBear(s, p) && (a.Upload? || a.UploadFails?) && s.worker.Fetched?
    ensures AllBear(Apply(s, a), p)
  {
    var s' := Apply(s, a);
    var patches := PatchesOf(s.worker.batch, s.worker.to, a.skipped);
    PatchesComeFromBatch(s.worker.batch, s.worker.to, a.skipped);
    forall q | ValidPatch(s'.archive, q) ensures Bears(PatchAt(s'.archive, q).body, p) {
      if q.quilt < |s.archive| {
        assert PatchAt(s'.archive, q) == PatchAt(s.archive, q);
      } else {
        assert PatchAt(s'.archive, q) in patches;
        var m :| m in s.worker.batch && PatchAt(s'.archive, q) == PatchOf(m, s.worker.to);
        assert Bears(m, p);
      }
    }
  }

  lemma StepKeepsBearing(s: System, a: Action, p: Claimed)
    requires AllBear(s, p) && Enabled(s, a) && KeyedById(s.store.messages)
    requires a.Reserve? ==> Bears(a.draft, p)
    requires a.Update? && a.id in s.store.messages ==> p(s.store.messages[a.id].groupId, s.store.messages[a.id].sender, a.content)
    ensures AllBear(Apply(s, a), p)
  {
    if a.Upload? || a.UploadFails? { UploadKeepsBearing(s, a, p); }
  }

  /** `p` follows from what the handlers check about requests that satisfy `sent`. */
  ghost predicate Follows(c: Crypto, sent: WriteRequest -> bool, p: Claimed) {
    forall auth, r | Derived(c, auth) && DecodeContent(c, auth, r).Success? && sent(r) ::
      p(r.groupId, auth.senderAddress, DecodeContent(c, auth, r).value)
  }

  ghost predicate AllSent(events: seq<Event>, sent: WriteRequest -> bool) {
    forall i | 0 <= i < |events| :: events[i].Admit? && !events[i].call.Remove? ==> sent(events[i].call.request)
  }

  lemma {:induction false} EveryContentBears(
    c: Crypto, ttl: I64, states: seq<Service>, events: seq<Event>, n: nat, sent: WriteRequest -> bool, p: Claimed)
    requires IsServiceRun(c, ttl, states, events) && n < |states| && Follows(c, sent, p) && AllSent(events, sent)
    ensures AllBear(states[n].system, p)
  {
    if n == 0 {
    } else {
      EveryContentBears(c, ttl, states, events, n - 1, sent, p);
      var action := StoreStepAt(c, ttl, states, events, n - 1);
      if action.Some? {
        ActionBears(c, ttl, states, events, n - 1, sent, p, action.value);
        StepKeepsBearing(states[n - 1].system, action.value, p);
      }
    }
  }

  lemma ActionBears(c: Crypto, ttl: I64, states: seq<Service>, events: seq<Event>, n: nat,
                    sent: WriteRequest -> bool, p: Claimed, a: Action)
    requires IsServiceRun(c, ttl, states, events) && n < |events| && Follows(c, sent, p) && AllSent(events, sent)
    requires ActionOf(c, states[n], events[n]) == Some(a)
    ensures var ms := states[n].system.store.messages;
      && KeyedById(ms) && (a.Reserve? ==> Bears(a.draft, p))
      && (a.Update? && a.id in ms ==> p(ms[a.id].groupId, ms[a.id].sender, a.content))
  {
    ServiceRunKeepsInv(c, ttl, states, events, n);
    assert CanHappen(c, ttl, states[n], events[n]) by { assert Happens(c, ttl, states[n], events[n], states[n + 1]); }
    if events[n].Write? {
      var j := RequestsWereAdmitted(c, ttl, states, events, n, events[n].token);
      WritesBear(c, states[n], events[n], sent, p);
    }
  }

  lemma WritesBear(c: Crypto, s: Service, e: Event, sent: WriteRequest -> bool, p: Claimed)
    requires e.Write? && e.token in s.requests && Follows(c, sent, p)
    requires RequestOk(c, s.requests[e.token], s.system.store.messages)
    requires !s.requests[e.token].call.Remove? ==> sent(s.requests[e.token].call.request)
    requires ActionOf(c, s, e).Some?
    ensures var a, ms := ActionOf(c, s, e).value, s.system.store.messages;
      && (a.Reserve? ==> Bears(a.draft, p))
      && (a.Update? && a.id in ms ==> p(ms[a.id].groupId, ms[a.id].sender, a.content))
  {
  }

  /**
    In every reachable state, every message stored, in flight or archived carries a signature over its
    own group, ciphertext, nonce and key version, by a key whose address is its sender.
   */
  lemma EveryMessageIsAuthentic(c: Crypto, ttl: I64, states: seq<Service>, events: seq<Event>, n: nat)
    requires IsServiceRun(c, ttl, states, events) && n < |states|
    ensures AllBear(states[n].system, (g, a, content) => Authentic(c, g, a, content))
  {
    var p: Claimed := (g, a, content) => Authentic(c, g, a, content);
    var sent := (r: WriteRequest) => true;
    forall auth, r | Derived(c, auth) && DecodeContent(c, auth, r).Success? && sent(r)
      ensures p(r.groupId, auth.senderAddress, DecodeContent(c, auth, r).value)
    {
      AcceptedIsSigned(c, auth, r);
    }
    EveryContentBears(c, ttl, states, events, n, sent, p);
  }

  /** Key versions are 64-bit integers wherever a message is. */
  lemma KeyVersionsFit(c: Crypto, ttl: I64, states: seq<Service>, events: seq<Event>, n: nat)
    requires IsServiceRun(c, ttl, states, events) && n < |states|
    ensures AllBear(states[n].system, (g, a, content: Content) => IsI64(content.keyVersion))
  {
    var p: Claimed := (g, a, content: Content) => IsI64(content.keyVersion);
    var sent := (r: WriteRequest) => IsI64(r.keyVersion);
    forall i | 0 <= i < |events| && events[i].Admit? && !events[i].call.Remove? ensures sent(events[i].call.request) {
      assert Happens(c, ttl, states[i], events[i], states[i + 1]);
    }
    EveryContentBears(c, ttl, states, events, n, sent, p);
  }

  predicate SentReadably(r: WriteRequest) {
    Readable(r.encryptedText, r.nonce, r.keyVersion)
  }

  ghost predicate Verifies(c: Crypto, groupId: GroupId, sender: Address, content: Content) {
    Signed(c, groupId, sender, AsRead(content), HexEncode(content.encryptedMsg), HexEncode(content.nonce))
  }

  ghost function Verifying(c: Crypto): Claimed {
    (g, a, content) => Verifies(c, g, a, content)
  }

  lemma ReadableFollows(c: Crypto)
    ensures Follows(c, SentReadably, Verifying(c))
  {
    forall auth, r | Derived(c, auth) && DecodeContent(c, auth, r).Success? && SentReadably(r)
      ensures Verifies(c, r.groupId, auth.senderAddress, DecodeContent(c, auth, r).value)
    {
      AcceptedReadable(c, auth, r);
    }
  }

  /**
    When clients send lower-case base16 and key versions that are doubles, every message the relayer
    serves, in every reachable state, verifies for every reader.
   */
  lemma EveryMessageVerifies(c: Crypto, ttl: I64, states: seq<Service>, events: seq<Event>, n: nat)
    requires IsServiceRun(c, ttl, states, events) && n < |states| && AllSent(events, SentReadably)
    ensures forall id | id in states[n].system.store.messages ::
      VerifyMessageSender(c, Served(states[n].system.store.messages[id]))
  {
    var s := states[n].system;
    ReadableFollows(c);
    EveryContentBears(c, ttl, states, events, n, SentReadably, Verifying(c));
    forall id | id in s.store.messages ensures VerifyMessageSender(c, Served(s.store.messages[id])) {
      assert Bears(s.store.messages[id], Verifying(c));
      ReaderAcceptsIff(c, s.store.messages[id]);
    }
  }

  /**
    What the archive holds would verify if the relayer served it; recovered from the archive it never
    does, since the recovery converter hands on signature and key as arrays.
   */
  lemma ArchivedMessagesVerifyOnlyIfServed(c: Crypto, ttl: I64, states: seq<Service>, events: seq<Event>, n: nat, q: PatchId)
    requires IsServiceRun(c, ttl, states, events) && n < |states| && AllSent(events, SentReadably)
    requires ValidPatch(states[n].system.archive, q)
    ensures var body := PatchAt(states[n].system.archive, q).body;
      VerifyMessageSender(c, Served(body)) && !VerifyMessageSender(c, FromWalrusMessage(body))
  {
    var s := states[n].system;
    ReadableFollows(c);
    EveryContentBears(c, ttl, states, events, n, SentReadably, Verifying(c));
    assert Bears(PatchAt(s.archive, q).body, Verifying(c));
    ReaderAcceptsIff(c, PatchAt(s.archive, q).body);
  }
}
