/** The inbound delivery protocol (src/as4/inbound.rs, src/as2/inbound.rs) as a
    step system: any number of deliveries run concurrently, each suspended at its
    awaits, over one dedup store, while time passes. A store call is two steps,
    because the clock is read before the lock is taken. */
module Delivery {
  import opened Wrappers
  import opened Dedup

  datatype Protocol = As4 | As2

  /** The audit sink's declared durability. */
  datatype Sink = NoSink | BestEffort | Durable

  /** What the peer is told. */
  datatype Reply =
    | TestReceipt        // the AS4 test service
    | Positive           // a signed receipt, or a `processed` MDN
    | DuplicateReply     // a fresh receipt, or `processed/warning: duplicate-document`
    | RetryLater         // 503
    | BackendFailure     // 500
    | Refused            // an ebMS error, or a `processed/error` MDN

  /** What follows an abandoned claim. */
  datatype After = FailBackend | Refuse

  /** Where a delivery stands. A `token` is the lease it works under. */
  datatype Pc =
    | Verified
    | ClaimRead(now: Instant)
    | Building(token: Token)
    | Handling(token: Token)
    | Signing(token: Token)
    | Recording(token: Token)
    | Accepting(token: Token)
    | AcceptRead(token: Token, now: Instant)
    | Abandoning(token: Token, after: After)
    | AbandonRead(token: Token, now: Instant, after: After)
    | SigningDuplicate
    | SigningRefusal
    | Done(reply: Reply)
    | Dropped             // the connection went away mid-way

  datatype Worker = Worker(protocol: Protocol, key: Key, test: bool, pc: Pc)

  /** What happened, in order. */
  datatype Event =
    | ClaimAnswered(w: nat, key: Key, now: Instant, claim: Result<Claim>)
    | HandlerReturned(w: nat, key: Key, ok: bool)
    | SignalSigned(w: nat, key: Key, ok: bool)
    | AuditReturned(w: nat, key: Key, ok: bool, stored: bool)
    | Settled(w: nat, key: Key, token: Token, accept: bool, now: Instant, ok: bool)
    | Answered(w: nat, key: Key, reply: Reply)

  /** `owner` records which delivery each token ever issued was issued to. */
  datatype State = State(
    sink: Sink, clock: Instant, store: Store,
    owner: map<Token, nat>, workers: map<nat, Worker>, log: seq<Event>)

  datatype Action =
    | Tick(elapsed: nat)
    | Arrive(w: nat, protocol: Protocol, key: Key, test: bool)
    | ReadForClaim(w: nat)
    | LockClaim(w: nat, drawn: Option<Token>)
    | Build(w: nat, ok: bool)
    | Handle(w: nat, ok: bool)
    | Sign(w: nat, ok: bool)
    | Record(w: nat, finished: bool, written: bool)
    | ReadForSettle(w: nat)
    | LockSettle(w: nat)
    | Drop(w: nat)

  function Init(sink: Sink, clock: Instant): State
  {
    State(sink, clock, map[], map[], map[], [])
  }

  /** `audit::record`: only a durable sink's error is an error. */
  predicate RecordOk(sink: Sink, written: bool)
  {
    sink != Durable || written
  }

  predicate HoldsToken(pc: Pc)
  {
    match pc
    case Building(_) | Handling(_) | Signing(_) | Recording(_) | Accepting(_) => true
    case AcceptRead(_, _) | Abandoning(_, _) | AbandonRead(_, _, _) => true
    case _ => false
  }

  predicate Enabled(s: State, a: Action)
  {
    match a
    case Tick(_) => true
    case Arrive(w, protocol, _, test) => w !in s.workers && (test ==> protocol == As4)
    case ReadForClaim(w) => w in s.workers && s.workers[w].pc == Verified && !s.workers[w].test
    case LockClaim(w, drawn) =>
      && w in s.workers && s.workers[w].pc.ClaimRead?
      // A drawn token is new: the store never issues one twice.
      && (drawn.Some? ==> drawn.value !in s.owner)
    case Build(w, _) => w in s.workers && s.workers[w].pc.Building?
    case Handle(w, _) => w in s.workers && s.workers[w].pc.Handling?
    case Sign(w, _) =>
      && w in s.workers
      && match s.workers[w].pc {
           case Verified => s.workers[w].test
           case Signing(_) | SigningDuplicate | SigningRefusal => true
           case _ => false
         }
    case Record(w, _, _) => w in s.workers && s.workers[w].pc.Recording?
    case ReadForSettle(w) =>
      w in s.workers && (s.workers[w].pc.Accepting? || s.workers[w].pc.Abandoning?)
    case LockSettle(w) =>
      w in s.workers && (s.workers[w].pc.AcceptRead? || s.workers[w].pc.AbandonRead?)
    case Drop(w) => w in s.workers && !s.workers[w].pc.Done?
  }

  /** What one step of a delivery does: its next position, what it logs, the
      store it leaves and the token it was issued, if any. */
  datatype Effect = Effect(pc: Pc, said: seq<Event>, store: Store, issued: Option<Token>)

  /** Move on, saying nothing or one thing. */
  function Move(s: State, pc: Pc, said: seq<Event>): Effect
  {
    Effect(pc, said, s.store, None)
  }

  /** Answer the peer, after `said`. */
  function Finish(w: nat, key: Key, store: Store, said: Event, reply: Reply): Effect
  {
    Effect(Done(reply), [said, Answered(w, key, reply)], store, None)
  }

  function ClaimEffect(s: State, w: nat, me: Worker, drawn: Option<Token>): Effect
    requires me.pc.ClaimRead?
  {
    var (claim, store) := ClaimAt(s.store, me.key, me.pc.now, drawn);
    var said := ClaimAnswered(w, me.key, me.pc.now, claim);
    match claim
    case Success(Claimed(token)) => Effect(Building(token), [said], store, Some(token))
    case Success(Duplicate) => Effect(SigningDuplicate, [said], store, None)
    case Success(InFlight) => Finish(w, me.key, store, said, RetryLater)
    case Failure => Finish(w, me.key, store, said, BackendFailure)
  }

  /** Signing an answer: the receipt or `processed` MDN before the audit record,
      or the last thing a test message, a duplicate or a refusal needs. */
  function SignEffect(s: State, w: nat, me: Worker, ok: bool): Effect
  {
    var said := SignalSigned(w, me.key, ok);
    match me.pc
    case Signing(token) => Move(s, if ok then Recording(token) else Abandoning(token, FailBackend), [said])
    case SigningDuplicate => Finish(w, me.key, s.store, said, if ok then DuplicateReply else BackendFailure)
    case SigningRefusal => Finish(w, me.key, s.store, said, if ok then Refused else BackendFailure)
    case _ => Finish(w, me.key, s.store, said, if ok then TestReceipt else BackendFailure)
  }

  function SettleEffect(s: State, w: nat, me: Worker): Effect
    requires me.pc.AcceptRead? || me.pc.AbandonRead?
  {
    var accept := me.pc.AcceptRead?;
    var (ok, store) := SettleAt(s.store, me.key, me.pc.token, accept, me.pc.now);
    var said := Settled(w, me.key, me.pc.token, accept, me.pc.now, ok);
    if accept then
      // After a failed accept the current holder, if any, settles.
      Finish(w, me.key, store, said, if ok then Positive else BackendFailure)
    else match me.pc.after
      // A failed release is only logged: the lease expires.
      case FailBackend => Finish(w, me.key, store, said, BackendFailure)
      // AS4 answers an ebMS error at once, AS2 signs an MDN first.
      case Refuse =>
        if me.protocol == As4 then Finish(w, me.key, store, said, Refused)
        else Effect(SigningRefusal, [said], store, None)
  }

  function WorkerEffect(s: State, a: Action): Effect
    requires Enabled(s, a) && !a.Tick? && !a.Arrive?
  {
    var w, me := a.w, s.workers[a.w];
    match a
    case ReadForClaim(_) => Move(s, ClaimRead(s.clock), [])
    case LockClaim(_, drawn) => ClaimEffect(s, w, me, drawn)
    case Build(_, ok) =>
      Move(s, if ok then Handling(me.pc.token) else Abandoning(me.pc.token, FailBackend), [])
    case Handle(_, ok) =>
      Move(s, if ok then Signing(me.pc.token) else Abandoning(me.pc.token, Refuse),
           [HandlerReturned(w, me.key, ok)])
    case Sign(_, ok) => SignEffect(s, w, me, ok)
    case Record(_, finished, written) =>
      var ok := finished && RecordOk(s.sink, written);
      var stored := finished && written && s.sink != NoSink;
      Move(s, if ok then Accepting(me.pc.token) else Abandoning(me.pc.token, FailBackend),
           [AuditReturned(w, me.key, ok, stored)])
    case ReadForSettle(_) =>
      Move(s, if me.pc.Accepting? then AcceptRead(me.pc.token, s.clock)
              else AbandonRead(me.pc.token, s.clock, me.pc.after), [])
    case LockSettle(_) => SettleEffect(s, w, me)
    case Drop(_) => Move(s, Dropped, [])
  }

  function Commit(s: State, w: nat, e: Effect): State
    requires w in s.workers
  {
    s.(store := e.store,
       owner := if e.issued.Some? then s.owner[e.issued.value := w] else s.owner,
       workers := s.workers[w := s.workers[w].(pc := e.pc)],
       log := s.log + e.said)
  }

  function Step(s: State, a: Action): State
    requires Enabled(s, a)
  {
    match a
    case Tick(elapsed) => s.(clock := s.clock + elapsed)
    case Arrive(w, protocol, key, test) =>
      s.(workers := s.workers[w := Worker(protocol, key, test, Verified)])
    case _ => Commit(s, a.w, WorkerEffect(s, a))
  }

  /** The state after `acts`, if each was enabled in its turn. */
  function Execute(sink: Sink, clock: Instant, acts: seq<Action>): Option<State>
  {
    if acts == [] then Some(Init(sink, clock))
    else
      match Execute(sink, clock, acts[..|acts| - 1])
      case Some(s) => if Enabled(s, acts[|acts| - 1]) then Some(Step(s, acts[|acts| - 1])) else None
      case None => None
  }
}
