/** One delivery as the code runs it (`handle` and `deliver` in src/as4/inbound.rs and
    src/as2/inbound.rs), statement by statement against the in-process dedup store.
    Every way through it is a path of the step system. */
module Inbound {
  import opened Wrappers
  import opened Dedup
  import opened Delivery

  /** What the surroundings of a delivery decide: how long it waits before its two
      store calls, the token drawn for it, and how each call out of it ends. */
  datatype Surroundings = Surroundings(
    beforeClaim: nat, drawn: Option<Token>, built: bool, handled: bool, signed: bool,
    finished: bool, written: bool, beforeSettle: nat)

  /** The state after `acts` from `s`, if each is enabled in its turn. */
  ghost function RunFrom(s: State, acts: seq<Action>): Option<State>
  {
    if acts == [] then Some(s)
    else
      match RunFrom(s, acts[..|acts| - 1])
      case Some(t) => if Enabled(t, acts[|acts| - 1]) then Some(Step(t, acts[|acts| - 1])) else None
      case None => None
  }

  /** Continuing a run of the whole system is again a run of it. */
  lemma {:induction false} RunContinues(sink: Sink, clock: Instant, before: seq<Action>, s: State, acts: seq<Action>)
    requires Execute(sink, clock, before) == Some(s)
    ensures Execute(sink, clock, before + acts) == RunFrom(s, acts)
  {
    if acts == [] {
      assert before + acts == before;
    } else {
      var n := |acts| - 1;
      RunContinues(sink, clock, before, s, acts[..n]);
      assert (before + acts)[..|before + acts| - 1] == before + acts[..n];
    }
  }

  lemma Advance(s: State, acts: seq<Action>, at: State, a: Action)
    requires RunFrom(s, acts) == Some(at) && Enabled(at, a)
    ensures RunFrom(s, acts + [a]) == Some(Step(at, a))
  {
    assert (acts + [a])[..|acts|] == acts;
  }

  /** Only this delivery moves, and time passes. */
  predicate OwnSteps(acts: seq<Action>, w: nat)
  {
    forall i :: 0 <= i < |acts| ==> acts[i].Tick? || acts[i].w == w
  }

  /** A run is under way: `at` is where the actions so far lead, the store object holds
      its store and the delivery stands at `pc`. */
  ghost predicate Standing(s: State, acts: seq<Action>, at: State, entries: Store, w: nat, me: Worker)
  {
    && OwnSteps(acts, w)
    && RunFrom(s, acts) == Some(at) && at.store == entries && at.sink == s.sink
    && w in at.workers && at.workers[w] == me
  }

  /** One action of the delivery, and where it leads. */
  lemma Moves(s: State, acts: seq<Action>, at: State, entries: Store, w: nat, me: Worker, a: Action)
    requires Standing(s, acts, at, entries, w, me)
    requires Enabled(at, a) && !a.Tick? && !a.Arrive? && a.w == w
    ensures Standing(s, acts + [a], Step(at, a), WorkerEffect(at, a).store, w, me.(pc := WorkerEffect(at, a).pc))
    ensures Step(at, a).clock == at.clock
  {
    Advance(s, acts, at, a);
  }

  lemma Waits(s: State, acts: seq<Action>, at: State, entries: Store, w: nat, me: Worker, elapsed: nat)
    requires Standing(s, acts, at, entries, w, me)
    ensures Standing(s, acts + [Tick(elapsed)], Step(at, Tick(elapsed)), entries, w, me)
    ensures Step(at, Tick(elapsed)).owner == at.owner && Step(at, Tick(elapsed)).clock == at.clock + elapsed
  {
    Advance(s, acts, at, Tick(elapsed));
  }

  /** The outcome: the delivery is done with this reply, after `acts` of its own. */
  ghost predicate Ends(s: State, acts: seq<Action>, entries: Store, w: nat, reply: Reply)
  {
    && OwnSteps(acts, w)
    && RunFrom(s, acts).Some?
    && var t := RunFrom(s, acts).value;
       t.store == entries && w in t.workers && t.workers[w].pc == Done(reply)
  }

  // ---- What comes of it --------------------------------------------------------------

  /** The key is held under this token by a claim read at `now`. */
  predicate Holds(entries: Store, key: Key, token: Token, now: Instant)
  {
    key in entries && entries[key] == Held(token, now + LEASE)
  }

  /** Everything a delivery needs before its accept went well. */
  predicate AllWell(env: Surroundings, sink: Sink)
  {
    env.built && env.handled && env.signed && env.finished && (sink == Durable ==> env.written)
  }

  /** The answer to a delivery that obtained its claim. */
  function DeliveryReply(env: Surroundings, sink: Sink, protocol: Protocol): Reply
  {
    if AllWell(env, sink) && env.beforeSettle < LEASE then Positive
    else if env.built && !env.handled && (protocol == As4 || env.signed) then Refused
    else BackendFailure
  }

  predicate LiveAt(entries: Store, key: Key, now: Instant)
  {
    key in entries && entries[key].until > now
  }

  /** The answer to a message by what the store holds of it when its claim is read. */
  function ClaimReply(entries: Store, key: Key, now: Instant, env: Surroundings, sink: Sink, protocol: Protocol): Reply
  {
    if LiveAt(entries, key, now) then
      if entries[key].Held? then RetryLater else if env.signed then DuplicateReply else BackendFailure
    else if env.drawn.None? then BackendFailure
    else DeliveryReply(env, sink, protocol)
  }

  /** What is left of the key: the message accepted, or the claim released. */
  predicate Left(entries: Store, key: Key, env: Surroundings, sink: Sink, now: Instant)
  {
    if AllWell(env, sink) then key in entries && entries[key] == Accepted(now + env.beforeSettle + RETENTION)
    else key !in entries
  }

  /** `abandon`, then the answer. */
  method Abandon(dedup: MemoryDedup, ghost s: State, ghost acts0: seq<Action>, ghost at0: State,
                 w: nat, protocol: Protocol, key: Key, token: Token, after: After, clock: Instant,
                 elapsed: nat, signed: bool)
    returns (reply: Reply, ghost acts: seq<Action>)
    requires Standing(s, acts0, at0, dedup.entries, w, Worker(protocol, key, false, Abandoning(token, after)))
    requires clock == at0.clock
    modifies dedup
    ensures Ends(s, acts, dedup.entries, w, reply)
    ensures reply == if after == Refuse && (protocol == As4 || signed) then Refused else BackendFailure
    ensures old(Holds(dedup.entries, key, token, clock)) && elapsed < LEASE ==> key !in dedup.entries
  {
    ghost var me := Worker(protocol, key, false, Abandoning(token, after));
    acts := acts0;
    ghost var at := at0;
    Waits(s, acts, at, dedup.entries, w, me, elapsed);
    acts, at := acts + [Tick(elapsed)], Step(at, Tick(elapsed));
    Moves(s, acts, at, dedup.entries, w, me, ReadForSettle(w));
    acts, at, me := acts + [ReadForSettle(w)], Step(at, ReadForSettle(w)),
      me.(pc := AbandonRead(token, at.clock, after));
    ghost var next := WorkerEffect(at, LockSettle(w));
    Moves(s, acts, at, dedup.entries, w, me, LockSettle(w));
    acts, at, me := acts + [LockSettle(w)], Step(at, LockSettle(w)), me.(pc := next.pc);
    var released := dedup.Settle(key, token, false, clock + elapsed);
    if after == FailBackend {
      return BackendFailure, acts;
    }
    if protocol == As4 {
      return Refused, acts;
    }
    Moves(s, acts, at, dedup.entries, w, me, Sign(w, signed));
    acts := acts + [Sign(w, signed)];
    reply := if signed then Refused else BackendFailure;
  }

  lemma Arrives(s: State, w: nat, protocol: Protocol, key: Key, test: bool)
    requires Enabled(s, Arrive(w, protocol, key, test))
    ensures Standing(s, [Arrive(w, protocol, key, test)], Step(s, Arrive(w, protocol, key, test)), s.store, w,
                     Worker(protocol, key, test, Verified))
  {
    var a := Arrive(w, protocol, key, test);
    assert RunFrom(s, []) == Some(s) && [] + [a] == [a];
    Advance(s, [], s, a);
    hide RunFrom;
  }

  /** A message that arrived and verified: answered as a test, claimed, or turned away. */
  method Handle(dedup: MemoryDedup, ghost s: State, sink: Sink, clock: Instant,
                w: nat, protocol: Protocol, key: Key, test: bool, env: Surroundings)
    returns (reply: Reply, ghost acts: seq<Action>)
    requires dedup.entries == s.store && sink == s.sink && clock == s.clock
    requires w !in s.workers && (test ==> protocol == As4)
    requires env.drawn.Some? ==> env.drawn.value !in s.owner
    modifies dedup
    ensures Ends(s, acts, dedup.entries, w, reply)
    ensures test ==> dedup.entries == old(dedup.entries) && reply == if env.signed then TestReceipt else BackendFailure
    ensures !test ==> reply == old(ClaimReply(dedup.entries, key, clock + env.beforeClaim, env, sink, protocol))
    ensures !test && env.drawn.Some? && env.beforeSettle < LEASE ==>
              old(!LiveAt(dedup.entries, key, clock + env.beforeClaim)) ==>
              Left(dedup.entries, key, env, sink, clock + env.beforeClaim)
  {
    ghost var me := Worker(protocol, key, test, Verified);
    ghost var at := Step(s, Arrive(w, protocol, key, test));
    Arrives(s, w, protocol, key, test);
    acts := [Arrive(w, protocol, key, test)];
    hide RunFrom;
    if test {
      Moves(s, acts, at, dedup.entries, w, me, Sign(w, env.signed));
      acts := acts + [Sign(w, env.signed)];
      reply := if env.signed then TestReceipt else BackendFailure;
      return;
    }
    Waits(s, acts, at, dedup.entries, w, me, env.beforeClaim);
    acts, at := acts + [Tick(env.beforeClaim)], Step(at, Tick(env.beforeClaim));
    Moves(s, acts, at, dedup.entries, w, me, ReadForClaim(w));
    acts, at := acts + [ReadForClaim(w)], Step(at, ReadForClaim(w));
    reply, acts := ClaimAndDeliver(dedup, s, acts, at, sink, clock + env.beforeClaim, w, protocol, key, env);
  }

  /** What a claim gets, by what the store holds of the key at its reading. */
  lemma ClaimGets(entries: Store, key: Key, now: Instant, drawn: Option<Token>)
    ensures var (claim, after) := ClaimAt(entries, key, now, drawn);
            if LiveAt(entries, key, now) then
              && claim == Success(if entries[key].Held? then InFlight else Duplicate)
              && key in after && after[key] == entries[key]
            else if drawn.None? then claim == Failure
            else claim == Success(Claimed(drawn.value)) && Holds(after, key, drawn.value, now)
  {
  }

  /** The claim under the lock, and what follows from its answer. */
  method ClaimAndDeliver(dedup: MemoryDedup, ghost s: State, ghost acts0: seq<Action>, ghost at0: State,
                         sink: Sink, now: Instant, w: nat, protocol: Protocol, key: Key, env: Surroundings)
    returns (reply: Reply, ghost acts: seq<Action>)
    requires Standing(s, acts0, at0, dedup.entries, w, Worker(protocol, key, false, ClaimRead(now)))
    requires now == at0.clock && sink == s.sink && (env.drawn.Some? ==> env.drawn.value !in at0.owner)
    modifies dedup
    ensures Ends(s, acts, dedup.entries, w, reply)
    ensures reply == old(ClaimReply(dedup.entries, key, now, env, sink, protocol))
    ensures old(!LiveAt(dedup.entries, key, now)) && env.drawn.Some? && env.beforeSettle < LEASE ==>
              Left(dedup.entries, key, env, sink, now)
    ensures old(LiveAt(dedup.entries, key, now)) ==>
              key in dedup.entries && dedup.entries[key] == old(dedup.entries[key])
  {
    ClaimGets(dedup.entries, key, now, env.drawn);
    hide RunFrom, Purge, ClaimAt, Left, DeliveryReply;
    ghost var lock := LockClaim(w, env.drawn);
    ghost var at := Step(at0, lock);
    ghost var me := Worker(protocol, key, false, WorkerEffect(at0, lock).pc);
    Moves(s, acts0, at0, dedup.entries, w, Worker(protocol, key, false, ClaimRead(now)), lock);
    acts := acts0 + [lock];
    var claim := dedup.ClaimNow(key, now, env.drawn);
    match claim {
      case Failure => return BackendFailure, acts;
      case Success(InFlight) => return RetryLater, acts;
      case Success(Duplicate) =>
        Moves(s, acts, at, dedup.entries, w, me, Sign(w, env.signed));
        acts := acts + [Sign(w, env.signed)];
        reply := if env.signed then DuplicateReply else BackendFailure;
      case Success(Claimed(token)) =>
        reply, acts := Deliver(dedup, s, acts, at, sink, now, w, protocol, key, token, env);
    }
  }

  /** A claimed delivery: evidence, handler, signed answer, audit record, accept. Every
      failure on the way abandons the claim; a failed accept does not. */
  method Deliver(dedup: MemoryDedup, ghost s: State, ghost acts0: seq<Action>, ghost at0: State,
                 sink: Sink, clock: Instant, w: nat, protocol: Protocol, key: Key, token: Token, env: Surroundings)
    returns (reply: Reply, ghost acts: seq<Action>)
    requires Standing(s, acts0, at0, dedup.entries, w, Worker(protocol, key, false, Building(token)))
    requires clock == at0.clock && sink == s.sink
    modifies dedup
    ensures Ends(s, acts, dedup.entries, w, reply)
    ensures old(Holds(dedup.entries, key, token, clock)) ==> reply == DeliveryReply(env, sink, protocol)
    ensures old(Holds(dedup.entries, key, token, clock)) && env.beforeSettle < LEASE ==>
              Left(dedup.entries, key, env, sink, clock)
  {
    hide RunFrom, ClaimEffect, SettleEffect;
    ghost var me := Worker(protocol, key, false, Building(token));
    acts := acts0;
    ghost var at := at0;
    Moves(s, acts, at, dedup.entries, w, me, Build(w, env.built));
    acts, at := acts + [Build(w, env.built)], Step(at, Build(w, env.built));
    if !env.built {
      reply, acts := Abandon(dedup, s, acts, at, w, protocol, key, token, FailBackend, clock, env.beforeSettle,
                             env.signed);
      return;
    }
    me := me.(pc := Handling(token));
    Moves(s, acts, at, dedup.entries, w, me, Action.Handle(w, env.handled));
    acts, at := acts + [Action.Handle(w, env.handled)], Step(at, Action.Handle(w, env.handled));
    if !env.handled {
      reply, acts := Abandon(dedup, s, acts, at, w, protocol, key, token, Refuse, clock, env.beforeSettle, env.signed);
      return;
    }
    me := me.(pc := Signing(token));
    Moves(s, acts, at, dedup.entries, w, me, Sign(w, env.signed));
    acts, at := acts + [Sign(w, env.signed)], Step(at, Sign(w, env.signed));
    if !env.signed {
      reply, acts := Abandon(dedup, s, acts, at, w, protocol, key, token, FailBackend, clock, env.beforeSettle,
                             env.signed);
      return;
    }
    reply, acts := RecordAndAccept(dedup, s, acts, at, sink, clock, w, protocol, key, token, env);
  }

  /** The audit record of a handled and signed delivery, then its accept. */
  method RecordAndAccept(dedup: MemoryDedup, ghost s: State, ghost acts0: seq<Action>, ghost at0: State,
                         sink: Sink, clock: Instant, w: nat, protocol: Protocol, key: Key, token: Token,
                         env: Surroundings)
    returns (reply: Reply, ghost acts: seq<Action>)
    requires Standing(s, acts0, at0, dedup.entries, w, Worker(protocol, key, false, Recording(token)))
    requires clock == at0.clock && sink == s.sink
    modifies dedup
    ensures Ends(s, acts, dedup.entries, w, reply)
    ensures old(Holds(dedup.entries, key, token, clock)) && env.built && env.handled && env.signed ==>
              reply == DeliveryReply(env, sink, protocol)
    ensures old(Holds(dedup.entries, key, token, clock)) && env.beforeSettle < LEASE ==>
              env.built && env.handled && env.signed ==> Left(dedup.entries, key, env, sink, clock)
  {
    hide RunFrom, ClaimEffect, SignEffect, SettleEffect;
    ghost var me := Worker(protocol, key, false, Recording(token));
    ghost var record := Record(w, env.finished, env.written);
    Moves(s, acts0, at0, dedup.entries, w, me, record);
    acts := acts0 + [record];
    ghost var at := Step(at0, record);
    if !env.finished || !RecordOk(sink, env.written) {
      reply, acts := Abandon(dedup, s, acts, at, w, protocol, key, token, FailBackend, clock, env.beforeSettle,
                             env.signed);
      return;
    }
    reply, acts := Accept(dedup, s, acts, at, w, protocol, key, token, clock, env.beforeSettle);
  }

  /** `accept`, then the answer made before. */
  method Accept(dedup: MemoryDedup, ghost s: State, ghost acts0: seq<Action>, ghost at0: State,
                w: nat, protocol: Protocol, key: Key, token: Token, clock: Instant, elapsed: nat)
    returns (reply: Reply, ghost acts: seq<Action>)
    requires Standing(s, acts0, at0, dedup.entries, w, Worker(protocol, key, false, Accepting(token)))
    requires clock == at0.clock
    modifies dedup
    ensures Ends(s, acts, dedup.entries, w, reply)
    ensures old(Holds(dedup.entries, key, token, clock)) ==>
              reply == if elapsed < LEASE then Positive else BackendFailure
    ensures reply == Positive ==>
              key in dedup.entries && dedup.entries[key] == Accepted(clock + elapsed + RETENTION)
  {
    ghost var me := Worker(protocol, key, false, Accepting(token));
    acts := acts0;
    ghost var at := at0;
    Waits(s, acts, at, dedup.entries, w, me, elapsed);
    acts, at := acts + [Tick(elapsed)], Step(at, Tick(elapsed));
    Moves(s, acts, at, dedup.entries, w, me, ReadForSettle(w));
    acts, at, me := acts + [ReadForSettle(w)], Step(at, ReadForSettle(w)), me.(pc := AcceptRead(token, at.clock));
    Moves(s, acts, at, dedup.entries, w, me, LockSettle(w));
    acts := acts + [LockSettle(w)];
    var ok := dedup.Settle(key, token, true, clock + elapsed);
    reply := if ok then Positive else BackendFailure;
  }
}
