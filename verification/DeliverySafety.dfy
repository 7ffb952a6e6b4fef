/** What every run of the delivery protocol keeps: no positive answer without a
    handled, recorded and accepted delivery of the same message, no stuck key, and
    one token per key that can settle. */
module DeliverySafety {
  import opened Wrappers
  import opened Dedup
  import opened Delivery

  // ---- What the first `n` events of a log show ---------------------------

  ghost predicate Handled(log: seq<Event>, n: nat, w: nat, key: Key)
    requires n <= |log|
  {
    exists i :: 0 <= i < n && log[i] == HandlerReturned(w, key, true)
  }

  ghost predicate SignedOk(log: seq<Event>, n: nat, w: nat, key: Key)
    requires n <= |log|
  {
    exists i :: 0 <= i < n && log[i] == SignalSigned(w, key, true) && Handled(log, i, w, key)
  }

  /** The handler returned Ok, then the answer was signed, then the audit write
      returned Ok; with a durable sink the record is stored. */
  ghost predicate Recorded(log: seq<Event>, n: nat, sink: Sink, w: nat, key: Key)
    requires n <= |log|
  {
    exists i :: && 0 <= i < n
                && log[i].AuditReturned? && log[i].w == w && log[i].key == key && log[i].ok
                && (sink == Durable ==> log[i].stored)
                && SignedOk(log, i, w, key)
  }

  /** Event `i` is a successful accept of `key`. */
  predicate AcceptAt(log: seq<Event>, i: int, key: Key)
  {
    0 <= i < |log| && log[i].Settled? && log[i].accept && log[i].ok && log[i].key == key
  }

  /** No settlement under `token` succeeded among the first `n` events. */
  ghost predicate Unsettled(log: seq<Event>, n: nat, token: Token)
    requires n <= |log|
  {
    forall i :: 0 <= i < n && log[i].Settled? && log[i].token == token ==> !log[i].ok
  }

  lemma EvidenceKept(log: seq<Event>, log': seq<Event>, n: nat, n': nat, sink: Sink, w: nat, key: Key)
    requires log <= log' && n <= |log| && n <= n' <= |log'|
    ensures Handled(log, n, w, key) ==> Handled(log', n', w, key)
    ensures SignedOk(log, n, w, key) ==> SignedOk(log', n', w, key)
    ensures Recorded(log, n, sink, w, key) ==> Recorded(log', n', sink, w, key)
  {
    assert forall i, w', k' :: 0 <= i <= n && Handled(log, i, w', k') ==> Handled(log', i, w', k');
    assert forall i, w', k' :: 0 <= i <= n && SignedOk(log, i, w', k') ==> SignedOk(log', i, w', k');
  }

  // ---- The invariant ------------------------------------------------------

  /** Tokens belong to one delivery, and everything in the log to its key. */
  ghost predicate Owned(s: State)
  {
    && (forall w :: w in s.workers && HoldsToken(s.workers[w].pc) ==>
          s.workers[w].pc.token in s.owner && s.owner[s.workers[w].pc.token] == w)
    && (forall k :: k in s.store && s.store[k].Held? ==>
          && s.store[k].token in s.owner
          && s.owner[s.store[k].token] in s.workers
          && s.workers[s.owner[s.store[k].token]].key == k)
    && (forall i :: 0 <= i < |s.log| ==>
          s.log[i].w in s.workers && s.workers[s.log[i].w].key == s.log[i].key)
    && (forall i :: 0 <= i < |s.log| && s.log[i].Settled? ==>
          s.log[i].token in s.owner && s.owner[s.log[i].token] == s.log[i].w)
  }

  /** No reading lies in the future. */
  ghost predicate Read(s: State)
  {
    && (forall w :: w in s.workers && s.workers[w].pc.ClaimRead? ==> s.workers[w].pc.now <= s.clock)
    && (forall w :: w in s.workers && s.workers[w].pc.AcceptRead? ==> s.workers[w].pc.now <= s.clock)
    && (forall i :: 0 <= i < |s.log| && s.log[i].Settled? && s.log[i].accept ==> s.log[i].now <= s.clock)
  }

  /** What the log shows of a delivery at `pc`. */
  ghost predicate Backed(log: seq<Event>, sink: Sink, w: nat, key: Key, pc: Pc)
  {
    match pc
    case Signing(_) => Handled(log, |log|, w, key)
    case Recording(_) => SignedOk(log, |log|, w, key)
    case Accepting(_) | AcceptRead(_, _) => Recorded(log, |log|, sink, w, key)
    case SigningDuplicate => exists c :: 0 <= c < |log| && DuplicateAt(log, c, w, key)
    case _ => true
  }

  /** Event `c` answered a claim of `w` with Duplicate, after an accept of the
      key whose retention covers the claim's reading. */
  ghost predicate DuplicateAt(log: seq<Event>, c: int, w: nat, key: Key)
    requires 0 <= c < |log|
  {
    && log[c].ClaimAnswered? && log[c].w == w && log[c].key == key
    && log[c].claim == Success(Duplicate)
    && exists l :: 0 <= l < c && AcceptAt(log, l, key) && log[c].now < log[l].now + RETENTION
  }

  /** Event `e` leased `key`. */
  predicate Leases(e: Event, key: Key)
  {
    e.ClaimAnswered? && e.key == key && e.claim.Success? && e.claim.value.Claimed?
  }

  /** Event `c` is the last before `i` to lease `key`: its delivery is the current
      holder. */
  ghost predicate LastLease(log: seq<Event>, c: int, i: nat, key: Key)
    requires i <= |log|
  {
    0 <= c < i && Leases(log[c], key) && forall j :: c < j < i ==> !Leases(log[j], key)
  }

  /** Event `c` leased `key` to the current holder, whose lease covers the reading
      `now` and is not settled by event `i`. */
  ghost predicate LeasedAt(log: seq<Event>, c: int, i: nat, key: Key, now: Instant)
    requires 0 <= c < i <= |log|
  {
    && LastLease(log, c, i, key)
    && now < log[c].now + LEASE
    && Unsettled(log, i, log[c].claim.value.token)
  }

  ghost predicate Backing(s: State)
  {
    forall w :: w in s.workers ==> Backed(s.log, s.sink, w, s.workers[w].key, s.workers[w].pc)
  }

  /** What the log shows behind its `i`-th event. */
  ghost predicate Caused(log: seq<Event>, sink: Sink, i: int)
    requires 0 <= i < |log|
  {
    match log[i]
    case Settled(w, key, _, true, _, _) => Recorded(log, i, sink, w, key)
    case ClaimAnswered(_, key, now, Success(InFlight)) => exists c :: 0 <= c < i && LeasedAt(log, c, i, key, now)
    case Answered(w, key, Positive) => exists l :: 0 <= l < i && AcceptAt(log, l, key) && log[l].w == w
    case Answered(w, key, DuplicateReply) => exists c :: 0 <= c < i && DuplicateAt(log, c, w, key)
    case _ => true
  }

  ghost predicate Causes(s: State)
  {
    forall i :: 0 <= i < |s.log| ==> Caused(s.log, s.sink, i)
  }

  /** Every entry stems from the log: an accepted one from a successful accept,
      a held one from the last claim to lease the key, still unsettled. */
  ghost predicate Traced(s: State, k: Key)
    requires k in s.store
  {
    match s.store[k]
    case Accepted(until) => exists l :: AcceptAt(s.log, l, k) && s.log[l].now + RETENTION == until
    case Held(token, until) =>
      && Unsettled(s.log, |s.log|, token)
      && exists c :: && LastLease(s.log, c, |s.log|, k)
                     && s.log[c].claim.value.token == token && s.log[c].now + LEASE == until
  }

  ghost predicate Provenance(s: State)
  {
    forall k :: k in s.store ==> Traced(s, k)
  }

  ghost predicate Core(s: State)
  {
    Owned(s) && Read(s) && Backing(s) && Causes(s) && Provenance(s)
  }

  // ---- The core invariant is inductive ------------------------------------

  /** The shape of every effect: a delivery works under its own token or a newly
      issued one, and logs only what is its own. */
  ghost predicate Proper(s: State, w: nat, e: Effect)
    requires w in s.workers
  {
    var me := s.workers[w];
    && (forall i :: 0 <= i < |e.said| ==>
          && e.said[i].w == w && e.said[i].key == me.key
          && (e.said[i].Settled? ==>
                && i == 0 && HoldsToken(me.pc) && e.said[i].token == me.pc.token
                && (e.said[i].accept ==> me.pc.AcceptRead? && e.said[i].now == me.pc.now)
                && (e.said[i].ok ==> !(me.key in e.store && e.store[me.key].Held?))))
    && (e.issued.Some? ==> e.issued.value !in s.owner)
    && (forall i :: 0 <= i < |e.said| && Leases(e.said[i], me.key) ==>
          && i == 0 && |e.said| == 1 && me.key in e.store && e.store[me.key].Held?
          && e.issued == Some(e.store[me.key].token))
    && (HoldsToken(e.pc) ==>
          e.issued == Some(e.pc.token) || (HoldsToken(me.pc) && e.pc.token == me.pc.token))
    && (e.pc.ClaimRead? || e.pc.AcceptRead? ==> e.pc.now == s.clock)
    && (forall k :: k in e.store && e.store[k].Held? ==>
          || (k in s.store && s.store[k] == e.store[k])
          || (k == me.key && e.issued == Some(e.store[k].token)))
  }

  lemma ClaimIsProper(s: State, w: nat, drawn: Option<Token>)
    requires w in s.workers && s.workers[w].pc.ClaimRead? && (drawn.Some? ==> drawn.value !in s.owner)
    ensures Proper(s, w, ClaimEffect(s, w, s.workers[w], drawn))
  {
  }

  lemma SettleIsProper(s: State, w: nat)
    requires w in s.workers && (s.workers[w].pc.AcceptRead? || s.workers[w].pc.AbandonRead?)
    ensures Proper(s, w, SettleEffect(s, w, s.workers[w]))
  {
  }

  lemma EffectsAreProper(s: State, a: Action)
    requires Enabled(s, a) && !a.Tick? && !a.Arrive?
    ensures Proper(s, a.w, WorkerEffect(s, a))
  {
    hide ClaimEffect, SettleEffect;
    match a
    case LockClaim(w, drawn) => ClaimIsProper(s, w, drawn);
    case LockSettle(w) => SettleIsProper(s, w);
    case _ =>
  }

  lemma KeepsOwned(s: State, w: nat, e: Effect)
    requires w in s.workers && Proper(s, w, e) && Owned(s)
    ensures Owned(Commit(s, w, e))
  {
  }

  lemma KeepsRead(s: State, w: nat, e: Effect)
    requires w in s.workers && Proper(s, w, e) && Read(s)
    ensures Read(Commit(s, w, e))
  {
  }

  lemma DuplicateKept(log: seq<Event>, log': seq<Event>, c: int, w: nat, key: Key)
    requires log <= log' && 0 <= c < |log| && DuplicateAt(log, c, w, key)
    ensures DuplicateAt(log', c, w, key)
  {
    var l :| 0 <= l < c && AcceptAt(log, l, key) && log[c].now < log[l].now + RETENTION;
    assert AcceptAt(log', l, key);
  }

  lemma BackedKept(log: seq<Event>, log': seq<Event>, sink: Sink, w: nat, key: Key, pc: Pc)
    requires log <= log' && Backed(log, sink, w, key, pc)
    ensures Backed(log', sink, w, key, pc)
  {
    EvidenceKept(log, log', |log|, |log'|, sink, w, key);
    if pc.SigningDuplicate? {
      var c :| 0 <= c < |log| && DuplicateAt(log, c, w, key);
      DuplicateKept(log, log', c, w, key);
    }
  }

  /** A claim answered Duplicate rests on an accept that still covers it. */
  lemma DuplicateRests(s: State, w: nat, drawn: Option<Token>)
    requires Enabled(s, LockClaim(w, drawn)) && Provenance(s)
    requires ClaimAt(s.store, s.workers[w].key, s.workers[w].pc.now, drawn).0 == Success(Duplicate)
    ensures DuplicateAt(Step(s, LockClaim(w, drawn)).log, |s.log|, w, s.workers[w].key)
  {
    var key := s.workers[w].key;
    assert Traced(s, key);
    var l :| AcceptAt(s.log, l, key) && s.log[l].now + RETENTION == s.store[key].until;
    assert AcceptAt(Step(s, LockClaim(w, drawn)).log, l, key);
  }

  /** The acting delivery's new position is backed by what it just logged. */
  lemma ActorBacked(s: State, a: Action)
    requires Enabled(s, a) && Backing(s) && Provenance(s) && !a.Tick? && !a.Arrive?
    ensures Backed(Step(s, a).log, s.sink, a.w, s.workers[a.w].key, WorkerEffect(s, a).pc)
  {
    var w, me, n := a.w, s.workers[a.w], |s.log|;
    var log := Step(s, a).log;
    assert Backed(s.log, s.sink, w, me.key, me.pc);
    EvidenceKept(s.log, log, n, n, s.sink, w, me.key);
    EvidenceKept(s.log, log, n, |log|, s.sink, w, me.key);
    match a
    case LockClaim(_, drawn) =>
      if WorkerEffect(s, a).pc.SigningDuplicate? {
        DuplicateRests(s, w, drawn);
      }
    case Handle(_, ok) =>
      if ok {
        assert log[n] == HandlerReturned(w, me.key, true);
      }
    case Sign(_, ok) =>
      if ok && me.pc.Signing? {
        assert log[n] == SignalSigned(w, me.key, true);
      }
    case Record(_, _, _) =>
      assert log[n] == WorkerEffect(s, a).said[0];
    case _ =>
  }

  lemma KeepsBacking(s: State, w: nat, e: Effect)
    requires w in s.workers && Backing(s)
    requires Backed(s.log + e.said, s.sink, w, s.workers[w].key, e.pc)
    ensures Backing(Commit(s, w, e))
  {
    var s' := Commit(s, w, e);
    forall v | v in s'.workers
      ensures Backed(s'.log, s'.sink, v, s'.workers[v].key, s'.workers[v].pc)
    {
      if v != w {
        BackedKept(s.log, s'.log, s.sink, v, s.workers[v].key, s.workers[v].pc);
      }
    }
  }

  lemma CausedKept(log: seq<Event>, log': seq<Event>, sink: Sink, i: int)
    requires log <= log' && 0 <= i < |log| && Caused(log, sink, i)
    ensures Caused(log', sink, i)
  {
    var e := log[i];
    EvidenceKept(log, log', i, i, sink, e.w, e.key);
    match e
    case Answered(w, key, Positive) =>
      var l :| 0 <= l < i && AcceptAt(log, l, key) && log[l].w == w;
      assert AcceptAt(log', l, key);
    case Answered(w, key, DuplicateReply) =>
      var c :| 0 <= c < i && DuplicateAt(log, c, w, key);
      DuplicateKept(log, log', c, w, key);
    case ClaimAnswered(_, key, now, Success(InFlight)) =>
      var c :| 0 <= c < i && LeasedAt(log, c, i, key, now);
      assert LeasedAt(log', c, i, key, now);
    case _ =>
  }

  /** A busy answer rests on the lease the store holds. */
  lemma BusyRests(s: State, w: nat, drawn: Option<Token>, log: seq<Event>)
    requires w in s.workers && s.workers[w].pc.ClaimRead? && Provenance(s)
    requires ClaimAt(s.store, s.workers[w].key, s.workers[w].pc.now, drawn).0 == Success(InFlight)
    requires s.log <= log && |s.log| < |log|
    ensures exists c :: 0 <= c < |s.log| && LeasedAt(log, c, |s.log|, s.workers[w].key, s.workers[w].pc.now)
  {
    var key, now, n := s.workers[w].key, s.workers[w].pc.now, |s.log|;
    assert Traced(s, key);
    var c :| && LastLease(s.log, c, n, key)
             && s.log[c].claim.value.token == s.store[key].token
             && s.log[c].now + LEASE == s.store[key].until;
    assert LeasedAt(log, c, n, key, now);
  }

  /** The evidence behind what a delivery says at a claim, */
  lemma ClaimSaysCaused(s: State, w: nat, drawn: Option<Token>, log: seq<Event>, i: int)
    requires w in s.workers && s.workers[w].pc.ClaimRead? && Provenance(s)
    requires log == s.log + ClaimEffect(s, w, s.workers[w], drawn).said && |s.log| <= i < |log|
    ensures Caused(log, s.sink, i)
  {
    var said := ClaimEffect(s, w, s.workers[w], drawn).said;
    assert log[i] == said[i - |s.log|];
    if ClaimAt(s.store, s.workers[w].key, s.workers[w].pc.now, drawn).0 == Success(InFlight) {
      BusyRests(s, w, drawn, log);
    }
    hide LeasedAt, Provenance;
  }

  /** when it signs, */
  lemma SignSaysCaused(s: State, w: nat, ok: bool, log: seq<Event>, i: int)
    requires w in s.workers && Backed(s.log, s.sink, w, s.workers[w].key, s.workers[w].pc)
    requires log == s.log + SignEffect(s, w, s.workers[w], ok).said && |s.log| <= i < |log|
    ensures Caused(log, s.sink, i)
  {
    var key, said := s.workers[w].key, SignEffect(s, w, s.workers[w], ok).said;
    assert log[i] == said[i - |s.log|];
    if s.workers[w].pc.SigningDuplicate? {
      var c :| 0 <= c < |s.log| && DuplicateAt(s.log, c, w, key);
      DuplicateKept(s.log, log, c, w, key);
    }
    hide DuplicateAt, Recorded;
  }

  /** and when it settles. */
  lemma SettleSaysCaused(s: State, w: nat, log: seq<Event>, i: int)
    requires w in s.workers && (s.workers[w].pc.AcceptRead? || s.workers[w].pc.AbandonRead?)
    requires Backed(s.log, s.sink, w, s.workers[w].key, s.workers[w].pc)
    requires log == s.log + SettleEffect(s, w, s.workers[w]).said && |s.log| <= i < |log|
    ensures Caused(log, s.sink, i)
  {
    var key, n, said := s.workers[w].key, |s.log|, SettleEffect(s, w, s.workers[w]).said;
    assert log[i] == said[i - n];
    EvidenceKept(s.log, log, n, n, s.sink, w, key);
    hide Recorded, Handled, SignedOk;
    if i > n && said[1].reply == Positive {
      assert log[n] == said[0];
      assert AcceptAt(log, n, key) && log[n].w == w;
    }
  }

  lemma SaidIsCaused(s: State, a: Action, i: int)
    requires Enabled(s, a) && Backing(s) && Provenance(s) && !a.Tick? && !a.Arrive?
    requires |s.log| <= i < |Step(s, a).log|
    ensures Caused(Step(s, a).log, s.sink, i)
  {
    var w, log := a.w, Step(s, a).log;
    assert Backed(s.log, s.sink, w, s.workers[w].key, s.workers[w].pc);
    assert log == s.log + WorkerEffect(s, a).said;
    hide Provenance, Backing, Backed;
    match a
    case LockClaim(_, drawn) => ClaimSaysCaused(s, w, drawn, log, i);
    case Sign(_, ok) => SignSaysCaused(s, w, ok, log, i);
    case LockSettle(_) => SettleSaysCaused(s, w, log, i);
    case _ =>
  }

  lemma KeepsCauses(s: State, a: Action)
    requires Enabled(s, a) && Causes(s) && Backing(s) && Provenance(s) && !a.Tick? && !a.Arrive?
    ensures Causes(Step(s, a))
  {
    var log := Step(s, a).log;
    forall i | 0 <= i < |log|
      ensures Caused(log, s.sink, i)
    {
      if i < |s.log| {
        CausedKept(s.log, log, s.sink, i);
      } else {
        SaidIsCaused(s, a, i);
      }
    }
  }

  lemma TracedKept(s: State, w: nat, e: Effect, k: Key)
    requires w in s.workers && Proper(s, w, e) && Owned(s) && Provenance(s)
    requires k in s.store && k in e.store && s.store[k] == e.store[k]
    ensures Traced(Commit(s, w, e), k)
  {
    var s' := Commit(s, w, e);
    assert Traced(s, k);
    match s.store[k]
    case Accepted(until) =>
      var l :| AcceptAt(s.log, l, k) && s.log[l].now + RETENTION == until;
      assert AcceptAt(s'.log, l, k);
    case Held(token, until) =>
      var c :| && LastLease(s.log, c, |s.log|, k)
               && s.log[c].claim.value.token == token && s.log[c].now + LEASE == until;
      assert s'.log[c] == s.log[c];
      forall j | c < j < |s'.log| ensures !Leases(s'.log[j], k) {
        assert j >= |s.log| ==> s'.log[j] == e.said[j - |s.log|];
      }
      assert LastLease(s'.log, c, |s'.log|, k);
  }

  /** An entry a step writes is traced to what the step logged. */
  lemma WrittenIsTraced(s: State, a: Action, k: Key)
    requires Enabled(s, a) && Owned(s) && !a.Tick? && !a.Arrive?
    requires k in WorkerEffect(s, a).store
    requires !(k in s.store && WorkerEffect(s, a).store[k] == s.store[k])
    ensures Traced(Step(s, a), k)
  {
    var n, e, s' := |s.log|, WorkerEffect(s, a), Step(s, a);
    assert s'.log[n] == e.said[0];
    if a.LockClaim? {
      assert LastLease(s'.log, n, |s'.log|, k) && s'.log[n].claim.value.token == a.drawn.value;
    } else {
      assert a.LockSettle?;
      assert AcceptAt(s'.log, n, k);
    }
  }

  lemma KeepsProvenance(s: State, a: Action)
    requires Enabled(s, a) && Owned(s) && Provenance(s) && !a.Tick? && !a.Arrive?
    ensures Provenance(Step(s, a))
  {
    var e := WorkerEffect(s, a);
    EffectsAreProper(s, a);
    forall k | k in e.store
      ensures Traced(Step(s, a), k)
    {
      if k in s.store && e.store[k] == s.store[k] {
        TracedKept(s, a.w, e, k);
      } else {
        WrittenIsTraced(s, a, k);
      }
    }
  }

  /** Time passing and arrivals leave the store and the log alone. */
  lemma QuietStep(s: State, s': State)
    requires Core(s) && s'.log == s.log && s'.store == s.store && s'.owner == s.owner
    requires s'.sink == s.sink && s.clock <= s'.clock
    requires forall w :: w in s.workers ==> w in s'.workers && s'.workers[w] == s.workers[w]
    requires forall w :: w in s'.workers && w !in s.workers ==> s'.workers[w].pc == Verified
    ensures Core(s')
  {
    forall k | k in s'.store ensures Traced(s', k) {
      assert Traced(s, k);
    }
  }

  lemma ActiveStep(s: State, a: Action)
    requires Enabled(s, a) && Core(s) && !a.Tick? && !a.Arrive?
    ensures Core(Step(s, a)) && Step(s, a).sink == s.sink
  {
    var e := WorkerEffect(s, a);
    EffectsAreProper(s, a);
    KeepsOwned(s, a.w, e);
    KeepsRead(s, a.w, e);
    ActorBacked(s, a);
    KeepsBacking(s, a.w, e);
    KeepsCauses(s, a);
    KeepsProvenance(s, a);
  }

  lemma CoreStep(s: State, a: Action)
    requires Enabled(s, a) && Core(s)
    ensures Core(Step(s, a)) && Step(s, a).sink == s.sink
  {
    if a.Tick? || a.Arrive? {
      QuietStep(s, Step(s, a));
    } else {
      ActiveStep(s, a);
    }
  }

  lemma {:induction false} CoreHolds(sink: Sink, clock: Instant, acts: seq<Action>)
    requires Execute(sink, clock, acts).Some?
    ensures Core(Execute(sink, clock, acts).value)
    ensures Execute(sink, clock, acts).value.sink == sink
    decreases |acts|
  {
    if acts != [] {
      CoreHolds(sink, clock, acts[..|acts| - 1]);
      CoreStep(Execute(sink, clock, acts[..|acts| - 1]).value, acts[|acts| - 1]);
    }
  }

  // ---- No positive answer without a handled, recorded, accepted delivery --

  /** In every run, each receipt, `processed` MDN or duplicate answer is preceded
      by a delivery of the same key whose handler returned Ok, whose answer was
      signed, whose audit write returned Ok and whose accept succeeded, in this
      order. For a positive answer it is the answering delivery itself; for a
      duplicate, that accept precedes the claim and its retention covers it. */
  lemma PositiveAnswersAreEarned(sink: Sink, clock: Instant, acts: seq<Action>, s: State, i: nat)
    requires Execute(sink, clock, acts) == Some(s)
    requires i < |s.log| && s.log[i].Answered? && s.log[i].reply in {Positive, DuplicateReply}
    ensures exists l ::
              && 0 <= l < i && AcceptAt(s.log, l, s.log[i].key)
              && Recorded(s.log, l, sink, s.log[l].w, s.log[i].key)
              && (s.log[i].reply == Positive ==> s.log[l].w == s.log[i].w)
              && (s.log[i].reply == DuplicateReply ==>
                    exists c :: && l < c < i && s.log[c].ClaimAnswered?
                                && s.log[c].w == s.log[i].w && s.log[c].key == s.log[i].key
                                && s.log[c].claim == Success(Duplicate)
                                && s.log[c].now < s.log[l].now + RETENTION)
  {
    CoreHolds(sink, clock, acts);
    var w, key := s.log[i].w, s.log[i].key;
    assert Caused(s.log, sink, i);
    if s.log[i].reply == Positive {
      var l :| 0 <= l < i && AcceptAt(s.log, l, key) && s.log[l].w == w;
      assert Caused(s.log, sink, l);
    } else {
      var c :| 0 <= c < i && DuplicateAt(s.log, c, w, key);
      var l :| 0 <= l < c && AcceptAt(s.log, l, key) && s.log[c].now < s.log[l].now + RETENTION;
      assert Caused(s.log, sink, l);
    }
  }

  /** In every run, a claim is told InFlight only while the current holder, the last
      delivery the key was leased to, has an unsettled lease that covers the claim's
      reading. */
  lemma InFlightOnlyUnderLease(sink: Sink, clock: Instant, acts: seq<Action>, s: State, i: nat)
    requires Execute(sink, clock, acts) == Some(s)
    requires i < |s.log| && s.log[i].ClaimAnswered? && s.log[i].claim == Success(InFlight)
    ensures exists c :: 0 <= c < i && LeasedAt(s.log, c, i, s.log[i].key, s.log[i].now)
  {
    CoreHolds(sink, clock, acts);
    assert Caused(s.log, sink, i);
  }

  /** No key stays stuck: in every run, a claim whose reading is at least a lease after
      that of the current holder's claim, or that finds the holder settled or no holder
      at all, is never told InFlight. */
  lemma NoKeyStaysStuck(sink: Sink, clock: Instant, acts: seq<Action>, s: State, i: nat)
    requires Execute(sink, clock, acts) == Some(s)
    requires i < |s.log| && s.log[i].ClaimAnswered?
    requires forall c :: LastLease(s.log, c, i, s.log[i].key) ==>
               || s.log[i].now >= s.log[c].now + LEASE
               || !Unsettled(s.log, i, s.log[c].claim.value.token)
    ensures s.log[i].claim != Success(InFlight)
  {
    if s.log[i].claim == Success(InFlight) {
      InFlightOnlyUnderLease(sink, clock, acts, s, i);
    }
  }

  /** In every reachable state, a token can settle for at most one key, a key
      under at most one token, and only for the delivery it was issued to. */
  lemma OneTokenCanSettle(sink: Sink, clock: Instant, acts: seq<Action>, s: State,
                          k1: Key, t1: Token, n1: Instant, k2: Key, t2: Token, n2: Instant)
    requires Execute(sink, clock, acts) == Some(s)
    requires Current(s.store, k1, t1, n1) && Current(s.store, k2, t2, n2)
    ensures k1 == k2 <==> t1 == t2
    ensures t1 in s.owner && s.owner[t1] in s.workers && s.workers[s.owner[t1]].key == k1
  {
    CoreHolds(sink, clock, acts);
  }
}
