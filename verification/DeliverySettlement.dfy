/** Two accepts of one message lie a retention apart, although readings are taken
    before the lock and may be applied out of order; and every claim is settled
    by exactly one call. */
module DeliverySettlement {
  import opened Wrappers
  import opened Dedup
  import opened Delivery
  import opened DeliverySafety

  // ---- Accepts of one key are a retention apart ---------------------------

  /** An accept still shows in the store, or its retention is over. */
  ghost predicate Expiring(s: State)
  {
    forall l :: 0 <= l < |s.log| && AcceptAt(s.log, l, s.log[l].key) ==>
      || (s.log[l].key in s.store && s.store[s.log[l].key] == Accepted(s.log[l].now + RETENTION))
      || s.log[l].now + RETENTION <= s.clock
  }

  /** Whoever read the clock to accept under the current lease read it after the
      retention of every earlier accept of the key. */
  ghost predicate ReadLate(s: State)
  {
    forall w, l ::
      && w in s.workers && s.workers[w].pc.AcceptRead?
      && s.workers[w].key in s.store && s.store[s.workers[w].key].Held?
      && s.store[s.workers[w].key].token == s.workers[w].pc.token
      && AcceptAt(s.log, l, s.workers[w].key)
      ==> s.log[l].now + RETENTION <= s.workers[w].pc.now
  }

  ghost predicate Apart(log: seq<Event>)
  {
    forall i, j :: 0 <= i < j < |log| && AcceptAt(log, j, log[j].key) && AcceptAt(log, i, log[j].key) ==>
      log[i].now + RETENTION <= log[j].now
  }

  ghost predicate Spaced(s: State)
  {
    Expiring(s) && ReadLate(s) && Apart(s.log)
  }

  /** An accepted entry leaves the store only once its retention is over. */
  lemma AcceptedUntilExpiry(s: State, a: Action, k: Key)
    requires Enabled(s, a) && Read(s) && !a.Tick? && !a.Arrive?
    requires k in s.store && s.store[k].Accepted?
    ensures var e := WorkerEffect(s, a);
            (k in e.store && e.store[k] == s.store[k]) || s.store[k].until <= s.clock
  {
  }

  /** An accept is logged exactly when it turns the actor's held entry. */
  lemma AcceptTurnsHeld(s: State, a: Action, i: int)
    requires Enabled(s, a) && !a.Tick? && !a.Arrive?
    requires |s.log| <= i < |Step(s, a).log| && AcceptAt(Step(s, a).log, i, Step(s, a).log[i].key)
    ensures var e, me := WorkerEffect(s, a), s.workers[a.w];
            var said := Step(s, a).log[i];
            && i == |s.log| && said.key == me.key && me.pc.AcceptRead? && said.now == me.pc.now
            && me.key in s.store && s.store[me.key].Held? && s.store[me.key].token == me.pc.token
            && e.store == s.store[me.key := Accepted(said.now + RETENTION)]
  {
    assert Step(s, a).log[i] == WorkerEffect(s, a).said[i - |s.log|];
  }

  lemma KeepsExpiring(s: State, a: Action)
    requires Enabled(s, a) && Read(s) && Expiring(s) && !a.Tick? && !a.Arrive?
    ensures Expiring(Step(s, a))
  {
    var s' := Step(s, a);
    forall l | 0 <= l < |s'.log| && AcceptAt(s'.log, l, s'.log[l].key)
      ensures (s'.log[l].key in s'.store && s'.store[s'.log[l].key] == Accepted(s'.log[l].now + RETENTION))
              || s'.log[l].now + RETENTION <= s'.clock
    {
      var k := s'.log[l].key;
      if l < |s.log| {
        assert s'.log[l] == s.log[l] && AcceptAt(s.log, l, k);
        if k in s.store && s.store[k].Accepted? {
          AcceptedUntilExpiry(s, a, k);
        }
      } else {
        AcceptTurnsHeld(s, a, l);
      }
    }
  }

  lemma KeepsApart(s: State, a: Action)
    requires Enabled(s, a) && ReadLate(s) && Apart(s.log) && !a.Tick? && !a.Arrive?
    ensures Apart(Step(s, a).log)
  {
    var log := Step(s, a).log;
    forall i, j | 0 <= i < j < |log| && AcceptAt(log, j, log[j].key) && AcceptAt(log, i, log[j].key)
      ensures log[i].now + RETENTION <= log[j].now
    {
      if j < |s.log| {
        assert log[i] == s.log[i] && log[j] == s.log[j];
        assert AcceptAt(s.log, j, s.log[j].key) && AcceptAt(s.log, i, s.log[j].key);
      } else {
        AcceptTurnsHeld(s, a, j);
        assert log[i] == s.log[i] && AcceptAt(s.log, i, s.workers[a.w].key);
      }
    }
  }

  /** A delivery that now stands before its accept under the current lease stood
      there before, or has just read the clock. */
  lemma AcceptReadStays(s: State, a: Action, w: nat)
    requires Enabled(s, a) && Owned(s) && !a.Tick? && !a.Arrive?
    requires var s' := Step(s, a);
             && w in s'.workers && s'.workers[w].pc.AcceptRead?
             && s'.workers[w].key in s'.store && s'.store[s'.workers[w].key].Held?
             && s'.store[s'.workers[w].key].token == s'.workers[w].pc.token
    ensures var s' := Step(s, a);
            && w in s.workers && s'.workers[w].key == s.workers[w].key
            && s.workers[w].key in s.store && s.store[s.workers[w].key] == s'.store[s.workers[w].key]
            && (s'.workers[w] == s.workers[w] || s'.workers[w].pc.now == s.clock)
  {
    EffectsAreProper(s, a);
  }

  lemma KeepsReadLate(s: State, a: Action)
    requires Enabled(s, a) && Owned(s) && Expiring(s) && ReadLate(s) && !a.Tick? && !a.Arrive?
    ensures ReadLate(Step(s, a))
  {
    var s' := Step(s, a);
    forall w, l |
      && w in s'.workers && s'.workers[w].pc.AcceptRead?
      && s'.workers[w].key in s'.store && s'.store[s'.workers[w].key].Held?
      && s'.store[s'.workers[w].key].token == s'.workers[w].pc.token
      && AcceptAt(s'.log, l, s'.workers[w].key)
      ensures s'.log[l].now + RETENTION <= s'.workers[w].pc.now
    {
      AcceptReadStays(s, a, w);
      if l >= |s.log| {
        AcceptTurnsHeld(s, a, l);
        assert false;
      }
      assert s'.log[l] == s.log[l] && AcceptAt(s.log, l, s.workers[w].key);
    }
  }

  lemma {:induction false} SpacedHolds(sink: Sink, clock: Instant, acts: seq<Action>)
    requires Execute(sink, clock, acts).Some?
    ensures Spaced(Execute(sink, clock, acts).value)
    decreases |acts|
  {
    if acts != [] {
      var before, a := acts[..|acts| - 1], acts[|acts| - 1];
      SpacedHolds(sink, clock, before);
      CoreHolds(sink, clock, before);
      var s := Execute(sink, clock, before).value;
      if !a.Tick? && !a.Arrive? {
        KeepsExpiring(s, a);
        KeepsApart(s, a);
        KeepsReadLate(s, a);
      }
    }
  }

  /** In every run, the readings of two successful accepts of one key are at
      least RETENTION apart, whatever order readings were applied in. */
  lemma AcceptsAreSpaced(sink: Sink, clock: Instant, acts: seq<Action>, s: State, i: nat, j: nat)
    requires Execute(sink, clock, acts) == Some(s)
    requires i < j < |s.log| && AcceptAt(s.log, i, s.log[j].key) && AcceptAt(s.log, j, s.log[j].key)
    ensures s.log[i].now + RETENTION <= s.log[j].now
  {
    SpacedHolds(sink, clock, acts);
  }

  // ---- One settlement per claim -------------------------------------------

  datatype Kind = Obtained | AcceptCall | AbandonCall | AuditOk

  predicate Is(e: Event, w: nat, kind: Kind)
  {
    e.w == w && match kind {
      case Obtained => e.ClaimAnswered? && e.claim.Success? && e.claim.value.Claimed?
      case AcceptCall => e.Settled? && e.accept
      case AbandonCall => e.Settled? && !e.accept
      case AuditOk => e.AuditReturned? && e.ok
    }
  }

  function Count(log: seq<Event>, w: nat, kind: Kind): nat
  {
    if log == [] then 0
    else Count(log[..|log| - 1], w, kind) + if Is(log[|log| - 1], w, kind) then 1 else 0
  }

  lemma {:induction false} CountOfOthers(log: seq<Event>, said: seq<Event>, w: nat, kind: Kind)
    requires forall i :: 0 <= i < |said| ==> !Is(said[i], w, kind)
    ensures Count(log + said, w, kind) == Count(log, w, kind)
    decreases |said|
  {
    if said == [] {
      assert log + said == log;
    } else {
      CountOfOthers(log, said[..|said| - 1], w, kind);
      assert (log + said)[..|log + said| - 1] == log + said[..|said| - 1];
    }
  }

  /** Only the first thing said by a step is counted. */
  lemma CountOfFirst(log: seq<Event>, said: seq<Event>, w: nat, kind: Kind)
    requires said != [] && forall i :: 1 <= i < |said| ==> !Is(said[i], w, kind)
    ensures Count(log + said, w, kind) == Count(log, w, kind) + if Is(said[0], w, kind) then 1 else 0
  {
    var one := log + [said[0]];
    assert one[..|one| - 1] == log;
    CountOfOthers(one, said[1..], w, kind);
    assert log + said == one + said[1..];
  }

  lemma {:induction false} CountsBoth(log: seq<Event>, i: nat, j: nat, w: nat, kind: Kind, kind': Kind)
    requires i < j < |log| && Is(log[i], w, kind) && Is(log[j], w, kind')
    ensures Count(log, w, kind) >= 1 && Count(log, w, kind') >= 1
    ensures kind == kind' ==> Count(log, w, kind) >= 2
    decreases |log|
  {
    var before := log[..|log| - 1];
    if j < |log| - 1 {
      CountsBoth(before, i, j, w, kind, kind');
    } else {
      CountsOne(before, i, w, kind);
    }
  }

  lemma {:induction false} CountsOne(log: seq<Event>, i: nat, w: nat, kind: Kind)
    requires i < |log| && Is(log[i], w, kind)
    ensures Count(log, w, kind) >= 1
    decreases |log|
  {
    if i < |log| - 1 {
      CountsOne(log[..|log| - 1], i, w, kind);
    }
  }

  /** What a delivery at `pc` has called so far: obtained claims, accept calls,
      abandon calls and audit writes that returned Ok. */
  predicate Tally(pc: Pc, obtained: nat, accepts: nat, abandons: nat, audits: nat)
  {
    match pc
    case Verified | ClaimRead(_) => obtained == accepts == abandons == audits == 0
    case Building(_) | Handling(_) | Signing(_) | Recording(_) | Abandoning(_, _) | AbandonRead(_, _, _) =>
      obtained == 1 && accepts == abandons == audits == 0
    case Accepting(_) | AcceptRead(_, _) => obtained == audits == 1 && accepts == abandons == 0
    case Dropped => accepts + abandons <= obtained <= 1 && accepts <= audits
    case SigningDuplicate | SigningRefusal | Done(_) =>
      accepts + abandons == obtained <= 1 && accepts == audits
  }

  predicate Tallied(log: seq<Event>, w: nat, pc: Pc)
  {
    Tally(pc, Count(log, w, Obtained), Count(log, w, AcceptCall), Count(log, w, AbandonCall), Count(log, w, AuditOk))
  }

  ghost predicate Counted(s: State)
  {
    && (forall w :: w in s.workers ==> Tallied(s.log, w, s.workers[w].pc))
    && (forall w: nat :: w !in s.workers ==> Tallied(s.log, w, Verified))
  }

  /** What a step adds to a count: its first event, if any. */
  function Added(said: seq<Event>, w: nat, kind: Kind): nat
  {
    if said != [] && Is(said[0], w, kind) then 1 else 0
  }

  lemma TallyMoves(s: State, a: Action, obtained: nat, accepts: nat, abandons: nat, audits: nat)
    requires Enabled(s, a) && !a.Tick? && !a.Arrive?
    requires Tally(s.workers[a.w].pc, obtained, accepts, abandons, audits)
    ensures var said := WorkerEffect(s, a).said;
            Tally(WorkerEffect(s, a).pc,
                  obtained + Added(said, a.w, Obtained), accepts + Added(said, a.w, AcceptCall),
                  abandons + Added(said, a.w, AbandonCall), audits + Added(said, a.w, AuditOk))
  {
  }

  lemma OnlyFirstCounts(s: State, a: Action, kind: Kind)
    requires Enabled(s, a) && !a.Tick? && !a.Arrive?
    ensures Count(Step(s, a).log, a.w, kind) == Count(s.log, a.w, kind) + Added(WorkerEffect(s, a).said, a.w, kind)
  {
    var said := WorkerEffect(s, a).said;
    assert forall i :: 1 <= i < |said| ==> said[i].Answered?;
    if said == [] {
      assert s.log + said == s.log;
    } else {
      CountOfFirst(s.log, said, a.w, kind);
    }
  }

  lemma ActorTallied(s: State, a: Action)
    requires Enabled(s, a) && !a.Tick? && !a.Arrive? && Counted(s)
    ensures Tallied(Step(s, a).log, a.w, WorkerEffect(s, a).pc)
  {
    var w := a.w;
    assert Tallied(s.log, w, s.workers[w].pc);
    TallyMoves(s, a, Count(s.log, w, Obtained), Count(s.log, w, AcceptCall),
               Count(s.log, w, AbandonCall), Count(s.log, w, AuditOk));
    OnlyFirstCounts(s, a, Obtained);
    OnlyFirstCounts(s, a, AcceptCall);
    OnlyFirstCounts(s, a, AbandonCall);
    OnlyFirstCounts(s, a, AuditOk);
  }

  lemma OtherTallied(log: seq<Event>, said: seq<Event>, w: nat, pc: Pc)
    requires Tallied(log, w, pc)
    requires forall i :: 0 <= i < |said| ==> said[i].w != w
    ensures Tallied(log + said, w, pc)
  {
    CountOfOthers(log, said, w, Obtained);
    CountOfOthers(log, said, w, AcceptCall);
    CountOfOthers(log, said, w, AbandonCall);
    CountOfOthers(log, said, w, AuditOk);
  }

  lemma KeepsCounted(s: State, a: Action)
    requires Enabled(s, a) && Counted(s)
    ensures Counted(Step(s, a))
  {
    if !a.Tick? && !a.Arrive? {
      ActorTallied(s, a);
      EffectsAreProper(s, a);
      OthersTallied(s, a.w, WorkerEffect(s, a));
    }
  }

  lemma OthersTallied(s: State, actor: nat, e: Effect)
    requires actor in s.workers && Proper(s, actor, e) && Counted(s)
    requires Tallied(s.log + e.said, actor, e.pc)
    ensures Counted(Commit(s, actor, e))
  {
    forall w: nat | w != actor
      ensures Tallied(s.log + e.said, w, if w in s.workers then s.workers[w].pc else Verified)
    {
      OtherTallied(s.log, e.said, w, if w in s.workers then s.workers[w].pc else Verified);
    }
  }

  lemma {:induction false} CountedHolds(sink: Sink, clock: Instant, acts: seq<Action>)
    requires Execute(sink, clock, acts).Some?
    ensures Counted(Execute(sink, clock, acts).value)
    decreases |acts|
  {
    if acts != [] {
      CountedHolds(sink, clock, acts[..|acts| - 1]);
      KeepsCounted(Execute(sink, clock, acts[..|acts| - 1]).value, acts[|acts| - 1]);
    }
  }

  /** Every delivery that ran to its end made exactly one settling call for the
      claim it obtained, and none without one: an accept when its audit write
      returned Ok, an abandon otherwise. */
  lemma EveryClaimSettledOnce(sink: Sink, clock: Instant, acts: seq<Action>, s: State, w: nat)
    requires Execute(sink, clock, acts) == Some(s)
    requires w in s.workers && s.workers[w].pc.Done?
    ensures Count(s.log, w, AcceptCall) + Count(s.log, w, AbandonCall) == Count(s.log, w, Obtained) <= 1
    ensures Count(s.log, w, AcceptCall) == Count(s.log, w, AuditOk)
  {
    CountedHolds(sink, clock, acts);
    assert Tallied(s.log, w, s.workers[w].pc);
  }

  /** Each token is presented for settlement at most once in a run, so it settles
      at most once: an accepted entry is never released, nor another holder's. */
  lemma TokensSettleOnce(sink: Sink, clock: Instant, acts: seq<Action>, s: State, i: nat, j: nat)
    requires Execute(sink, clock, acts) == Some(s)
    requires i < j < |s.log| && s.log[i].Settled? && s.log[j].Settled?
    ensures s.log[i].token != s.log[j].token
  {
    CoreHolds(sink, clock, acts);
    CountedHolds(sink, clock, acts);
    if s.log[i].token == s.log[j].token {
      var w := s.log[i].w;
      assert s.log[j].w == w;
      assert Tallied(s.log, w, s.workers[w].pc);
      var ki := if s.log[i].accept then AcceptCall else AbandonCall;
      var kj := if s.log[j].accept then AcceptCall else AbandonCall;
      CountsBoth(s.log, i, j, w, ki, kj);
    }
  }
}
