/** What a delivery is answered, read off the log of the run alone. */
module DeliveryReplies {
  import opened Wrappers
  import opened Dedup
  import opened Delivery
  import opened DeliverySafety

  // ---- What the log says of one delivery -----------------------------------------

  ghost predicate AcceptSucceeded(log: seq<Event>, w: nat)
  {
    exists i :: 0 <= i < |log| && log[i].Settled? && log[i].w == w && log[i].accept && log[i].ok
  }

  ghost predicate ClaimTold(log: seq<Event>, w: nat, claim: Claim)
  {
    exists i :: 0 <= i < |log| && log[i].ClaimAnswered? && log[i].w == w && log[i].claim == Success(claim)
  }

  ghost predicate Signed(log: seq<Event>, w: nat)
  {
    exists i :: 0 <= i < |log| && log[i].SignalSigned? && log[i].w == w && log[i].ok
  }

  ghost predicate HandlerRefused(log: seq<Event>, w: nat)
  {
    exists i :: 0 <= i < |log| && log[i].HandlerReturned? && log[i].w == w && !log[i].ok
  }

  ghost predicate WasAnswered(log: seq<Event>, w: nat, reply: Reply)
  {
    exists i :: 0 <= i < |log| && log[i].Answered? && log[i].w == w && log[i].reply == reply
  }

  // ---- The same, event by event -----------------------------------------------------

  datatype Trace = Trace(
    accepted: bool, duplicate: bool, inFlight: bool, signed: bool, refused: bool, answers: set<Reply>)

  const Blank := Trace(false, false, false, false, false, {})

  function Mark(t: Trace, e: Event, w: nat): Trace
  {
    if e.w != w then t
    else match e
      case ClaimAnswered(_, _, _, Success(Duplicate)) => t.(duplicate := true)
      case ClaimAnswered(_, _, _, Success(InFlight)) => t.(inFlight := true)
      case HandlerReturned(_, _, false) => t.(refused := true)
      case SignalSigned(_, _, true) => t.(signed := true)
      case Settled(_, _, _, true, _, true) => t.(accepted := true)
      case Answered(_, _, reply) => t.(answers := t.answers + {reply})
      case _ => t
  }

  function TraceOf(log: seq<Event>, w: nat): Trace
  {
    if log == [] then Blank else Mark(TraceOf(log[..|log| - 1], w), log[|log| - 1], w)
  }

  lemma TraceGrows(log: seq<Event>, e: Event, w: nat)
    ensures TraceOf(log + [e], w) == Mark(TraceOf(log, w), e, w)
  {
    assert (log + [e])[..|log|] == log;
  }

  /** The trace says exactly what the log does. */
  ghost predicate Tells(t: Trace, log: seq<Event>, w: nat)
  {
    && (t.accepted <==> AcceptSucceeded(log, w))
    && (t.duplicate <==> ClaimTold(log, w, Duplicate))
    && (t.inFlight <==> ClaimTold(log, w, InFlight))
    && (t.signed <==> Signed(log, w))
    && (t.refused <==> HandlerRefused(log, w))
    && (forall r :: r in t.answers <==> WasAnswered(log, w, r))
  }

  lemma {:induction false} TraceTells(log: seq<Event>, w: nat)
    ensures Tells(TraceOf(log, w), log, w)
  {
    if log != [] {
      var n := |log| - 1;
      TraceTells(log[..n], w);
      TellsOneMore(TraceOf(log[..n], w), log, w);
    }
  }

  lemma TellsOneMore(t: Trace, log: seq<Event>, w: nat)
    requires log != [] && Tells(t, log[..|log| - 1], w)
    ensures Tells(Mark(t, log[|log| - 1], w), log, w)
  {
    var n := |log| - 1;
    AcceptOneMore(log, w);
    ClaimOneMore(log, w, Duplicate);
    ClaimOneMore(log, w, InFlight);
    SignedOneMore(log, w);
    RefusedOneMore(log, w);
    forall r ensures WasAnswered(log, w, r) <==>
                       WasAnswered(log[..n], w, r) || (log[n].Answered? && log[n].w == w && log[n].reply == r) {
      AnsweredOneMore(log, w, r);
    }
    hide AcceptSucceeded, ClaimTold, Signed, HandlerRefused, WasAnswered;
  }

  lemma AcceptOneMore(log: seq<Event>, w: nat)
    requires log != []
    ensures var e := log[|log| - 1];
            AcceptSucceeded(log, w) <==>
              AcceptSucceeded(log[..|log| - 1], w) || (e.Settled? && e.w == w && e.accept && e.ok)
  {
    if i :| 0 <= i < |log| - 1 && log[i].Settled? && log[i].w == w && log[i].accept && log[i].ok {
      assert log[..|log| - 1][i] == log[i];
    }
  }

  lemma ClaimOneMore(log: seq<Event>, w: nat, claim: Claim)
    requires log != []
    ensures var e := log[|log| - 1];
            ClaimTold(log, w, claim) <==>
              ClaimTold(log[..|log| - 1], w, claim) || (e.ClaimAnswered? && e.w == w && e.claim == Success(claim))
  {
    if i :| 0 <= i < |log| - 1 && log[i].ClaimAnswered? && log[i].w == w && log[i].claim == Success(claim) {
      assert log[..|log| - 1][i] == log[i];
    }
  }

  lemma SignedOneMore(log: seq<Event>, w: nat)
    requires log != []
    ensures var e := log[|log| - 1];
            Signed(log, w) <==> Signed(log[..|log| - 1], w) || (e.SignalSigned? && e.w == w && e.ok)
  {
    if i :| 0 <= i < |log| - 1 && log[i].SignalSigned? && log[i].w == w && log[i].ok {
      assert log[..|log| - 1][i] == log[i];
    }
  }

  lemma RefusedOneMore(log: seq<Event>, w: nat)
    requires log != []
    ensures var e := log[|log| - 1];
            HandlerRefused(log, w) <==> HandlerRefused(log[..|log| - 1], w) || (e.HandlerReturned? && e.w == w && !e.ok)
  {
    if i :| 0 <= i < |log| - 1 && log[i].HandlerReturned? && log[i].w == w && !log[i].ok {
      assert log[..|log| - 1][i] == log[i];
    }
  }

  lemma AnsweredOneMore(log: seq<Event>, w: nat, r: Reply)
    requires log != []
    ensures var e := log[|log| - 1];
            WasAnswered(log, w, r) <==> WasAnswered(log[..|log| - 1], w, r) || (e.Answered? && e.w == w && e.reply == r)
  {
    if i :| 0 <= i < |log| - 1 && log[i].Answered? && log[i].w == w && log[i].reply == r {
      assert log[..|log| - 1][i] == log[i];
    }
  }

  // ---- What a trace shows where a delivery stands --------------------------------------

  /** The reply a finished delivery's trace calls for. */
  function Called(t: Trace, protocol: Protocol, test: bool): Reply
  {
    if test && t.signed then TestReceipt
    else if t.accepted then Positive
    else if t.duplicate && t.signed then DuplicateReply
    else if t.inFlight then RetryLater
    else if t.refused && (protocol == As4 || t.signed) then Refused
    else BackendFailure
  }

  /** At most one of the reasons for an answer holds. */
  predicate OneReason(t: Trace, test: bool)
  {
    && (test ==> !t.accepted && !t.duplicate && !t.inFlight && !t.refused)
    && (t.accepted ==> !t.duplicate && !t.inFlight && !t.refused)
    && (t.duplicate ==> !t.inFlight && !t.refused)
    && (t.inFlight ==> !t.refused)
  }

  predicate Stands(t: Trace, me: Worker)
  {
    match me.pc
    case Verified => t == Blank
    case ClaimRead(_) | Building(_) | Handling(_) | Signing(_) => t == Blank && !me.test
    case Recording(_) | Accepting(_) | AcceptRead(_, _) => t == Blank.(signed := true) && !me.test
    case Abandoning(_, after) => AbandonStands(t, after) && !me.test
    case AbandonRead(_, _, after) => AbandonStands(t, after) && !me.test
    case SigningDuplicate => t == Blank.(duplicate := true) && !me.test
    case SigningRefusal => t == Blank.(refused := true) && !me.test && me.protocol == As2
    case Done(reply) => OneReason(t, me.test) && t.answers == {reply} && reply == Called(t, me.protocol, me.test)
    case Dropped => t.answers == {}
  }

  predicate AbandonStands(t: Trace, after: After)
  {
    match after
    case FailBackend => t == Blank || t == Blank.(signed := true)
    case Refuse => t == Blank.(refused := true)
  }

  ghost predicate AllStand(s: State)
  {
    && (forall w :: w in s.workers ==> Stands(TraceOf(s.log, w), s.workers[w]))
    && (forall w :: w !in s.workers ==> TraceOf(s.log, w) == Blank)
  }

  // ---- Every step keeps it --------------------------------------------------------------

  /** The trace after what a step said: at most two events. */
  function Marks(t: Trace, said: seq<Event>, w: nat): Trace
  {
    if said == [] then t
    else if |said| == 1 then Mark(t, said[0], w)
    else Mark(Mark(t, said[0], w), said[1], w)
  }

  lemma TraceAfter(log: seq<Event>, said: seq<Event>, w: nat)
    requires |said| <= 2
    ensures TraceOf(log + said, w) == Marks(TraceOf(log, w), said, w)
  {
    if said == [] {
      assert log + said == log;
    } else if |said| == 1 {
      assert said == [said[0]];
      TraceGrows(log, said[0], w);
    } else {
      TraceGrows(log, said[0], w);
      TraceGrows(log + [said[0]], said[1], w);
      assert log + said == log + [said[0]] + [said[1]];
    }
  }

  lemma ClaimStands(s: State, w: nat, drawn: Option<Token>, t: Trace)
    requires w in s.workers && s.workers[w].pc.ClaimRead? && Stands(t, s.workers[w])
    ensures var e := ClaimEffect(s, w, s.workers[w], drawn);
            |e.said| <= 2 && Stands(Marks(t, e.said, w), s.workers[w].(pc := e.pc))
  {
    hide Purge;
  }

  lemma SignStands(s: State, w: nat, ok: bool, t: Trace)
    requires w in s.workers && Enabled(s, Sign(w, ok)) && Stands(t, s.workers[w])
    ensures var e := SignEffect(s, w, s.workers[w], ok);
            |e.said| <= 2 && Stands(Marks(t, e.said, w), s.workers[w].(pc := e.pc))
  {
  }

  lemma SettleStands(s: State, w: nat, t: Trace)
    requires w in s.workers && Enabled(s, LockSettle(w)) && Stands(t, s.workers[w])
    ensures var e := SettleEffect(s, w, s.workers[w]);
            |e.said| <= 2 && Stands(Marks(t, e.said, w), s.workers[w].(pc := e.pc))
  {
    hide SettleAt;
  }

  lemma ActorStands(s: State, a: Action, t: Trace)
    requires Enabled(s, a) && !a.Tick? && !a.Arrive? && Stands(t, s.workers[a.w])
    ensures var e := WorkerEffect(s, a);
            |e.said| <= 2 && Stands(Marks(t, e.said, a.w), s.workers[a.w].(pc := e.pc))
  {
    hide ClaimEffect, SignEffect, SettleEffect;
    match a
    case LockClaim(w, drawn) => ClaimStands(s, w, drawn, t);
    case Sign(w, ok) => SignStands(s, w, ok, t);
    case LockSettle(w) => SettleStands(s, w, t);
    case _ =>
  }

  lemma OthersUnmarked(said: seq<Event>, actor: nat, w: nat, t: Trace)
    requires |said| <= 2 && w != actor && forall i :: 0 <= i < |said| ==> said[i].w == actor
    ensures Marks(t, said, w) == t
  {
  }

  lemma KeepsStanding(s: State, a: Action)
    requires Enabled(s, a) && AllStand(s)
    ensures AllStand(Step(s, a))
  {
    if !a.Tick? && !a.Arrive? {
      var e, s' := WorkerEffect(s, a), Step(s, a);
      EffectsAreProper(s, a);
      ActorStands(s, a, TraceOf(s.log, a.w));
      assert forall i :: 0 <= i < |e.said| ==> e.said[i].w == a.w;
      assert s'.log == s.log + e.said;
      forall w ensures TraceOf(s'.log, w) == if w == a.w then Marks(TraceOf(s.log, w), e.said, w) else TraceOf(s.log, w)
      {
        TraceAfter(s.log, e.said, w);
        if w != a.w { OthersUnmarked(e.said, a.w, w, TraceOf(s.log, w)); }
      }
      hide Stands, WorkerEffect, TraceOf, Marks, Proper;
    }
  }

  lemma {:induction false} StandingHolds(sink: Sink, clock: Instant, acts: seq<Action>)
    requires Execute(sink, clock, acts).Some?
    ensures AllStand(Execute(sink, clock, acts).value)
    decreases |acts|
  {
    if acts != [] {
      StandingHolds(sink, clock, acts[..|acts| - 1]);
      hide AllStand;
      KeepsStanding(Execute(sink, clock, acts[..|acts| - 1]).value, acts[|acts| - 1]);
    }
  }

  // ---- The reply is determined by the log --------------------------------------------------

  /** In every run, what a finished delivery answered is what its own events call for,
      and it answered once: a positive answer exactly when its own accept succeeded, a
      duplicate answer exactly when its claim was told Duplicate and the answer signed,
      503 exactly when its claim was told InFlight, a refusal exactly when its handler
      refused and, in AS2, the refusal was signed, a test receipt exactly for a signed
      test, and a backend failure in every other case. */
  lemma RepliesAreDetermined(sink: Sink, clock: Instant, acts: seq<Action>, s: State, w: nat)
    requires Execute(sink, clock, acts) == Some(s)
    requires w in s.workers && s.workers[w].pc.Done?
    ensures var reply, me := s.workers[w].pc.reply, s.workers[w];
            && (forall r :: WasAnswered(s.log, w, r) <==> r == reply)
            && (reply == Positive <==> AcceptSucceeded(s.log, w))
            && (reply == DuplicateReply <==> ClaimTold(s.log, w, Duplicate) && Signed(s.log, w))
            && (reply == RetryLater <==> ClaimTold(s.log, w, InFlight))
            && (reply == Refused <==> HandlerRefused(s.log, w) && (me.protocol == As4 || Signed(s.log, w)))
            && (reply == TestReceipt <==> me.test && Signed(s.log, w))
            && (reply == BackendFailure <==>
                  && !AcceptSucceeded(s.log, w) && !ClaimTold(s.log, w, InFlight)
                  && !(ClaimTold(s.log, w, Duplicate) && Signed(s.log, w))
                  && !(HandlerRefused(s.log, w) && (me.protocol == As4 || Signed(s.log, w)))
                  && !(me.test && Signed(s.log, w)))
  {
    StandingHolds(sink, clock, acts);
    TraceTells(s.log, w);
    hide TraceOf, AcceptSucceeded, ClaimTold, Signed, HandlerRefused, WasAnswered, Execute;
  }

  /** And no answer without a delivery that is done. */
  lemma OnlyTheDoneAnswer(sink: Sink, clock: Instant, acts: seq<Action>, s: State, w: nat, reply: Reply)
    requires Execute(sink, clock, acts) == Some(s)
    ensures WasAnswered(s.log, w, reply) <==> w in s.workers && s.workers[w].pc == Done(reply)
  {
    StandingHolds(sink, clock, acts);
    TraceTells(s.log, w);
    hide TraceOf, AcceptSucceeded, ClaimTold, Signed, HandlerRefused, WasAnswered, Execute;
  }
}
