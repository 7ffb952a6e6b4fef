/** Decryption with external, asynchronous keys on a synchronous seam
    (src/as4/inbound.rs): a first pass records the key operations it cannot answer,
    they are awaited, and a second pass runs with the answers. */
module TwoPass {
  import opened Wrappers

  type Op = string
  type Secret = string

  /** A key operation asked of an external decrypter. */
  datatype Request = Request(index: nat, op: Op)

  datatype Move<R> = Return(result: R) | Ask(index: nat, op: Op)

  /** Opening a message, as the decision tree of its key operations: what it does
      next depends on the secrets and uniform failures it has heard so far, and it
      asks at most `depth` times. */
  datatype Opening<!R> = Opening(next: seq<Option<Secret>> -> Move<R>, depth: nat)
  {
    ghost predicate Ends()
    {
      forall heard: seq<Option<Secret>> :: |heard| >= depth ==> next(heard).Return?
    }
  }

  /** The configured decrypters: which are in the process, what these answer, the
      form in which an operation can leave the process, and what the external ones
      answer. */
  datatype Keys = Keys(
    isLocal: nat -> bool,
    local: (nat, Op) -> Option<Secret>,
    publicForm: Op -> Option<Op>,
    external: Request -> Option<Secret>)

  type Answers = map<Request, Option<Secret>>

  /** The external request an operation makes, if any. */
  function RequestOf(keys: Keys, index: nat, op: Op): Option<Request>
  {
    if keys.isLocal(index) then None
    else match keys.publicForm(op)
      case None => None
      case Some(p) => Some(Request(index, p))
  }

  /** The answer when no external request is made. */
  function OwnAnswer(keys: Keys, index: nat, op: Op): Option<Secret>
  {
    if keys.isLocal(index) then keys.local(index, op) else None
  }

  // ---- The direct run ----------------------------------------------------------------

  /** External decrypters answer at once. */
  function Direct<R>(o: Opening<R>, keys: Keys, heard: seq<Option<Secret>> := []): R
    requires o.Ends()
    decreases o.depth - |heard|
  {
    match o.next(heard)
    case Return(r) => r
    case Ask(index, op) =>
      match RequestOf(keys, index, op)
      case Some(q) => Direct(o, keys, heard + [keys.external(q)])
      case None => Direct(o, keys, heard + [OwnAnswer(keys, index, op)])
  }

  /** The external requests the direct run makes, in order. */
  function DirectRequests<R>(o: Opening<R>, keys: Keys, heard: seq<Option<Secret>> := []): seq<Request>
    requires o.Ends()
    decreases o.depth - |heard|
  {
    match o.next(heard)
    case Return(_) => []
    case Ask(index, op) =>
      match RequestOf(keys, index, op)
      case Some(q) => [q] + DirectRequests(o, keys, heard + [keys.external(q)])
      case None => DirectRequests(o, keys, heard + [OwnAnswer(keys, index, op)])
  }

  // ---- One pass, and two ---------------------------------------------------------------

  /** What a key operation hears in a pass with some answers, and the request it
      leaves open: an unanswered request fails like any other. */
  datatype Reply = Reply(secret: Option<Secret>, open: seq<Request>)

  function Decrypt(keys: Keys, answers: Answers, index: nat, op: Op): Reply
  {
    match RequestOf(keys, index, op)
    case None => Reply(OwnAnswer(keys, index, op), [])
    case Some(q) => if q in answers then Reply(answers[q], []) else Reply(None, [q])
  }

  /** A pass with some answers: the result and the requests it had none for. */
  function Pass<R>(o: Opening<R>, keys: Keys, answers: Answers, heard: seq<Option<Secret>> := []): (R, seq<Request>)
    requires o.Ends()
    decreases o.depth - |heard|
  {
    match o.next(heard)
    case Return(r) => (r, [])
    case Ask(index, op) =>
      var reply := Decrypt(keys, answers, index, op);
      var (r, pending) := Pass(o, keys, answers, heard + [reply.secret]);
      (r, reply.open + pending)
  }

  /** The answers to the awaited requests. */
  function Await(keys: Keys, pending: seq<Request>): (a: Answers)
    ensures forall q :: q in a <==> q in pending
    ensures forall q :: q in a ==> a[q] == keys.external(q)
  {
    map q | q in pending :: keys.external(q)
  }

  function RunTwice<R>(o: Opening<R>, keys: Keys): R
    requires o.Ends()
  {
    var (first, pending) := Pass(o, keys, map[]);
    if pending == [] then first else Pass(o, keys, Await(keys, pending)).0
  }

  /** `open_inbound` over the synchronous seam: `Deferred::decrypt` answers from the
      previous pass or records the request and fails. */
  method RunPass<R>(o: Opening<R>, keys: Keys, answers: Answers) returns (result: R, pending: seq<Request>)
    requires o.Ends()
    ensures result == Pass(o, keys, answers).0 && pending == Pass(o, keys, answers).1
  {
    pending := [];
    var heard: seq<Option<Secret>> := [];
    var move := o.next(heard);
    hide Pass, Decrypt;
    while move.Ask?
      invariant move == o.next(heard)
      invariant PassUnderWay(o, keys, answers, heard, pending)
      decreases o.depth - |heard|
    {
      var reply := Decrypt(keys, answers, move.index, move.op);
      PassGoesOn(o, keys, answers, heard, pending);
      pending := pending + reply.open;
      heard := heard + [reply.secret];
      move := o.next(heard);
    }
    PassReturns(o, keys, answers, heard);
    result := move.result;
  }

  /** What a pass that has heard these answers still owes to the whole pass. */
  ghost predicate PassUnderWay<R>(o: Opening<R>, keys: Keys, answers: Answers, heard: seq<Option<Secret>>,
                                  pending: seq<Request>)
    requires o.Ends()
  {
    && Pass(o, keys, answers).0 == Pass(o, keys, answers, heard).0
    && Pass(o, keys, answers).1 == pending + Pass(o, keys, answers, heard).1
  }

  lemma PassGoesOn<R>(o: Opening<R>, keys: Keys, answers: Answers, heard: seq<Option<Secret>>, pending: seq<Request>)
    requires o.Ends() && o.next(heard).Ask? && PassUnderWay(o, keys, answers, heard, pending)
    ensures var reply := Decrypt(keys, answers, o.next(heard).index, o.next(heard).op);
            PassUnderWay(o, keys, answers, heard + [reply.secret], pending + reply.open)
  {
    var reply := Decrypt(keys, answers, o.next(heard).index, o.next(heard).op);
    PassUnrolls(o, keys, answers, heard);
    hide Pass, Decrypt;
    var more := Pass(o, keys, answers, heard + [reply.secret]).1;
    assert pending + (reply.open + more) == pending + reply.open + more;
  }

  lemma PassUnrolls<R>(o: Opening<R>, keys: Keys, answers: Answers, heard: seq<Option<Secret>>)
    requires o.Ends() && o.next(heard).Ask?
    ensures var reply := Decrypt(keys, answers, o.next(heard).index, o.next(heard).op);
            && Pass(o, keys, answers, heard).0 == Pass(o, keys, answers, heard + [reply.secret]).0
            && Pass(o, keys, answers, heard).1 == reply.open + Pass(o, keys, answers, heard + [reply.secret]).1
  {
    hide Decrypt;
  }

  lemma PassReturns<R>(o: Opening<R>, keys: Keys, answers: Answers, heard: seq<Option<Secret>>)
    requires o.Ends() && o.next(heard).Return?
    ensures Pass(o, keys, answers, heard).0 == o.next(heard).result && Pass(o, keys, answers, heard).1 == []
  {
  }

  /** The two-pass loop of `verify`: it returns on its second pass at the latest. */
  method Open<R(!new)>(o: Opening<R>, keys: Keys) returns (result: R)
    requires o.Ends()
    ensures result == RunTwice(o, keys)
    ensures forall whole | TrueTranscript(o, keys, whole) && o.next(whole).Return? && OneExternal(o, keys, whole) ::
              result == o.next(whole).result
  {
    forall whole | TrueTranscript(o, keys, whole) && o.next(whole).Return? && OneExternal(o, keys, whole)
      ensures RunTwice(o, keys) == o.next(whole).result
    {
      OpensTruly(o, keys, whole);
    }
    var answers: Answers := map[];
    var pass := 0;
    hide Pass, Await;
    while true
      invariant 0 <= pass < 2
      invariant pass == 0 ==> answers == map[]
      invariant pass == 1 ==> var p := Pass(o, keys, map[]).1; p != [] && answers == Await(keys, p)
      decreases 2 - pass
    {
      var r, pending := RunPass(o, keys, answers);
      if pending == [] || pass == 1 {
        return r;
      }
      answers := AwaitAll(keys, pending);
      pass := pass + 1;
    }
  }

  /** The awaits between the passes, one after the other. */
  method AwaitAll(keys: Keys, pending: seq<Request>) returns (answers: Answers)
    ensures answers == Await(keys, pending)
  {
    answers := map[];
    for i := 0 to |pending|
      invariant answers == Await(keys, pending[..i])
    {
      answers := answers[pending[i] := keys.external(pending[i])];
      assert answers == Await(keys, pending[..i + 1]);
    }
    assert pending[..|pending|] == pending;
  }

  // ---- What each decrypter truly answers ------------------------------------------------------

  /** The true answer to a key operation: the local key's own, a failure where the
      operation has no form that can leave the process, and else the external
      decrypter's. */
  predicate TrueAnswer(keys: Keys, index: nat, op: Op, answer: Option<Secret>)
  {
    if keys.isLocal(index) then answer == keys.local(index, op)
    else if keys.publicForm(op).None? then answer == None
    else answer == keys.external(Request(index, keys.publicForm(op).value))
  }

  /** What an opening has heard when every decrypter answered truly. */
  ghost predicate TrueTranscript<R(!new)>(o: Opening<R>, keys: Keys, heard: seq<Option<Secret>>)
  {
    forall i :: 0 <= i < |heard| ==>
      var move := o.next(heard[..i]);
      move.Ask? && TrueAnswer(keys, move.index, move.op, heard[i])
  }

  /** The operation asked after hearing `heard` goes to an external decrypter. */
  ghost predicate AsksExternal<R(!new)>(o: Opening<R>, keys: Keys, heard: seq<Option<Secret>>, q: Request)
  {
    var move := o.next(heard);
    && move.Ask? && !keys.isLocal(move.index) && keys.publicForm(move.op).Some?
    && q == Request(move.index, keys.publicForm(move.op).value)
  }

  /** At most one distinct operation of the transcript goes to external decrypters. */
  ghost predicate OneExternal<R(!new)>(o: Opening<R>, keys: Keys, heard: seq<Option<Secret>>)
  {
    forall i, j, p, q ::
      && 0 <= i < |heard| && AsksExternal(o, keys, heard[..i], p)
      && 0 <= j < |heard| && AsksExternal(o, keys, heard[..j], q)
      ==> p == q
  }

  lemma TranscriptStep<R(!new)>(o: Opening<R>, keys: Keys, heard: seq<Option<Secret>>, answer: Option<Secret>)
    requires TrueTranscript(o, keys, heard) && o.next(heard).Ask?
    requires TrueAnswer(keys, o.next(heard).index, o.next(heard).op, answer)
    ensures TrueTranscript(o, keys, heard + [answer])
  {
    var more := heard + [answer];
    forall i | 0 <= i < |more|
      ensures o.next(more[..i]).Ask? && TrueAnswer(keys, o.next(more[..i]).index, o.next(more[..i]).op, more[i])
    {
      if i < |heard| {
        assert more[..i] == heard[..i];
      } else {
        assert more[..i] == heard;
      }
    }
  }

  /** Every opening has a true transcript that ends. */
  lemma {:induction false} TranscriptEnds<R(!new)>(o: Opening<R>, keys: Keys, heard: seq<Option<Secret>>)
    returns (whole: seq<Option<Secret>>)
    requires o.Ends() && TrueTranscript(o, keys, heard)
    ensures heard <= whole && TrueTranscript(o, keys, whole) && o.next(whole).Return?
    decreases o.depth - |heard|
  {
    var move := o.next(heard);
    if move.Return? {
      whole := heard;
    } else {
      var answer :=
        if keys.isLocal(move.index) then keys.local(move.index, move.op)
        else if keys.publicForm(move.op).None? then None
        else keys.external(Request(move.index, keys.publicForm(move.op).value));
      TranscriptStep(o, keys, heard, answer);
      whole := TranscriptEnds(o, keys, heard + [answer]);
    }
  }

  /** And only one. */
  lemma {:induction false} TranscriptsAgree<R(!new)>(o: Opening<R>, keys: Keys, a: seq<Option<Secret>>,
                                                     b: seq<Option<Secret>>,
                                                   n: nat)
    requires TrueTranscript(o, keys, a) && TrueTranscript(o, keys, b) && n <= |a| && n <= |b|
    ensures a[..n] == b[..n]
    decreases n
  {
    if n > 0 {
      TranscriptsAgree(o, keys, a, b, n - 1);
      assert a[..n - 1] == b[..n - 1];
      assert a[n - 1] == b[n - 1];
      assert a[..n] == a[..n - 1] + [a[n - 1]] && b[..n] == b[..n - 1] + [b[n - 1]];
    }
  }

  lemma OneTranscript<R(!new)>(o: Opening<R>, keys: Keys, a: seq<Option<Secret>>, b: seq<Option<Secret>>)
    requires TrueTranscript(o, keys, a) && o.next(a).Return?
    requires TrueTranscript(o, keys, b) && o.next(b).Return?
    ensures a == b
  {
    NotLonger(o, keys, a, b);
    NotLonger(o, keys, b, a);
    TranscriptsAgree(o, keys, a, b, |a|);
    assert a[..|a|] == a && b[..|b|] == b;
  }

  lemma NotLonger<R(!new)>(o: Opening<R>, keys: Keys, a: seq<Option<Secret>>, b: seq<Option<Secret>>)
    requires TrueTranscript(o, keys, a) && o.next(a).Return? && TrueTranscript(o, keys, b)
    ensures |b| <= |a|
  {
    assert a[..|a|] == a;
    if |a| < |b| {
      TranscriptsAgree(o, keys, a, b, |a|);
      assert false;
    }
  }

  /** The direct run gives what the opening gives on its true transcript. */
  lemma DirectIsTrue<R(!new)>(o: Opening<R>, keys: Keys, whole: seq<Option<Secret>>)
    requires o.Ends() && TrueTranscript(o, keys, whole) && o.next(whole).Return?
    ensures Direct(o, keys) == o.next(whole).result
    ensures forall q :: q in DirectRequests(o, keys) ==>
              exists i :: 0 <= i < |whole| && AsksExternal(o, keys, whole[..i], q)
  {
    DirectFollows(o, keys, whole, 0);
    assert whole[..0] == [];
  }

  lemma {:induction false} DirectFollows<R(!new)>(o: Opening<R>, keys: Keys, whole: seq<Option<Secret>>, n: nat)
    requires o.Ends() && TrueTranscript(o, keys, whole) && o.next(whole).Return? && n <= |whole|
    ensures Direct(o, keys, whole[..n]) == o.next(whole).result
    ensures forall q :: q in DirectRequests(o, keys, whole[..n]) ==>
              exists i :: 0 <= i < |whole| && AsksExternal(o, keys, whole[..i], q)
    decreases |whole| - n
  {
    if n == |whole| {
      assert whole[..n] == whole;
    } else {
      DirectFollows(o, keys, whole, n + 1);
      var move := o.next(whole[..n]);
      assert TrueAnswer(keys, move.index, move.op, whole[n]);
      assert whole[..n + 1] == whole[..n] + [whole[n]];
      DirectUnrolls(o, keys, whole[..n], whole[n]);
      hide Direct, DirectRequests, TrueAnswer, TrueTranscript;
      assert forall q :: AsksExternal(o, keys, whole[..n], q) ==>
               exists i :: 0 <= i < |whole| && AsksExternal(o, keys, whole[..i], q);
    }
  }

  lemma DirectUnrolls<R(!new)>(o: Opening<R>, keys: Keys, heard: seq<Option<Secret>>, answer: Option<Secret>)
    requires o.Ends() && o.next(heard).Ask? && TrueAnswer(keys, o.next(heard).index, o.next(heard).op, answer)
    ensures Direct(o, keys, heard) == Direct(o, keys, heard + [answer])
    ensures forall q :: q in DirectRequests(o, keys, heard) ==>
              AsksExternal(o, keys, heard, q) || q in DirectRequests(o, keys, heard + [answer])
  {
  }

  /** So two passes give what the opening gives when every decrypter answers truly,
      whenever at most one distinct operation goes to external decrypters. */
  lemma OpensTruly<R(!new)>(o: Opening<R>, keys: Keys, whole: seq<Option<Secret>>)
    requires o.Ends() && TrueTranscript(o, keys, whole) && o.next(whole).Return? && OneExternal(o, keys, whole)
    ensures RunTwice(o, keys) == o.next(whole).result
  {
    DirectIsTrue(o, keys, whole);
    hide RunTwice, DirectRequests, Direct, AsksExternal;
    OneRequestSuffices(o, keys);
  }

  // ---- The second pass against the direct run ---------------------------------------------

  /** Answers that are what the external decrypters say. */
  ghost predicate Truthful(answers: Answers, keys: Keys)
  {
    forall q :: q in answers ==> answers[q] == keys.external(q)
  }

  /** With truthful answers a pass leaves no request open exactly when every
      external request of the direct run is answered; then it is the direct run. */
  lemma {:induction false} PassIsDirect<R>(o: Opening<R>, keys: Keys, answers: Answers, heard: seq<Option<Secret>>)
    requires o.Ends() && Truthful(answers, keys)
    ensures Pass(o, keys, answers, heard).1 == [] <==> forall q :: q in DirectRequests(o, keys, heard) ==> q in answers
    ensures Pass(o, keys, answers, heard).1 == [] ==> Pass(o, keys, answers, heard).0 == Direct(o, keys, heard)
    decreases o.depth - |heard|
  {
    var move := o.next(heard);
    if move.Ask? {
      match RequestOf(keys, move.index, move.op)
      case None => PassIsDirect(o, keys, answers, heard + [OwnAnswer(keys, move.index, move.op)]);
      case Some(q) =>
        assert q in DirectRequests(o, keys, heard);
        PassIsDirect(o, keys, answers, heard + [keys.external(q)]);
    }
  }

  /** Until its first external request a first pass is the direct run: it makes
      none, or the same first one. */
  lemma {:induction false} FirstRequestIsRecorded<R>(o: Opening<R>, keys: Keys, heard: seq<Option<Secret>>)
    requires o.Ends()
    ensures var direct, recorded := DirectRequests(o, keys, heard), Pass(o, keys, map[], heard).1;
            if direct == [] then recorded == [] else recorded != [] && recorded[0] == direct[0]
    decreases o.depth - |heard|
  {
    var move := o.next(heard);
    if move.Ask? && RequestOf(keys, move.index, move.op).None? {
      FirstRequestIsRecorded(o, keys, heard + [OwnAnswer(keys, move.index, move.op)]);
    }
  }

  /** The second pass asks for nothing new exactly when the first recorded every
      request of the direct run; then two passes give the direct result. */
  lemma TwoPassesRefineDirect<R>(o: Opening<R>, keys: Keys)
    requires o.Ends()
    ensures var recorded := Pass(o, keys, map[]).1;
            && (Pass(o, keys, Await(keys, recorded)).1 == []
                <==> forall q :: q in DirectRequests(o, keys) ==> q in recorded)
            && (Pass(o, keys, Await(keys, recorded)).1 == [] ==> RunTwice(o, keys) == Direct(o, keys))
  {
    var recorded := Pass(o, keys, map[]).1;
    PassIsDirect(o, keys, Await(keys, recorded), []);
    PassIsDirect(o, keys, map[], []);
  }

  /** An opening whose direct run makes at most one distinct external request, as a
      message encrypted to one key does, is always opened as if directly. */
  lemma OneRequestSuffices<R>(o: Opening<R>, keys: Keys)
    requires o.Ends()
    requires forall q, p :: q in DirectRequests(o, keys) && p in DirectRequests(o, keys) ==> q == p
    ensures RunTwice(o, keys) == Direct(o, keys)
  {
    FirstRequestIsRecorded(o, keys, []);
    var direct, recorded := DirectRequests(o, keys), Pass(o, keys, map[]).1;
    assert direct != [] ==> direct[0] in direct && direct[0] in recorded;
    TwoPassesRefineDirect(o, keys);
  }

  /** Not always: when a second request depends on the first one's secret, the
      second pass fails where the direct run succeeds. */
  lemma DependentRequestsDiffer(keys: Keys)
    requires keys.publicForm("a") == Some("a") && keys.publicForm("b") == Some("b")
    requires !keys.isLocal(0)
    requires keys.external(Request(0, "a")).Some? && keys.external(Request(0, "b")).Some?
    ensures exists o: Opening<bool> :: o.Ends() && Direct(o, keys) && !RunTwice(o, keys)
  {
    var o: Opening<bool> := Opening(AskTwice, 2);
    var a, b := Request(0, "a"), Request(0, "b");
    var first, second := keys.external(a), keys.external(b);
    assert Direct(o, keys, [first, second]);
    assert Direct(o, keys, [first]);
    assert Pass(o, keys, map[], [None]) == (false, []);
    assert !Pass(o, keys, map[]).0 && Pass(o, keys, map[]).1 == [a];
    var answers := Await(keys, [a]);
    assert Pass(o, keys, map[]).1 != [];
    assert !Pass(o, keys, answers, [first, None]).0;
    assert !Pass(o, keys, answers, [first]).0;
    assert Decrypt(keys, answers, 0, "a") == Reply(first, []);
    assert [] + [first] == [first];
    assert !Pass(o, keys, answers).0;
    assert !RunTwice(o, keys);
    assert Direct(o, keys);
  }

  /** Unwraps one key, then one that needs the first. */
  function AskTwice(heard: seq<Option<Secret>>): Move<bool>
  {
    if heard == [] then Ask(0, "a")
    else if heard[0].None? then Return(false)
    else if |heard| == 1 then Ask(0, "b")
    else Return(heard[1].Some?)
  }
}
