/** Non-repudiation of receipt (src/as4/receipt_verify.rs): the digests a receipt
    echoes against those the sent message was signed over. Base64 decoding is a
    parameter. */
module NonRepudiation {
  import opened Wrappers
  import opened Signal

  datatype NrrPolicy = NrrPolicy(rejectUnexpected: bool, requireNrr: bool)

  datatype Why =
    | NothingEchoed | SentUnreadable | DuplicateUri | NotEchoed
    | MethodMismatch | Undecodable | DigestMismatch | Unexpected

  datatype Outcome = Verified(references: seq<NriReference>) | NotProvided | Refused(why: Why)

  type Decode = string -> Option<string>

  // ---- What a proof of receipt is ------------------------------------------------

  predicate Distinct(refs: seq<NriReference>)
  {
    forall i, j :: 0 <= i < j < |refs| ==> refs[i].uri != refs[j].uri
  }

  /** `echo` repeats `sent`: method and decoded digest. */
  predicate Repeats(echo: NriReference, sent: NriReference, decode: Decode)
  {
    && echo.uri == sent.uri && echo.method_ == sent.method_
    && decode(echo.digest).Some? && decode(echo.digest) == decode(sent.digest)
  }

  predicate Echoed(sent: NriReference, refs: seq<NriReference>, decode: Decode)
  {
    exists r :: r in refs && Repeats(r, sent, decode)
  }

  predicate Sent(r: NriReference, sent: seq<NriReference>)
  {
    exists s :: s in sent && s.uri == r.uri
  }

  /** The receipt proves receipt of what was sent. */
  predicate Proves(policy: NrrPolicy, sent: seq<NriReference>, refs: seq<NriReference>, decode: Decode)
  {
    && refs != [] && Distinct(refs)
    && (forall s :: s in sent ==> Echoed(s, refs, decode))
    && (policy.rejectUnexpected ==> forall r :: r in refs ==> Sent(r, sent))
  }

  /** The defect of one sent reference that a refusal names. */
  ghost predicate Mismatch(why: Why, s: NriReference, refs: seq<NriReference>, decode: Decode)
  {
    match why
    case NotEchoed => !Sent(s, refs)
    case MethodMismatch => exists r :: r in refs && r.uri == s.uri && r.method_ != s.method_
    case Undecodable =>
      exists r :: r in refs && r.uri == s.uri && (decode(r.digest).None? || decode(s.digest).None?)
    case DigestMismatch =>
      exists r :: && r in refs && r.uri == s.uri && decode(r.digest).Some? && decode(s.digest).Some?
                  && decode(r.digest) != decode(s.digest)
    case _ => false
  }

  /** The defect that a refusal names. */
  ghost predicate Defect(why: Why, policy: NrrPolicy, sent: Option<seq<NriReference>>, refs: seq<NriReference>,
                         decode: Decode)
  {
    match why
    case NothingEchoed => refs == [] && policy.requireNrr
    case SentUnreadable => sent.None?
    case DuplicateUri => !Distinct(refs)
    case Unexpected => policy.rejectUnexpected && sent.Some? && exists r :: r in refs && !Sent(r, sent.value)
    case _ => sent.Some? && exists s :: s in sent.value && Mismatch(why, s, refs, decode)
  }

  // ---- The check as it runs --------------------------------------------------------

  /** `verify_non_repudiation`. `sent` is `None` when the sent message carries no
      readable references. Each refusal names a defect that is there. */
  method VerifyNonRepudiation(policy: NrrPolicy, sent: Option<seq<NriReference>>, refs: seq<NriReference>,
                              decode: Decode)
    returns (o: Outcome)
    ensures o.Verified? <==> sent.Some? && Proves(policy, sent.value, refs, decode)
    ensures o.Verified? ==> o.references == refs
    ensures o.NotProvided? <==> refs == [] && !policy.requireNrr
    ensures o.Refused? ==> Defect(o.why, policy, sent, refs, decode)
  {
    if refs == [] {
      return if policy.requireNrr then Refused(NothingEchoed) else NotProvided;
    }
    if sent.None? {
      return Refused(SentUnreadable);
    }
    var twice := HasDuplicate(refs);
    if twice {
      return Refused(DuplicateUri);
    }
    for i := 0 to |sent.value|
      invariant forall k :: 0 <= k < i ==> Echoed(sent.value[k], refs, decode)
    {
      var why := MatchOne(sent.value[i], refs, decode);
      if why.Some? {
        assert sent.value[i] in sent.value;
        return Refused(why.value);
      }
    }
    var stray := FindUnexpected(refs, sent.value);
    if stray && policy.rejectUnexpected {
      return Refused(Unexpected);
    }
    return Verified(refs);
  }

  method HasDuplicate(refs: seq<NriReference>) returns (twice: bool)
    ensures twice == !Distinct(refs)
  {
    for i := 0 to |refs|
      invariant forall a, b :: 0 <= a < b < i ==> refs[a].uri != refs[b].uri
    {
      for k := 0 to i
        invariant forall a :: 0 <= a < k ==> refs[a].uri != refs[i].uri
      {
        if refs[k].uri == refs[i].uri {
          return true;
        }
      }
    }
    return false;
  }

  /** Find the entry of one sent reference and compare it. */
  method MatchOne(sent: NriReference, refs: seq<NriReference>, decode: Decode) returns (why: Option<Why>)
    requires Distinct(refs)
    ensures why.None? <==> Echoed(sent, refs, decode)
    ensures why.Some? ==> Mismatch(why.value, sent, refs, decode)
  {
    var i := 0;
    while i < |refs| && refs[i].uri != sent.uri
      invariant i <= |refs| && forall k :: 0 <= k < i ==> refs[k].uri != sent.uri
    {
      i := i + 1;
    }
    if i == |refs| {
      return Some(NotEchoed);
    }
    var echoed := refs[i];
    assert echoed in refs;
    assert forall r :: r in refs && r.uri == sent.uri ==> r == echoed;
    if echoed.method_ != sent.method_ {
      return Some(MethodMismatch);
    }
    if decode(echoed.digest).None? || decode(sent.digest).None? {
      return Some(Undecodable);
    }
    if decode(echoed.digest) != decode(sent.digest) {
      return Some(DigestMismatch);
    }
    assert Repeats(echoed, sent, decode);
    return None;
  }

  method FindUnexpected(refs: seq<NriReference>, sent: seq<NriReference>) returns (stray: bool)
    ensures stray <==> exists r :: r in refs && !Sent(r, sent)
  {
    for i := 0 to |refs|
      invariant forall k :: 0 <= k < i ==> Sent(refs[k], sent)
    {
      var k := 0;
      while k < |sent| && sent[k].uri != refs[i].uri
        invariant k <= |sent| && forall m :: 0 <= m < k ==> sent[m].uri != refs[i].uri
      {
        k := k + 1;
      }
      if k == |sent| {
        assert refs[i] in refs && !Sent(refs[i], sent);
        return true;
      }
      assert sent[k] in sent;
    }
    return false;
  }

  /** The outcome as a function, for the receipt pipeline: refusals are alike. */
  function Judge(policy: NrrPolicy, sent: Option<seq<NriReference>>, refs: seq<NriReference>,
                 decode: Decode): Option<Outcome>
  {
    if refs == [] && !policy.requireNrr then Some(NotProvided)
    else if sent.Some? && Proves(policy, sent.value, refs, decode) then Some(Verified(refs))
    else None
  }

  // ---- What a strict verification means ----------------------------------------------

  function Uris(refs: seq<NriReference>): (r: set<string>)
    ensures forall u :: u in r <==> exists x :: x in refs && x.uri == u
  {
    set x | x in refs :: x.uri
  }

  /** Every entry agrees with the sent reference of its URI in digest method and decoded
      digest. */
  ghost predicate Agree(sent: seq<NriReference>, refs: seq<NriReference>, decode: Decode)
  {
    forall r, s :: r in refs && s in sent && r.uri == s.uri ==>
      && r.method_ == s.method_
      && decode(r.digest).Some? && decode(s.digest).Some? && decode(r.digest).value == decode(s.digest).value
  }

  lemma OnePerUri(refs: seq<NriReference>, a: NriReference, b: NriReference)
    requires Distinct(refs) && a in refs && b in refs && a.uri == b.uri
    ensures a == b
  {
    var i :| 0 <= i < |refs| && refs[i] == a;
    var j :| 0 <= j < |refs| && refs[j] == b;
    assert i == j;
  }

  lemma EchoIsTheOne(s: NriReference, refs: seq<NriReference>, r: NriReference, decode: Decode)
    requires Distinct(refs) && Echoed(s, refs, decode) && r in refs && r.uri == s.uri
    ensures Repeats(r, s, decode)
  {
    var e :| e in refs && Repeats(e, s, decode);
    OnePerUri(refs, e, r);
  }

  lemma ProofAgrees(policy: NrrPolicy, sent: seq<NriReference>, refs: seq<NriReference>, decode: Decode)
    requires policy.rejectUnexpected && Proves(policy, sent, refs, decode)
    ensures Agree(sent, refs, decode) && Uris(refs) == Uris(sent)
  {
    EchoesAgree(sent, refs, decode);
    hide Distinct, Repeats, Agree;
    forall u | u in Uris(refs) ensures u in Uris(sent) {
      var r :| r in refs && r.uri == u;
      assert Sent(r, sent);
    }
    forall s | s in sent ensures s.uri in Uris(refs) {
      EchoHasUri(s, refs, decode);
    }
  }

  lemma EchoesAgree(sent: seq<NriReference>, refs: seq<NriReference>, decode: Decode)
    requires Distinct(refs) && forall s :: s in sent ==> Echoed(s, refs, decode)
    ensures Agree(sent, refs, decode)
  {
    hide Distinct, Echoed;
    forall r, s | r in refs && s in sent && r.uri == s.uri
      ensures Repeats(r, s, decode)
    {
      EchoIsTheOne(s, refs, r, decode);
    }
  }

  lemma EchoHasUri(s: NriReference, refs: seq<NriReference>, decode: Decode)
    requires Echoed(s, refs, decode)
    ensures s.uri in Uris(refs)
  {
  }

  /** Under the strict policy a receipt proves receipt exactly when its references
      are not empty, pairwise distinct, name the very URIs that were signed, and
      agree with the sent reference of the same URI in method and digest. */
  lemma StrictProofMeans(policy: NrrPolicy, sent: seq<NriReference>, refs: seq<NriReference>, decode: Decode)
    requires policy.rejectUnexpected
    ensures Proves(policy, sent, refs, decode) <==>
            refs != [] && Distinct(refs) && Uris(refs) == Uris(sent) && Agree(sent, refs, decode)
  {
    if Proves(policy, sent, refs, decode) {
      ProofAgrees(policy, sent, refs, decode);
    }
    if Uris(refs) == Uris(sent) && Agree(sent, refs, decode) {
      forall s | s in sent ensures Echoed(s, refs, decode) {
        assert s.uri in Uris(refs);
        var r :| r in refs && r.uri == s.uri;
        assert Repeats(r, s, decode);
      }
      forall r | r in refs ensures Sent(r, sent) {
        assert r.uri in Uris(sent);
      }
    }
  }

  // ---- The order of entries does not matter ------------------------------------------

  lemma DistinctOneMore(rest: seq<NriReference>, last: NriReference)
    ensures Distinct(rest + [last]) <==> Distinct(rest) && last.uri !in Uris(rest)
    ensures Uris(rest + [last]) == Uris(rest) + {last.uri}
  {
    var refs := rest + [last];
    assert forall i :: 0 <= i < |rest| ==> refs[i] == rest[i];
    assert refs[|rest|] == last;
    if last.uri in Uris(rest) {
      var x :| x in rest && x.uri == last.uri;
      var i :| 0 <= i < |rest| && rest[i] == x;
      assert refs[i].uri == refs[|rest|].uri;
    } else {
      assert forall i :: 0 <= i < |rest| ==> rest[i] in rest && rest[i].uri in Uris(rest);
    }
  }

  lemma {:induction false} UriCount(refs: seq<NriReference>)
    ensures |Uris(refs)| <= |refs|
    ensures Distinct(refs) <==> |Uris(refs)| == |refs|
    decreases |refs|
  {
    if refs != [] {
      var rest, last := refs[..|refs| - 1], refs[|refs| - 1];
      UriCount(rest);
      DistinctOneMore(rest, last);
      hide Distinct, Uris;
      assert refs == rest + [last];
      if last.uri in Uris(rest) {
        assert Uris(rest) + {last.uri} == Uris(rest);
      }
    }
  }

  /** Reordering the receipt's entries or the sent ones changes nothing. */
  lemma OrderDoesNotMatter(policy: NrrPolicy, sent: seq<NriReference>, sent': seq<NriReference>,
                           refs: seq<NriReference>, refs': seq<NriReference>, decode: Decode)
    requires multiset(sent) == multiset(sent') && multiset(refs) == multiset(refs')
    ensures Proves(policy, sent, refs, decode) <==> Proves(policy, sent', refs', decode)
  {
    SameMembers(sent, sent');
    SameMembers(refs, refs');
    assert |refs| == |multiset(refs)| == |multiset(refs')| == |refs'|;
    UriCount(refs);
    UriCount(refs');
    assert Uris(refs) == Uris(refs');
    assert forall s :: Echoed(s, refs, decode) <==> Echoed(s, refs', decode);
    assert forall r :: Sent(r, sent) <==> Sent(r, sent');
  }

  lemma SameMembers<T>(a: seq<T>, b: seq<T>)
    requires multiset(a) == multiset(b)
    ensures forall x :: x in a <==> x in b
  {
    assert forall x :: x in a <==> x in multiset(a);
    assert forall x :: x in b <==> x in multiset(b);
  }
}
