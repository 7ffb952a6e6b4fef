/** Exactly which answers are taken as a rejection and which as an acknowledgement
    (src/as4/receipt_verify.rs). */
module ReceiptMeaning {
  import opened Wrappers
  import opened Xml
  import opened Signal
  import opened NonRepudiation
  import opened Receipt
  import Rfc3339

  // ---- Which message an error signal speaks of ------------------------------------------

  /** The signal itself or one of its errors refers to this message. */
  ghost predicate RefersTo(env: Envelope, id: string)
  {
    env.refTo == Some(id) || exists e :: e in env.errors && e.refTo == Some(id)
  }

  ghost predicate RefersToNone(env: Envelope)
  {
    env.refTo == None && forall e :: e in env.errors ==> e.refTo == None
  }

  lemma {:induction false} ErrorCorrelationsAre(errors: seq<ReceivedError>, id: string)
    ensures id in ErrorCorrelations(errors) <==> exists e :: e in errors && e.refTo == Some(id)
    ensures ErrorCorrelations(errors) == [] <==> forall e :: e in errors ==> e.refTo == None
  {
    if errors != [] {
      ErrorCorrelationsAre(errors[1..], id);
      assert forall e :: e in errors <==> e == errors[0] || e in errors[1..];
      assert errors[0] in errors;
    }
  }

  lemma CorrelationsAre(env: Envelope, id: string)
    ensures id in Correlations(env) <==> RefersTo(env, id)
    ensures Correlations(env) == [] <==> RefersToNone(env)
  {
    ErrorCorrelationsAre(env.errors, id);
    hide ErrorCorrelations;
  }

  /** A rejection is taken exactly from a signal with errors and without a receipt that
      refers to the sent message, or to none; it carries the signal's own fields. */
  lemma RejectedIff(doc: Node, sent: SentMessage, policy: Policy, st: Statement, now: int, digest: Digest,
                    decode: Decode,
                    messageId: Option<string>, refTo: Option<string>, timestamp: Option<string>,
                    errors: seq<ReceivedError>)
    ensures VerifySync(doc, sent, policy, st, now, digest, decode)
            == Success(Rejected(messageId, refTo, timestamp, errors)) <==>
              && ParseSignal(doc).Ok?
              && var env := ParseSignal(doc).envelope;
                 && env.hasSignal && !env.hasReceipt && env.errors != []
                 && (RefersTo(env, sent.id) || RefersToNone(env))
                 && messageId == env.messageId && refTo == env.refTo && timestamp == env.timestamp
                 && errors == env.errors
  {
    if ParseSignal(doc).Ok? {
      CorrelationsAre(ParseSignal(doc).envelope, sent.id);
    }
    hide ParseSignal, Correlations, RefersTo, RefersToNone, CheckSignature, Recent, Judge;
  }

  // ---- Which receipt is acknowledged ---------------------------------------------------------

  /** A signature that is there states verified references that cover the signal, under
      configured pins; one that is not there was not required. */
  ghost predicate SignatureServes(doc: Node, hasSignature: bool, policy: Policy, st: Statement, digest: Digest)
  {
    if hasSignature then
      && policy.pins.Some? && policy.pins.value != []
      && st.States? && ReferencesVerify(doc, st.references, digest) && CoversSignal(doc, st.references)
    else !policy.requireSigned
  }

  /** One element that holds the only SignalMessage is named by a reference. */
  ghost predicate CoversSignal(doc: Node, refs: seq<SignedReference>)
  {
    var signals := Select(Descendants(doc), Eb("SignalMessage"));
    && |signals| == 1
    && exists n, r :: n in Descendants(doc) && signals[0] in Descendants(n) && r in refs && HasId(n, r.id)
  }

  /** The element's `wsu:Id`, or its plain `Id` where it has no `wsu:Id`. */
  predicate HasId(n: Node, id: string)
  {
    || Attribute(n, Name(WsUtility, "Id")) == Some(id)
    || (Attribute(n, Name(WsUtility, "Id")) == None && Attribute(n, Name(Absent, "Id")) == Some(id))
  }

  lemma HasIdIs(n: Node, id: string)
    ensures HasId(n, id) <==> CoverageId(n) == Some(id)
  {
    hide Attribute;
  }

  /** An element carries an id in any of the three id attributes. */
  predicate CarriesId(n: Node, id: string)
  {
    || Attribute(n, Name(WsUtility, "Id")) == Some(id)
    || Attribute(n, Name(Absent, "Id")) == Some(id)
    || Attribute(n, Name(XmlItself, "id")) == Some(id)
  }

  /** At one place only of the document an element carries the id. */
  ghost predicate OnlyCarrier(doc: Node, id: string, n: Node)
  {
    exists k :: && 0 <= k < |Descendants(doc)| && Descendants(doc)[k] == n && CarriesId(n, id)
                && forall j :: 0 <= j < |Descendants(doc)| && j != k ==> !CarriesId(Descendants(doc)[j], id)
  }

  lemma {:induction false} CarriersCount(ns: seq<Node>, id: string)
    ensures |Carriers(ns, id)| == 0 <==> forall j :: 0 <= j < |ns| ==> !CarriesId(ns[j], id)
    ensures |Carriers(ns, id)| == 1 <==>
              exists k :: && 0 <= k < |ns| && CarriesId(ns[k], id)
                          && forall j :: 0 <= j < |ns| && j != k ==> !CarriesId(ns[j], id)
    decreases |ns|
  {
    hide Attribute;
    if ns != [] {
      var rest := ns[1..];
      CarriersCount(rest, id);
      assert Carries(ns[0], id) <==> CarriesId(ns[0], id);
      assert forall j :: 1 <= j < |ns| ==> ns[j] == rest[j - 1];
      hide CarriesId;
      if |Carriers(ns, id)| == 1 && CarriesId(ns[0], id) {
        assert forall j :: 0 <= j < |ns| && j != 0 ==> !CarriesId(ns[j], id);
      } else if |Carriers(ns, id)| == 1 {
        var k :| && 0 <= k < |rest| && CarriesId(rest[k], id)
                 && forall j :: 0 <= j < |rest| && j != k ==> !CarriesId(rest[j], id);
        assert CarriesId(ns[k + 1], id) && forall j :: 0 <= j < |ns| && j != k + 1 ==> !CarriesId(ns[j], id);
      }
      if k :| && 0 <= k < |ns| && CarriesId(ns[k], id)
              && forall j :: 0 <= j < |ns| && j != k ==> !CarriesId(ns[j], id) {
        if k == 0 {
          assert forall j :: 0 <= j < |rest| ==> rest[j] == ns[j + 1];
        } else {
          assert CarriesId(rest[k - 1], id);
          assert forall j :: 0 <= j < |rest| && j != k - 1 ==> rest[j] == ns[j + 1];
        }
      }
    }
  }

  /** A signed id names an element exactly when it is the only one to carry it. */
  lemma ResolvesIff(doc: Node, id: string, n: Node)
    ensures Resolve(doc, id) == Some(n) <==> OnlyCarrier(doc, id, n)
  {
    var ns := Descendants(doc);
    CarriersCount(ns, id);
    hide Descendants, Attribute;
    assert forall x :: Carries(x, id) <==> CarriesId(x, id);
    hide Carriers, CarriesId;
    var c := Carriers(ns, id);
    if |c| == 1 {
      assert c[0] in c;
      var k :| && 0 <= k < |ns| && CarriesId(ns[k], id)
               && forall j :: 0 <= j < |ns| && j != k ==> !CarriesId(ns[j], id);
      assert ns[k] in ns && ns[k] in c;
    }
  }

  /** The references verify exactly when each names one element and states its digest. */
  lemma ReferencesVerifyIff(doc: Node, refs: seq<SignedReference>, digest: Digest)
    ensures ReferencesVerify(doc, refs, digest) <==>
              forall r :: r in refs ==> exists n :: OnlyCarrier(doc, r.id, n) && digest(n) == r.digest
  {
    forall id, n ensures Resolve(doc, id) == Some(n) <==> OnlyCarrier(doc, id, n) {
      ResolvesIff(doc, id, n);
    }
    hide Resolve, OnlyCarrier;
    if ReferencesVerify(doc, refs, digest) {
      forall r | r in refs ensures exists n :: OnlyCarrier(doc, r.id, n) && digest(n) == r.digest {
        assert OnlyCarrier(doc, r.id, Resolve(doc, r.id).value);
      }
    }
  }

  /** The time lies within the window around the clock, on either side. */
  ghost predicate Fresh(policy: Policy, timestamp: Option<string>, now: int)
  {
    policy.window.Some? ==>
      && timestamp.Some?
      && exists t :: && Rfc3339.Parse(timestamp.value) == Some(t)
                     && t - policy.window.value <= now <= t + policy.window.value
  }

  lemma RecentIsFresh(policy: Policy, timestamp: Option<string>, now: int)
    ensures Recent(policy, timestamp, now) <==> Fresh(policy, timestamp, now)
  {
    hide Rfc3339.Parse;
  }

  /** What the receipt is worth: nothing echoed where nothing is required, or a proof. */
  ghost predicate ProofServes(policy: NrrPolicy, sent: Option<seq<NriReference>>, refs: seq<NriReference>,
                              decode: Decode,
                              o: Outcome)
  {
    if refs == [] && !policy.requireNrr then o == NotProvided
    else sent.Some? && Proves(policy, sent.value, refs, decode) && o == Verified(refs)
  }

  /** A receipt is acknowledged exactly when the signal carries it without errors, it
      refers to the sent message, its signature serves, it is fresh and proves receipt;
      it carries the signal's own fields. */
  lemma AcknowledgedIff(doc: Node, sent: SentMessage, policy: Policy, st: Statement, now: int, digest: Digest,
                        decode: Decode, receipt: VerifiedReceipt)
    ensures VerifySync(doc, sent, policy, st, now, digest, decode) == Success(Acknowledged(receipt)) <==>
              && ParseSignal(doc).Ok?
              && var env := ParseSignal(doc).envelope;
                 && env.hasSignal && env.hasReceipt && env.errors == [] && env.refTo == Some(sent.id)
                 && SignatureServes(doc, env.hasSignature, policy, st, digest)
                 && Fresh(policy, env.timestamp, now)
                 && ProofServes(policy.nrr, sent.references, env.references, decode, receipt.nonRepudiation)
                 && receipt.messageId == env.messageId && receipt.refTo == sent.id
                 && receipt.timestamp == env.timestamp && receipt.signed == env.hasSignature
                 && receipt.fingerprint == (if env.hasSignature then Some(policy.pins.value[0]) else None)
  {
    hide ParseSignal, Correlations, CheckSignature, SignatureServes, Recent, Fresh, Proves;
    if ParseSignal(doc).Ok? {
      var env := ParseSignal(doc).envelope;
      SignatureChecks(doc, env, policy, st, digest);
      RecentIsFresh(policy, env.timestamp, now);
    }
  }

  lemma SignatureChecks(doc: Node, env: Envelope, policy: Policy, st: Statement, digest: Digest)
    ensures CheckSignature(doc, env, policy, st, digest).Success?
       <==> SignatureServes(doc, env.hasSignature, policy, st, digest)
    ensures SignatureServes(doc, env.hasSignature, policy, st, digest) && env.hasSignature ==>
              policy.pins.Some? && policy.pins.value != []
    ensures SignatureServes(doc, env.hasSignature, policy, st, digest) ==>
              CheckSignature(doc, env, policy, st, digest)
              == Success(if env.hasSignature then Some(policy.pins.value[0]) else None)
  {
    if st.States? {
      CoveredIff(doc, st.references);
    }
    hide Covered, CoversSignal, ReferencesVerify;
  }

  // ---- Coverage -------------------------------------------------------------------------------

  /** Each line leads to the node at its place. */
  predicate LeadTo(lines: seq<seq<Node>>, ns: seq<Node>)
  {
    |lines| == |ns| && forall i :: 0 <= i < |ns| ==> lines[i] != [] && lines[i][0] == ns[i]
  }

  lemma {:induction false} LineHeads(n: Node, above: seq<Node>)
    ensures LeadTo(Lines(n, above), Descendants(n))
    decreases n, 0
  {
    if n.Element? {
      LineHeadsBelow(n.children, [n] + above);
    }
  }

  lemma {:induction false} LineHeadsBelow(ns: seq<Node>, above: seq<Node>)
    ensures LeadTo(LinesBelow(ns, above), Below(ns))
    decreases ns, 1
  {
    if ns != [] {
      LineHeads(ns[0], above);
      LineHeadsBelow(ns[1..], above);
    }
  }

  lemma {:induction false} SelectAlike(lines: seq<seq<Node>>, ns: seq<Node>, name: Name)
    requires LeadTo(lines, ns)
    ensures |SelectLines(lines, name)| == |Select(ns, name)|
  {
    if ns != [] {
      forall i | 0 <= i < |ns[1..]| ensures lines[1..][i] != [] && lines[1..][i][0] == ns[1..][i] {
        assert lines[1..][i] == lines[i + 1] && ns[1..][i] == ns[i + 1];
      }
      SelectAlike(lines[1..], ns[1..], name);
    }
  }

  lemma LineIsBelow(ns: seq<Node>, c: Node, above: seq<Node>, line: seq<Node>)
    requires c in ns && line in Lines(c, above)
    ensures line in LinesBelow(ns, above)
    decreases |ns|
  {
    if ns[0] != c {
      LineIsBelow(ns[1..], c, above, line);
    }
  }

  /** To a node inside `m`, itself inside `n`, leads a line through `m`. */
  lemma {:induction false} LineThrough(n: Node, above: seq<Node>, m: Node, x: Node) returns (line: seq<Node>)
    requires m in Descendants(n) && x in Descendants(m)
    ensures line in Lines(n, above) && line != [] && line[0] == x && m in line
    decreases n
  {
    if m == n {
      LineHeads(n, above);
      var i :| 0 <= i < |Descendants(n)| && Descendants(n)[i] == x;
      line := Lines(n, above)[i];
      LineContains(n, above, line, 0);
      assert line[|line| - |above| - 1] in line;
    } else {
      var c := BelowChild(n.children, m);
      line := LineThrough(c, [n] + above, m, x);
      LineIsBelow(n.children, c, [n] + above, line);
    }
  }

  lemma CoveredIff(doc: Node, refs: seq<SignedReference>)
    ensures Covered(doc, refs) <==> CoversSignal(doc, refs)
  {
    LineHeads(doc, []);
    SelectAlike(Lines(doc, []), Descendants(doc), Eb("SignalMessage"));
    hide Descendants, Lines, Select, SelectLines;
    if Covered(doc, refs) {
      CoveredCovers(doc, refs);
    }
    if CoversSignal(doc, refs) {
      CoversCovered(doc, refs);
    }
  }

  lemma CoveredCovers(doc: Node, refs: seq<SignedReference>)
    requires Covered(doc, refs) && |Select(Descendants(doc), Eb("SignalMessage"))| == 1
    ensures CoversSignal(doc, refs)
  {
    hide Descendants, Lines, Select, SelectLines, CoverageId, HasId;
    var signals := Select(Descendants(doc), Eb("SignalMessage"));
    var line := SelectLines(Lines(doc, []), Eb("SignalMessage"))[0];
    var n :| n in line && Names(refs, CoverageId(n));
    var r :| r in refs && r.id == CoverageId(n).value;
    assert line in SelectLines(Lines(doc, []), Eb("SignalMessage"));
    HasIdIs(n, r.id);
    var j :| 0 <= j < |line| && line[j] == n;
    LineContains(doc, [], line, j);
    LineContains(doc, [], line, 0);
    assert line[0] in signals;
  }

  lemma CoversCovered(doc: Node, refs: seq<SignedReference>)
    requires CoversSignal(doc, refs) && |SelectLines(Lines(doc, []), Eb("SignalMessage"))| == 1
    ensures Covered(doc, refs)
  {
    hide Descendants, Lines, Select, SelectLines, CoverageId, HasId;
    var signals := Select(Descendants(doc), Eb("SignalMessage"));
    var n, r :| n in Descendants(doc) && signals[0] in Descendants(n) && r in refs && HasId(n, r.id);
    HasIdIs(n, r.id);
    assert signals[0] in signals;
    var line := LineThrough(doc, [], n, signals[0]);
    assert line in SelectLines(Lines(doc, []), Eb("SignalMessage"));
    assert Names(refs, CoverageId(n));
  }
}
