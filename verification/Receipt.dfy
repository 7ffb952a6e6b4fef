/** Verification of the synchronous answer to a sent message (src/as4/receipt_verify.rs,
    src/as4/services.rs): parse, classify, verify the signature and what it covers,
    correlate, check freshness and non-repudiation. Digest and base64 decoding are
    parameters; the signature value, the signer's pin and its chain are summed up in
    the `Statement` they yield. */
module Receipt {
  import opened Wrappers
  import opened Xml
  import opened Signal
  import opened NonRepudiation
  import Rfc3339

  /** `pins` is `None` when a configured pin is malformed. */
  datatype Policy = Policy(nrr: NrrPolicy, requireSigned: bool, pins: Option<seq<string>>, window: Option<nat>)

  /** A same-document `ds:Reference`: the id it names and the digest it states. */
  datatype SignedReference = SignedReference(id: string, digest: string)

  /** What the counterparty states by its signature: nothing that can be verified,
      something refused, or a list of references under a valid signature. */
  datatype Statement = Unverifiable | Invalid | States(references: seq<SignedReference>)

  datatype SentMessage = SentMessage(id: string, references: Option<seq<NriReference>>)

  datatype VerifiedReceipt = VerifiedReceipt(
    messageId: Option<string>, refTo: string, timestamp: Option<string>,
    signed: bool, fingerprint: Option<string>, nonRepudiation: Outcome)

  datatype SyncSignal =
    | Acknowledged(receipt: VerifiedReceipt)
    | Rejected(messageId: Option<string>, refTo: Option<string>, timestamp: Option<string>, errors: seq<ReceivedError>)

  type Digest = Node -> string

  // ---- References of the signature ---------------------------------------------------

  const WSU_ID: Name := Name(WsUtility, "Id")
  const PLAIN_ID: Name := Name(Absent, "Id")
  const XML_ID: Name := Name(XmlItself, "id")

  /** The element can be named by `id` in a reference. */
  predicate Carries(n: Node, id: string)
  {
    Attribute(n, WSU_ID) == Some(id) || Attribute(n, PLAIN_ID) == Some(id) || Attribute(n, XML_ID) == Some(id)
  }

  function Carriers(ns: seq<Node>, id: string): (r: seq<Node>)
    ensures forall n :: n in r <==> n in ns && Carries(n, id)
  {
    if ns == [] then [] else (if Carries(ns[0], id) then [ns[0]] else []) + Carriers(ns[1..], id)
  }

  /** The one element an id names; an id two elements share names none. */
  function Resolve(doc: Node, id: string): Option<Node>
  {
    var c := Carriers(Descendants(doc), id);
    if |c| == 1 then Some(c[0]) else None
  }

  predicate ReferencesVerify(doc: Node, refs: seq<SignedReference>, digest: Digest)
  {
    forall r :: r in refs ==> Resolve(doc, r.id).Some? && digest(Resolve(doc, r.id).value) == r.digest
  }

  /** The id the coverage check reads: `wsu:Id`, else the plain `Id`. */
  function CoverageId(n: Node): Option<string>
  {
    if Attribute(n, WSU_ID).Some? then Attribute(n, WSU_ID) else Attribute(n, PLAIN_ID)
  }

  predicate Names(refs: seq<SignedReference>, id: Option<string>)
  {
    id.Some? && exists r :: r in refs && r.id == id.value
  }

  /** `enforce_signal_signature_coverage`: the one SignalMessage, or an ancestor of
      it, is named by the verified signature. */
  predicate Covered(doc: Node, refs: seq<SignedReference>)
  {
    var lines := SelectLines(Lines(doc, []), Eb("SignalMessage"));
    |lines| == 1 && exists n :: n in lines[0] && Names(refs, CoverageId(n))
  }

  // ---- The steps of the verification ---------------------------------------------------

  /** `verify_receipt_signature`: the pinned fingerprint, if one was enforced. */
  function CheckSignature(doc: Node, env: Envelope, policy: Policy, st: Statement,
                          digest: Digest): Result<Option<string>>
  {
    if !env.hasSignature then
      if policy.requireSigned then Failure else Success(None)
    else if policy.pins.None? || policy.pins.value == [] then Failure
    else match st
      case Unverifiable => Failure
      case Invalid => Failure
      case States(refs) =>
        if ReferencesVerify(doc, refs, digest) && Covered(doc, refs) then Success(Some(policy.pins.value[0]))
        else Failure
  }

  /** `check_receipt_freshness`. */
  predicate Recent(policy: Policy, timestamp: Option<string>, now: int)
  {
    policy.window.Some? ==>
      && timestamp.Some? && Rfc3339.Parse(timestamp.value).Some?
      && var delta := now - Rfc3339.Parse(timestamp.value).value;
         (if delta < 0 then -delta else delta) <= policy.window.value
  }

  function Correlations(env: Envelope): seq<string>
  {
    (if env.refTo.Some? then [env.refTo.value] else []) + ErrorCorrelations(env.errors)
  }

  function ErrorCorrelations(errors: seq<ReceivedError>): seq<string>
  {
    if errors == [] then []
    else (if errors[0].refTo.Some? then [errors[0].refTo.value] else []) + ErrorCorrelations(errors[1..])
  }

  /** `verify_sync_response_inner`, on the parsed document. */
  function VerifySync(doc: Node, sent: SentMessage, policy: Policy, st: Statement, now: int,
                      digest: Digest, decode: Decode): Result<SyncSignal>
  {
    match ParseSignal(doc)
    case Wrapping => Failure
    case TooLarge => Failure
    case Ok(env) =>
      if !env.hasSignal then Failure
      else if env.hasReceipt && env.errors != [] then Failure
      else if env.errors != [] then
        if Correlations(env) != [] && sent.id !in Correlations(env) then Failure
        else Success(Rejected(env.messageId, env.refTo, env.timestamp, env.errors))
      else if !env.hasReceipt then Failure
      else if env.refTo != Some(sent.id) then Failure
      else match CheckSignature(doc, env, policy, st, digest)
        case Failure => Failure
        case Success(fingerprint) =>
          if !Recent(policy, env.timestamp, now) then Failure
          else match Judge(policy.nrr, sent.references, env.references, decode)
            case None => Failure
            case Some(outcome) =>
              Success(Acknowledged(VerifiedReceipt(
                env.messageId, sent.id, env.timestamp, env.hasSignature, fingerprint, outcome)))
  }

  // ---- An accepted receipt is a function of signed content -----------------------------

  /** The SignalMessage element of an accepted receipt lies in an element that one
      of the signature's references names and digests. */
  lemma SignalIsSigned(doc: Node, signal: Node, refs: seq<SignedReference>, digest: Digest)
    returns (signed: Node, r: SignedReference)
    requires Select(Descendants(doc), Eb("SignalMessage")) == [signal]
    requires ReferencesVerify(doc, refs, digest) && Covered(doc, refs)
    ensures r in refs && Resolve(doc, r.id) == Some(signed) && digest(signed) == r.digest
    ensures signal in Descendants(signed)
  {
    hide Descendants, Lines, Select, SelectLines, Carriers;
    var line := SelectLines(Lines(doc, []), Eb("SignalMessage"))[0];
    signed :| signed in line && Names(refs, CoverageId(signed));
    r :| r in refs && r.id == CoverageId(signed).value;
    assert line in SelectLines(Lines(doc, []), Eb("SignalMessage"));
    var j :| 0 <= j < |line| && line[j] == signed;
    LineContains(doc, [], line, j);
    LineContains(doc, [], line, 0);
    assert line[0] in Select(Descendants(doc), Eb("SignalMessage"));
    assert signed in Carriers(Descendants(doc), r.id);
  }

  /** A document that holds an element holds everything inside it. */
  lemma SignalInBoth(doc: Node, other: Node, signal: Node, signed: Node, id: string)
    requires Resolve(doc, id) == Some(signed) && Select(Descendants(doc), Eb("SignalMessage")) == [signal]
    requires other in Descendants(signed) && IsElement(other, Eb("SignalMessage"))
    ensures other == signal
  {
    hide Descendants, Select, Carriers;
    assert signed in Carriers(Descendants(doc), id);
    DescendsThrough(doc, signed, other);
    assert other in Select(Descendants(doc), Eb("SignalMessage"));
  }

  /** The SignalMessage of a document a receipt was accepted from, and the receipt
      as a function of it. */
  lemma AcceptedFrom(doc: Node, sent: SentMessage, policy: Policy, refs: seq<SignedReference>, now: int,
                     digest: Digest, decode: Decode, receipt: VerifiedReceipt) returns (signal: Node)
    requires policy.requireSigned
    requires VerifySync(doc, sent, policy, States(refs), now, digest, decode) == Success(Acknowledged(receipt))
    ensures Select(Descendants(doc), Eb("SignalMessage")) == [signal]
    ensures ReferencesVerify(doc, refs, digest) && Covered(doc, refs)
    ensures policy.pins.Some? && policy.pins.value != []
    ensures ReadSignal(signal, true).Ok?
    ensures var env := ReadSignal(signal, true).envelope;
            env.refTo.Some? && receipt == VerifiedReceipt(
              env.messageId, env.refTo.value, env.timestamp, true, Some(policy.pins.value[0]),
              if env.references == [] then NotProvided else Verified(env.references))
  {
    hide Descendants, Select, ReadSignal, Rfc3339.Parse, Covered, ReferencesVerify, Distinct, Echoed,
      NonRepudiation.Sent;
    signal := Select(Descendants(doc), Eb("SignalMessage"))[0];
  }

  /** Two documents accepted under the signed-receipt policy and one signed statement,
      that agree on the elements its references name, yield the same receipt and answer
      the same message, whatever else they contain, whenever and for whichever sent
      message they were accepted. */
  lemma SignedContentDecides(doc1: Node, sent1: SentMessage, now1: int, receipt1: VerifiedReceipt,
                             doc2: Node, sent2: SentMessage, now2: int, receipt2: VerifiedReceipt,
                             policy: Policy, refs: seq<SignedReference>, digest: Digest, decode: Decode)
    requires policy.requireSigned
    requires VerifySync(doc1, sent1, policy, States(refs), now1, digest, decode) == Success(Acknowledged(receipt1))
    requires VerifySync(doc2, sent2, policy, States(refs), now2, digest, decode) == Success(Acknowledged(receipt2))
    requires forall r :: r in refs ==> Resolve(doc1, r.id) == Resolve(doc2, r.id)
    ensures receipt1 == receipt2 && sent1.id == sent2.id
  {
    hide *;
    var signal1 := AcceptedFrom(doc1, sent1, policy, refs, now1, digest, decode, receipt1);
    var signal2 := AcceptedFrom(doc2, sent2, policy, refs, now2, digest, decode, receipt2);
    var signed, r := SignalIsSigned(doc1, signal1, refs, digest);
    assert signal1 in Select(Descendants(doc1), Eb("SignalMessage"));
    SignalInBoth(doc2, signal1, signal2, signed, r.id);
    AnswersSent(doc1, sent1, policy, States(refs), now1, digest, decode, receipt1);
    AnswersSent(doc2, sent2, policy, States(refs), now2, digest, decode, receipt2);
  }

  /** So two receipts accepted under one signed statement that differ, or answer two
      messages, exhibit two elements with the one digest that was signed. */
  lemma DifferentReceiptsCollide(doc1: Node, sent1: SentMessage, now1: int, receipt1: VerifiedReceipt,
                                 doc2: Node, sent2: SentMessage, now2: int, receipt2: VerifiedReceipt,
                                 policy: Policy, refs: seq<SignedReference>, digest: Digest, decode: Decode)
    returns (r: SignedReference, a: Node, b: Node)
    requires policy.requireSigned
    requires VerifySync(doc1, sent1, policy, States(refs), now1, digest, decode) == Success(Acknowledged(receipt1))
    requires VerifySync(doc2, sent2, policy, States(refs), now2, digest, decode) == Success(Acknowledged(receipt2))
    requires receipt1 != receipt2 || sent1.id != sent2.id
    ensures r in refs && Resolve(doc1, r.id) == Some(a) && Resolve(doc2, r.id) == Some(b)
    ensures a != b && digest(a) == r.digest == digest(b)
  {
    hide *;
    if forall q :: q in refs ==> Resolve(doc1, q.id) == Resolve(doc2, q.id) {
      SignedContentDecides(doc1, sent1, now1, receipt1, doc2, sent2, now2, receipt2, policy, refs, digest, decode);
    }
    r :| r in refs && Resolve(doc1, r.id) != Resolve(doc2, r.id);
    var signal1 := AcceptedFrom(doc1, sent1, policy, refs, now1, digest, decode, receipt1);
    var signal2 := AcceptedFrom(doc2, sent2, policy, refs, now2, digest, decode, receipt2);
    a := ResolvesTo(doc1, refs, r, digest);
    b := ResolvesTo(doc2, refs, r, digest);
  }

  lemma ResolvesTo(doc: Node, refs: seq<SignedReference>, r: SignedReference, digest: Digest) returns (n: Node)
    requires ReferencesVerify(doc, refs, digest) && r in refs
    ensures Resolve(doc, r.id) == Some(n) && digest(n) == r.digest
  {
    n := Resolve(doc, r.id).value;
  }

  lemma AnswersSent(doc: Node, sent: SentMessage, policy: Policy, st: Statement, now: int,
                    digest: Digest, decode: Decode, receipt: VerifiedReceipt)
    requires VerifySync(doc, sent, policy, st, now, digest, decode) == Success(Acknowledged(receipt))
    ensures receipt.refTo == sent.id
  {
    hide ParseSignal, Recent, Judge, CheckSignature, Correlations;
  }

  /** What an accepted receipt proves about the sent message, under the strict
      policy: it answers this message, is fresh, and its digests are those the
      message was signed over, reference by reference. */
  lemma AcceptedReceiptProves(doc: Node, sent: SentMessage, policy: Policy, st: Statement, now: int,
                              digest: Digest, decode: Decode, receipt: VerifiedReceipt)
    requires policy.requireSigned && policy.nrr.requireNrr && policy.nrr.rejectUnexpected
    requires VerifySync(doc, sent, policy, st, now, digest, decode) == Success(Acknowledged(receipt))
    ensures receipt.signed && receipt.refTo == sent.id
    ensures policy.window.Some? ==>
              && receipt.timestamp.Some? && Rfc3339.Parse(receipt.timestamp.value).Some?
              && var t := Rfc3339.Parse(receipt.timestamp.value).value;
                 t - policy.window.value <= now <= t + policy.window.value
    ensures receipt.nonRepudiation.Verified? && sent.references.Some?
    ensures var refs := receipt.nonRepudiation.references;
            refs != [] && Distinct(refs) && Uris(refs) == Uris(sent.references.value)
            && Agree(sent.references.value, refs, decode)
  {
    hide ParseSignal, Rfc3339.Parse, Covered, ReferencesVerify, Correlations;
    var env := ParseSignal(doc).envelope;
    assert Proves(policy.nrr, sent.references.value, env.references, decode);
    StrictProofMeans(policy.nrr, sent.references.value, env.references, decode);
  }
}
