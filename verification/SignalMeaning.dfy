/** What a parsed signal says, element by element of the document. */
module SignalMeaning {
  import opened Wrappers
  import opened Text
  import opened Xml
  import opened Signal

  // ---- Elements and their texts -------------------------------------------------------

  /** An element of this name inside `n`. */
  ghost predicate Within(n: Node, name: Name, e: Node)
  {
    e in Descendants(n) && IsElement(e, name)
  }

  /** The first element of this name inside `n`, in document order. */
  ghost predicate FirstWithin(n: Node, name: Name, e: Node)
  {
    exists k ::
      && 0 <= k < |Descendants(n)| && Descendants(n)[k] == e && IsElement(e, name)
      && forall j :: 0 <= j < k ==> !IsElement(Descendants(n)[j], name)
  }

  /** The text of the first such element: none without one. */
  ghost predicate FirstText(n: Node, name: Name, text: Option<string>)
  {
    if exists e :: Within(n, name, e) then exists e :: FirstWithin(n, name, e) && text == ElementText(e)
    else text == None
  }

  /** An element `local` inside a MessageInfo of the signal has the text `t`. */
  ghost predicate InfoSays(signal: Node, local: string, t: string)
  {
    exists info, e :: Within(signal, Eb("MessageInfo"), info) && Within(info, Eb(local), e) && ElementText(e) == Some(t)
  }

  /** NonRepudiationInformation, in either of its namespaces, inside a receipt. */
  ghost predicate NriWithin(signal: Node, receipt: Node, nri: Node)
  {
    && Within(signal, Eb("Receipt"), receipt)
    && (Within(receipt, Eb("NonRepudiationInformation"), nri)
        || Within(receipt, Name(EbbpSignals, "NonRepudiationInformation"), nri))
  }

  /** One `ds:Reference` states this URI, digest method and digest. */
  ghost predicate States(r: Node, x: NriReference)
  {
    && PlainAttribute(r, "URI") == Some(x.uri)
    && (exists m :: FirstWithin(r, Ds("DigestMethod"), m) && PlainAttribute(m, "Algorithm") == Some(x.method_))
    && (exists v :: FirstWithin(r, Ds("DigestValue"), v) && ElementText(v) == Some(x.digest))
  }

  ghost predicate ReferenceIn(signal: Node, x: NriReference)
  {
    exists receipt, nri, r :: NriWithin(signal, receipt, nri) && Within(nri, Ds("Reference"), r) && States(r, x)
  }

  ghost predicate ErrorOf(e: Node, x: ReceivedError)
  {
    && (PlainAttribute(e, "errorCode") == Some(x.code) || (PlainAttribute(e,
                                                                          "errorCode") == None && x.code == "unknown"))
    && x.severity == PlainAttribute(e, "severity") && x.category == PlainAttribute(e, "category")
    && x.origin == PlainAttribute(e, "origin") && x.refTo == PlainAttribute(e, "refToMessageId")
    && x.short == PlainAttribute(e, "shortDescription")
    && FirstText(e, Eb("Description"), x.description) && FirstText(e, Eb("ErrorDetail"), x.detail)
  }

  /** What the envelope says about the one SignalMessage of the document. */
  ghost predicate Describes(env: Envelope, doc: Node, signal: Node)
  {
    && (env.hasSignature <==> exists n :: Within(doc, Ds("Signature"), n))
    && (forall t :: env.messageId == Some(t) <==> InfoSays(signal, "MessageId", t))
    && (forall t :: env.refTo == Some(t) <==> InfoSays(signal, "RefToMessageId", t))
    && (forall t :: env.timestamp == Some(t) <==> InfoSays(signal, "Timestamp", t))
    && (env.hasReceipt <==> exists r :: Within(signal, Eb("Receipt"), r))
    && (env.hasNri <==> exists receipt, nri :: NriWithin(signal, receipt, nri))
    && (forall x :: x in env.references <==> ReferenceIn(signal, x))
  }

  /** The errors are the first error elements, in document order and read one by one. */
  ghost predicate ListsErrors(errors: seq<ReceivedError>, signal: Node)
  {
    var els := Select(Descendants(signal), Eb("Error"));
    && |errors| == (if |els| <= MAX_ERRORS then |els| else MAX_ERRORS)
    && forall i :: 0 <= i < |errors| ==> ErrorOf(els[i], errors[i])
  }

  // ---- Slots ------------------------------------------------------------------------------

  lemma {:induction false} TextsAre(ns: seq<Node>, t: string)
    ensures t in Texts(ns) <==> exists e :: e in ns && ElementText(e) == Some(t)
  {
    hide ElementText;
    if ns != [] {
      TextsAre(ns[1..], t);
      assert ns == [ns[0]] + ns[1..];
    }
  }

  lemma {:induction false} InfoTextsAre(infos: seq<Node>, local: string, t: string)
    ensures t in InfoTexts(infos, local) <==>
              exists info, e :: info in infos && Within(info, Eb(local), e) && ElementText(e) == Some(t)
  {
    hide ElementText, Descendants;
    if infos != [] {
      InfoTextsAre(infos[1..], local, t);
      TextsAre(Select(Descendants(infos[0]), Eb(local)), t);
      assert infos == [infos[0]] + infos[1..];
      assert t in Texts(Select(Descendants(infos[0]), Eb(local))) <==>
               exists e :: Within(infos[0], Eb(local), e) && ElementText(e) == Some(t);
    }
  }

  lemma SlotSays(signal: Node, local: string)
    requires |InfoTexts(Infos(signal), local)| <= 1
    ensures forall t :: First(InfoTexts(Infos(signal), local)) == Some(t) <==> InfoSays(signal, local, t)
  {
    hide InfoTexts, ElementText, Descendants;
    forall t ensures t in InfoTexts(Infos(signal), local) <==> InfoSays(signal, local, t) {
      InfoTextsAre(Infos(signal), local, t);
      assert forall info :: info in Infos(signal) <==> Within(signal, Eb("MessageInfo"), info);
    }
  }

  // ---- References -----------------------------------------------------------------------------

  lemma {:induction false} FindIsFirst(ns: seq<Node>, name: Name)
    ensures match Find(ns, name)
            case Some(e) =>
              exists k :: && 0 <= k < |ns| && ns[k] == e && IsElement(e, name)
                          && forall j :: 0 <= j < k ==> !IsElement(ns[j], name)
            case None => forall j :: 0 <= j < |ns| ==> !IsElement(ns[j], name)
  {
    if ns != [] {
      if IsElement(ns[0], name) {
        assert ns[0] == ns[0] && Find(ns, name) == Some(ns[0]);
      } else {
        FindIsFirst(ns[1..], name);
        if Find(ns, name).Some? {
          var e := Find(ns, name).value;
          var k :| && 0 <= k < |ns[1..]| && ns[1..][k] == e && IsElement(e, name)
                   && forall j :: 0 <= j < k ==> !IsElement(ns[1..][j], name);
          assert ns[k + 1] == e;
          assert forall j :: 1 <= j < k + 1 ==> ns[j] == ns[1..][j - 1];
        } else {
          assert forall j :: 1 <= j < |ns| ==> ns[j] == ns[1..][j - 1];
        }
      }
    }
  }

  lemma FirstIsFound(n: Node, name: Name, e: Node)
    ensures FirstWithin(n, name, e) <==> Find(Descendants(n), name) == Some(e)
    ensures Find(Descendants(n), name).None? <==> !exists x :: Within(n, name, x)
  {
    var ns := Descendants(n);
    FindIsFirst(ns, name);
    hide Descendants, Find;
    if Find(ns, name).Some? {
      var f := Find(ns, name).value;
      assert Within(n, name, f);
      if FirstWithin(n, name, e) {
        OneFirst(ns, name, e, f);
      }
    }
  }

  lemma OneFirst(ns: seq<Node>, name: Name, e: Node, f: Node)
    requires exists k :: && 0 <= k < |ns| && ns[k] == e && IsElement(e, name)
                         && forall j :: 0 <= j < k ==> !IsElement(ns[j], name)
    requires exists k :: && 0 <= k < |ns| && ns[k] == f && IsElement(f, name)
                         && forall j :: 0 <= j < k ==> !IsElement(ns[j], name)
    ensures e == f
  {
  }

  lemma ReferenceStates(r: Node, x: NriReference)
    ensures ReadReference(r) == [x] <==> States(r, x)
    ensures x in ReadReference(r) <==> ReadReference(r) == [x]
  {
    var m, v := Find(Descendants(r), Ds("DigestMethod")), Find(Descendants(r), Ds("DigestValue"));
    forall e ensures FirstWithin(r, Ds("DigestMethod"), e) <==> m == Some(e) {
      FirstIsFound(r, Ds("DigestMethod"), e);
    }
    forall e ensures FirstWithin(r, Ds("DigestValue"), e) <==> v == Some(e) {
      FirstIsFound(r, Ds("DigestValue"), e);
    }
    hide FirstWithin, Descendants, Find, ElementText, PlainAttribute;
  }

  lemma {:induction false} HarvestIs(rs: seq<Node>, got: seq<NriReference>, x: NriReference)
    requires Harvest(rs, got).Some?
    ensures x in Harvest(rs, got).value <==> x in got || exists r :: r in rs && States(r, x)
  {
    if rs != [] {
      HarvestIs(rs[1..], got + ReadReference(rs[0]), x);
      ReferenceStates(rs[0], x);
      hide ReadReference, States;
      assert rs == [rs[0]] + rs[1..];
    }
  }

  lemma {:induction false} ReferencesAre(nris: seq<Node>, r: Node)
    ensures r in ReferencesOf(nris) <==> exists nri :: nri in nris && Within(nri, Ds("Reference"), r)
  {
    hide Descendants;
    if nris != [] {
      ReferencesAre(nris[1..], r);
      assert r in ReferencesOf(nris) <==> Within(nris[0], Ds("Reference"), r) || r in ReferencesOf(nris[1..]);
      assert forall nri :: nri in nris <==> nri == nris[0] || nri in nris[1..];
    }
  }

  lemma {:induction false} NrisAre(ns: seq<Node>, n: Node)
    ensures n in Nris(ns) <==> n in ns && IsNri(n)
  {
    if ns != [] { NrisAre(ns[1..], n); }
  }

  lemma {:induction false} NrisOfAre(receipts: seq<Node>, n: Node)
    ensures n in NrisOf(receipts) <==> exists receipt :: receipt in receipts && n in Descendants(receipt) && IsNri(n)
  {
    hide Descendants;
    if receipts != [] {
      NrisOfAre(receipts[1..], n);
      NrisAre(Descendants(receipts[0]), n);
      assert n in NrisOf(receipts) <==> (n in Descendants(receipts[0]) && IsNri(n)) || n in NrisOf(receipts[1..]);
      assert forall receipt :: receipt in receipts <==> receipt == receipts[0] || receipt in receipts[1..];
    }
  }

  lemma NrisOfSignal(signal: Node, nri: Node)
    ensures nri in NrisOf(Receipts(signal)) <==> exists receipt :: NriWithin(signal, receipt, nri)
  {
    NrisOfAre(Receipts(signal), nri);
    hide Descendants, NrisOf;
    assert forall receipt :: receipt in Receipts(signal) <==> Within(signal, Eb("Receipt"), receipt);
    assert forall receipt ::
      NriWithin(signal, receipt, nri) <==> receipt in Receipts(signal) && nri in Descendants(receipt) && IsNri(nri);
  }

  lemma ReferencesSay(signal: Node)
    requires Harvest(ReferencesOf(NrisOf(Receipts(signal))), []).Some?
    ensures forall x :: x in Harvest(ReferencesOf(NrisOf(Receipts(signal))), []).value <==> ReferenceIn(signal, x)
  {
    var nris := NrisOf(Receipts(signal));
    var rs := ReferencesOf(nris);
    forall x ensures x in Harvest(rs, []).value <==> ReferenceIn(signal, x) {
      HarvestIs(rs, [], x);
      forall r ensures r in rs <==> exists nri :: nri in nris && Within(nri, Ds("Reference"), r) {
        ReferencesAre(nris, r);
      }
      forall nri ensures nri in nris <==> exists receipt :: NriWithin(signal, receipt, nri) {
        NrisOfSignal(signal, nri);
      }
      hide Harvest, ReferencesOf, NrisOf, States, Within, NriWithin;
    }
  }

  // ---- Errors ------------------------------------------------------------------------------------

  lemma TextIsFirst(n: Node, name: Name)
    ensures FirstText(n, name, TextOf(Find(Descendants(n), name)))
  {
    var f := Find(Descendants(n), name);
    if f.Some? {
      FirstIsFound(n, name, f.value);
    } else {
      FirstIsFound(n, name, n);
    }
    hide Find, Descendants, FirstWithin, Within, ElementText;
  }

  lemma ReadErrorIs(e: Node)
    ensures ErrorOf(e, ReadError(e))
  {
    TextIsFirst(e, Eb("Description"));
    TextIsFirst(e, Eb("ErrorDetail"));
    hide FirstText, Find, Descendants, PlainAttribute, TextOf;
  }

  lemma {:induction false} ReadErrorsAre(es: seq<Node>)
    ensures |ReadErrors(es)| == |es| && forall i :: 0 <= i < |es| ==> ErrorOf(es[i], ReadErrors(es)[i])
  {
    if es != [] {
      ReadErrorIs(es[0]);
      ReadErrorsAre(es[1..]);
      hide ErrorOf, ReadError;
      forall i | 0 <= i < |es| ensures ErrorOf(es[i], ReadErrors(es)[i]) {
        assert i > 0 ==> es[i] == es[1..][i - 1];
      }
    }
  }

  // ---- The parsed signal -----------------------------------------------------------------------------

  lemma ReadSignalMeans(doc: Node, signal: Node, hasSignature: bool)
    requires ReadSignal(signal, hasSignature).Ok? && (hasSignature <==> exists n :: Within(doc, Ds("Signature"), n))
    ensures Describes(ReadSignal(signal, hasSignature).envelope, doc, signal)
    ensures ListsErrors(ReadSignal(signal, hasSignature).envelope.errors, signal)
  {
    hide *;
    SlotsMean(signal, hasSignature);
    ReferencesMean(signal, hasSignature);
    ErrorsMean(signal, hasSignature);
    DescribesAll(ReadSignal(signal, hasSignature).envelope, doc, signal);
  }

  ghost predicate SlotsSay(env: Envelope, signal: Node)
  {
    && (forall t :: env.messageId == Some(t) <==> InfoSays(signal, "MessageId", t))
    && (forall t :: env.refTo == Some(t) <==> InfoSays(signal, "RefToMessageId", t))
    && (forall t :: env.timestamp == Some(t) <==> InfoSays(signal, "Timestamp", t))
  }

  ghost predicate ReceiptsSay(env: Envelope, signal: Node)
  {
    && (env.hasReceipt <==> exists r :: Within(signal, Eb("Receipt"), r))
    && (env.hasNri <==> exists receipt, nri :: NriWithin(signal, receipt, nri))
    && (forall x :: x in env.references <==> ReferenceIn(signal, x))
  }

  lemma DescribesAll(env: Envelope, doc: Node, signal: Node)
    requires SlotsSay(env, signal) && ReceiptsSay(env, signal)
    requires env.hasSignature <==> exists n :: Within(doc, Ds("Signature"), n)
    ensures Describes(env, doc, signal)
  {
    hide InfoSays, Within, NriWithin, ReferenceIn;
  }

  lemma SlotsMean(signal: Node, hasSignature: bool)
    requires ReadSignal(signal, hasSignature).Ok?
    ensures SlotsSay(ReadSignal(signal, hasSignature).envelope, signal)
  {
    hide *;
    SlotsHold(signal, hasSignature);
    SlotSays(signal, "MessageId");
    SlotSays(signal, "RefToMessageId");
    SlotSays(signal, "Timestamp");
    SlotsSayAll(ReadSignal(signal, hasSignature).envelope, signal);
  }

  lemma SlotsHold(signal: Node, hasSignature: bool)
    requires ReadSignal(signal, hasSignature).Ok?
    ensures var env := ReadSignal(signal, hasSignature).envelope;
            && env.messageId == First(InfoTexts(Infos(signal), "MessageId"))
            && env.refTo == First(InfoTexts(Infos(signal), "RefToMessageId"))
            && env.timestamp == First(InfoTexts(Infos(signal), "Timestamp"))
    ensures |InfoTexts(Infos(signal), "MessageId")| <= 1 && |InfoTexts(Infos(signal), "RefToMessageId")| <= 1
    ensures |InfoTexts(Infos(signal), "Timestamp")| <= 1
  {
    hide InfoTexts, Infos, First, Harvest, ReferencesOf, NrisOf, Receipts, ReadErrors, Take, Select, Descendants;
  }

  lemma SlotsSayAll(env: Envelope, signal: Node)
    requires forall t :: env.messageId == Some(t) <==> InfoSays(signal, "MessageId", t)
    requires forall t :: env.refTo == Some(t) <==> InfoSays(signal, "RefToMessageId", t)
    requires forall t :: env.timestamp == Some(t) <==> InfoSays(signal, "Timestamp", t)
    ensures SlotsSay(env, signal)
  {
    hide InfoSays;
  }

  lemma ReferencesMean(signal: Node, hasSignature: bool)
    requires ReadSignal(signal, hasSignature).Ok?
    ensures ReceiptsSay(ReadSignal(signal, hasSignature).envelope, signal)
  {
    hide InfoTexts, Infos, Harvest, ReferencesOf, NrisOf, Receipts, ReadErrors, Take, Select, Descendants,
      Within, NriWithin, ReferenceIn;
    ReferencesSay(signal);
    SignalHas(signal);
  }

  lemma ErrorsMean(signal: Node, hasSignature: bool)
    requires ReadSignal(signal, hasSignature).Ok?
    ensures ListsErrors(ReadSignal(signal, hasSignature).envelope.errors, signal)
  {
    var els := Select(Descendants(signal), Eb("Error"));
    ReadErrorsAre(Take(els, MAX_ERRORS));
    hide InfoTexts, Infos, Harvest, ReferencesOf, NrisOf, Receipts, ReadErrors, Select, Descendants, ErrorOf;
  }

  lemma SignalHas(signal: Node)
    ensures Receipts(signal) != [] <==> exists r :: Within(signal, Eb("Receipt"), r)
    ensures NrisOf(Receipts(signal)) != [] <==> exists receipt, nri :: NriWithin(signal, receipt, nri)
  {
    var rs, nris := Receipts(signal), NrisOf(Receipts(signal));
    forall nri ensures nri in nris <==> exists receipt :: NriWithin(signal, receipt, nri) {
      NrisOfSignal(signal, nri);
    }
    assert forall r :: r in rs <==> Within(signal, Eb("Receipt"), r);
    hide Within, NriWithin, NrisOf, Receipts;
    assert rs != [] ==> rs[0] in rs;
    if nris != [] {
      assert nris[0] in nris;
      var receipt :| NriWithin(signal, receipt, nris[0]);
    }
    if receipt, nri :| NriWithin(signal, receipt, nri) {
      assert nri in nris;
    }
  }

  /** An accepted parse of a document with a SignalMessage is of the only one, and every
      field of the envelope says what the elements of that message say. */
  lemma ParsedSignalMeans(doc: Node) returns (signal: Node)
    requires ParseSignal(doc).Ok? && ParseSignal(doc).envelope.hasSignal
    ensures Select(Descendants(doc), Eb("SignalMessage")) == [signal]
    ensures Describes(ParseSignal(doc).envelope, doc, signal)
    ensures ListsErrors(ParseSignal(doc).envelope.errors, signal)
  {
    var all := Descendants(doc);
    var signals, signatures := Select(all, Eb("SignalMessage")), Select(all, Ds("Signature"));
    assert forall n :: n in signatures <==> Within(doc, Ds("Signature"), n);
    assert signatures != [] ==> signatures[0] in signatures;
    signal := signals[0];
    hide Descendants, Within, ReadSignal, Describes, ListsErrors;
    ReadSignalMeans(doc, signal, signatures != []);
  }

  /** Without one the envelope is empty but for the signature. */
  lemma NoSignalMeans(doc: Node)
    requires ParseSignal(doc).Ok?
    ensures ParseSignal(doc).envelope.hasSignal <==> exists n :: Within(doc, Eb("SignalMessage"), n)
    ensures ParseSignal(doc).envelope.hasSignature <==> exists n :: Within(doc, Ds("Signature"), n)
  {
    var signals, signatures := Select(Descendants(doc), Eb("SignalMessage")), Select(Descendants(doc), Ds("Signature"));
    assert forall n :: n in signals <==> Within(doc, Eb("SignalMessage"), n);
    assert forall n :: n in signatures <==> Within(doc, Ds("Signature"), n);
    hide Descendants, Within;
    assert signals != [] ==> signals[0] in signals;
    assert signatures != [] ==> signatures[0] in signatures;
  }

  // ---- Texts and attributes ------------------------------------------------------------------------

  /** An element that holds only text has it trimmed, and none if it is blank. */
  lemma TextOfLeaf(name: Name, attrs: map<Name, string>, t: string)
    ensures ElementText(Element(name, attrs, [Chars(t)])) == if Trim(t) == "" then None else Some(Trim(t))
  {
    var leaf, chars := Element(name, attrs, [Chars(t)]), Chars(t);
    assert [chars][1..] == [] && Descendants(chars) == [chars] && Below([chars]) == [chars];
    assert Descendants(leaf) == [leaf, chars];
    assert [leaf, chars][1..] == [chars];
    assert Characters([]) == "" && Characters([chars]) == t && Characters([leaf, chars]) == t;
  }
}
