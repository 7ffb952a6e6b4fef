/** The counterparty's `eb:SignalMessage` (src/as4/parser.rs): what is read from the
    document, and the shapes that are refused as ambiguous. */
module Signal {
  import opened Wrappers
  import opened Xml

  const MAX_NRI_REFERENCES: nat := 256
  const MAX_ERRORS: nat := 64

  function Eb(local: string): Name { Name(Ebms3, local) }

  function Ds(local: string): Name { Name(XmlDsig, local) }

  datatype NriReference = NriReference(uri: string, method_: string, digest: string)

  datatype ReceivedError = ReceivedError(
    code: string, severity: Option<string>, category: Option<string>, origin: Option<string>,
    refTo: Option<string>, short: Option<string>, description: Option<string>, detail: Option<string>)

  datatype Envelope = Envelope(
    hasSignal: bool, hasReceipt: bool, hasNri: bool, hasSignature: bool,
    messageId: Option<string>, refTo: Option<string>, timestamp: Option<string>,
    references: seq<NriReference>, errors: seq<ReceivedError>)

  /** `Wrapping`: an ambiguous shape; `TooLarge`: more references than retained. */
  datatype Parsed = Ok(envelope: Envelope) | Wrapping | TooLarge

  // ---- What is read from a SignalMessage -------------------------------------

  /** The non-empty texts of some elements, in order. */
  function Texts(ns: seq<Node>): seq<string>
  {
    if ns == [] then []
    else (match ElementText(ns[0]) case Some(t) => [t] case None => []) + Texts(ns[1..])
  }

  /** The non-empty texts of the elements `local` of all `eb:MessageInfo`s. */
  function InfoTexts(infos: seq<Node>, local: string): seq<string>
  {
    if infos == [] then []
    else Texts(Select(Descendants(infos[0]), Eb(local))) + InfoTexts(infos[1..], local)
  }

  function Infos(signal: Node): seq<Node>
  {
    Select(Descendants(signal), Eb("MessageInfo"))
  }

  function First(ts: seq<string>): Option<string>
  {
    if ts == [] then None else Some(ts[0])
  }

  predicate IsNri(n: Node)
  {
    IsElement(n, Name(EbbpSignals, "NonRepudiationInformation")) || IsElement(n, Eb("NonRepudiationInformation"))
  }

  function Nris(ns: seq<Node>): seq<Node>
  {
    if ns == [] then [] else (if IsNri(ns[0]) then [ns[0]] else []) + Nris(ns[1..])
  }

  /** The NonRepudiationInformation elements of some receipts. */
  function NrisOf(receipts: seq<Node>): seq<Node>
  {
    if receipts == [] then [] else Nris(Descendants(receipts[0])) + NrisOf(receipts[1..])
  }

  function ReferencesOf(nris: seq<Node>): seq<Node>
  {
    if nris == [] then [] else Select(Descendants(nris[0]), Ds("Reference")) + ReferencesOf(nris[1..])
  }

  function AttributeOf(n: Option<Node>, local: string): Option<string>
  {
    if n.Some? then PlainAttribute(n.value, local) else None
  }

  function TextOf(n: Option<Node>): Option<string>
  {
    if n.Some? then ElementText(n.value) else None
  }

  /** A complete reference, or nothing. */
  function ReadReference(r: Node): seq<NriReference>
  {
    var inside := Descendants(r);
    match (PlainAttribute(r, "URI"), AttributeOf(Find(inside, Ds("DigestMethod")), "Algorithm"),
           TextOf(Find(inside, Ds("DigestValue"))))
    case (Some(uri), Some(alg), Some(digest)) => [NriReference(uri, alg, digest)]
    case _ => []
  }

  /** The complete references, unless one comes after the cap is reached. */
  function Harvest(rs: seq<Node>, got: seq<NriReference>): Option<seq<NriReference>>
  {
    if rs == [] then Some(got)
    else if |got| >= MAX_NRI_REFERENCES then None
    else Harvest(rs[1..], got + ReadReference(rs[0]))
  }

  function ReadError(e: Node): ReceivedError
  {
    var inside := Descendants(e);
    ReceivedError(
      match PlainAttribute(e, "errorCode") { case Some(c) => c case None => "unknown" },
      PlainAttribute(e, "severity"), PlainAttribute(e, "category"), PlainAttribute(e, "origin"),
      PlainAttribute(e, "refToMessageId"), PlainAttribute(e, "shortDescription"),
      TextOf(Find(inside, Eb("Description"))), TextOf(Find(inside, Eb("ErrorDetail"))))
  }

  function ReadErrors(es: seq<Node>): seq<ReceivedError>
  {
    if es == [] then [] else [ReadError(es[0])] + ReadErrors(es[1..])
  }

  function Take<T>(s: seq<T>, n: nat): seq<T>
  {
    if |s| <= n then s else s[..n]
  }

  function Receipts(signal: Node): seq<Node>
  {
    Select(Descendants(signal), Eb("Receipt"))
  }

  /** Everything read from one SignalMessage element. */
  function ReadSignal(signal: Node, hasSignature: bool): (r: Parsed)
    ensures r.Ok? ==> r.envelope.hasSignal && r.envelope.hasSignature == hasSignature
  {
    var ids := InfoTexts(Infos(signal), "MessageId");
    var refs := InfoTexts(Infos(signal), "RefToMessageId");
    var times := InfoTexts(Infos(signal), "Timestamp");
    var nris := NrisOf(Receipts(signal));
    if |ids| > 1 || |refs| > 1 || |times| > 1 then Wrapping
    else match Harvest(ReferencesOf(nris), [])
      case None => TooLarge
      case Some(references) =>
        Ok(Envelope(true, Receipts(signal) != [], nris != [], hasSignature,
                    First(ids), First(refs), First(times), references,
                    ReadErrors(Take(Select(Descendants(signal), Eb("Error")), MAX_ERRORS))))
  }

  const Blank: Envelope := Envelope(false, false, false, false, None, None, None, [], [])

  /** `parse_as4_signal_envelope`. */
  function ParseSignal(doc: Node): Parsed
  {
    var all := Descendants(doc);
    var hasSignature := Select(all, Ds("Signature")) != [];
    var signals := Select(all, Eb("SignalMessage"));
    if |Select(all, Eb("Messaging"))| > 1 then Wrapping
    else if signals == [] then Ok(Blank.(hasSignature := hasSignature))
    else if |signals| > 1 then Wrapping
    else ReadSignal(signals[0], hasSignature)
  }

  // ---- The parser as it runs ---------------------------------------------------

  function AsList(slot: Option<string>): seq<string>
  {
    if slot.Some? then [slot.value] else []
  }

  /** Fill a slot from some elements. `false` when it would be filled twice. */
  method FillSlot(nodes: seq<Node>, before: Option<string>) returns (ok: bool, slot: Option<string>)
    ensures ok == (|AsList(before) + Texts(nodes)| <= 1)
    ensures ok ==> AsList(slot) == AsList(before) + Texts(nodes)
  {
    slot := before;
    for i := 0 to |nodes|
      invariant AsList(slot) + Texts(nodes[i..]) == AsList(before) + Texts(nodes)
    {
      assert nodes[i..][1..] == nodes[i + 1..];
      var value := ElementText(nodes[i]);
      if value.Some? {
        assert Texts(nodes[i..]) == [value.value] + Texts(nodes[i + 1..]);
        if slot.Some? {
          return false, slot;
        }
        slot := value;
      } else {
        assert Texts(nodes[i..]) == Texts(nodes[i + 1..]);
      }
    }
    assert nodes[|nodes|..] == [];
    return true, slot;
  }

  /** What the slot of `local` holds after the first `i` infos. */
  ghost predicate Filled(infos: seq<Node>, i: nat, local: string, slot: Option<string>)
    requires i <= |infos|
  {
    InfoTexts(infos, local) == AsList(slot) + InfoTexts(infos[i..], local)
  }

  lemma InfoTextsStep(infos: seq<Node>, i: nat, local: string)
    requires i < |infos|
    ensures InfoTexts(infos[i..], local) ==
            Texts(Select(Descendants(infos[i]), Eb(local))) + InfoTexts(infos[i + 1..], local)
  {
    assert infos[i..][1..] == infos[i + 1..];
  }

  method FillFromInfo(infos: seq<Node>, i: nat, local: string, before: Option<string>)
    returns (ok: bool, slot: Option<string>)
    requires i < |infos| && Filled(infos, i, local, before)
    ensures if ok then Filled(infos, i + 1, local, slot) else |InfoTexts(infos, local)| > 1
  {
    hide Descendants, Select, Texts, InfoTexts;
    var nodes := Select(Descendants(infos[i]), Eb(local));
    ok, slot := FillSlot(nodes, before);
    InfoTextsStep(infos, i, local);
    ghost var after := InfoTexts(infos[i + 1..], local);
    assert InfoTexts(infos, local) == (AsList(before) + Texts(nodes)) + after;
  }

  /** The three `MessageInfo` slots. `false` when one would be filled twice. */
  method FillSlots(infos: seq<Node>)
    returns (ok: bool, id: Option<string>, refTo: Option<string>, timestamp: Option<string>)
    ensures ok <==> && |InfoTexts(infos, "MessageId")| <= 1
                    && |InfoTexts(infos, "RefToMessageId")| <= 1
                    && |InfoTexts(infos, "Timestamp")| <= 1
    ensures ok ==> && id == First(InfoTexts(infos, "MessageId"))
                   && refTo == First(InfoTexts(infos, "RefToMessageId"))
                   && timestamp == First(InfoTexts(infos, "Timestamp"))
  {
    id, refTo, timestamp := None, None, None;
    assert infos[0..] == infos;
    for i := 0 to |infos|
      invariant Filled(infos, i, "MessageId", id)
      invariant Filled(infos, i, "RefToMessageId", refTo)
      invariant Filled(infos, i, "Timestamp", timestamp)
    {
      ok, id := FillFromInfo(infos, i, "MessageId", id);
      if !ok {
        return;
      }
      ok, refTo := FillFromInfo(infos, i, "RefToMessageId", refTo);
      if !ok {
        return;
      }
      ok, timestamp := FillFromInfo(infos, i, "Timestamp", timestamp);
      if !ok {
        return;
      }
    }
    assert infos[|infos|..] == [];
    ok := true;
  }

  /** The references of one NonRepudiationInformation, appended to those read so
      far. `None` when one comes after the cap is reached. */
  method AddReferences(nri: Node, got: seq<NriReference>) returns (r: Option<seq<NriReference>>)
    ensures r == Harvest(Select(Descendants(nri), Ds("Reference")), got)
  {
    var nodes := Select(Descendants(nri), Ds("Reference"));
    var out := got;
    for i := 0 to |nodes|
      invariant Harvest(nodes, got) == Harvest(nodes[i..], out)
    {
      assert nodes[i..][1..] == nodes[i + 1..];
      if |out| >= MAX_NRI_REFERENCES {
        return None;
      }
      var inside := Descendants(nodes[i]);
      var alg := AttributeOf(Find(inside, Ds("DigestMethod")), "Algorithm");
      var digest := TextOf(Find(inside, Ds("DigestValue")));
      var uri := PlainAttribute(nodes[i], "URI");
      if uri.Some? && alg.Some? && digest.Some? {
        out := out + [NriReference(uri.value, alg.value, digest.value)];
      } else {
        assert out + ReadReference(nodes[i]) == out;
      }
    }
    assert nodes[|nodes|..] == [];
    return Some(out);
  }

  lemma {:induction false} HarvestSplits(a: seq<Node>, b: seq<Node>, got: seq<NriReference>)
    ensures Harvest(a + b, got) ==
            match Harvest(a, got) case Some(more) => Harvest(b, more) case None => None
    decreases |a|
  {
    if a == [] {
      assert a + b == b;
    } else {
      assert (a + b)[1..] == a[1..] + b;
      HarvestSplits(a[1..], b, got + ReadReference(a[0]));
    }
  }

  lemma {:induction false} ReferencesSplit(a: seq<Node>, b: seq<Node>)
    ensures ReferencesOf(a + b) == ReferencesOf(a) + ReferencesOf(b)
    decreases |a|
  {
    if a == [] {
      assert a + b == b;
    } else {
      assert (a + b)[1..] == a[1..] + b;
      ReferencesSplit(a[1..], b);
    }
  }

  /** The references read after the NonRepudiationInformation elements `seen`. */
  ghost predicate Harvested(seen: seq<Node>, hasNri: bool, out: seq<NriReference>)
  {
    hasNri == (seen != []) && Harvest(ReferencesOf(seen), []) == Some(out)
  }

  /** The references of one receipt. */
  method HarvestReceipt(receipt: Node, hasNri: bool, got: seq<NriReference>, ghost seen: seq<Node>)
    returns (has: bool, r: Option<seq<NriReference>>)
    requires Harvested(seen, hasNri, got)
    ensures r.Some? ==> Harvested(seen + Nris(Descendants(receipt)), has, r.value)
    ensures r.None? ==> Harvest(ReferencesOf(seen + Nris(Descendants(receipt))), []) == None
  {
    hide Descendants, Nris, Harvest, ReferencesOf, Select;
    has := hasNri;
    var out := got;
    var nris := Nris(Descendants(receipt));
    ghost var done := seen;
    for j := 0 to |nris|
      invariant done + nris[j..] == seen + nris
      invariant Harvested(done, has, out)
    {
      has := true;
      HarvestOneMore(done, nris[j], out);
      var more := AddReferences(nris[j], out);
      done := done + [nris[j]];
      assert done + nris[j + 1..] == seen + nris;
      if more.None? {
        HarvestFails(done, nris[j + 1..]);
        return has, None;
      }
      out := more.value;
    }
    assert done == seen + nris;
    return has, Some(out);
  }

  /** All references of a signal's receipts. */
  method HarvestReceipts(receipts: seq<Node>) returns (hasNri: bool, r: Option<seq<NriReference>>)
    ensures r == Harvest(ReferencesOf(NrisOf(receipts)), [])
    ensures r.Some? ==> hasNri == (NrisOf(receipts) != [])
  {
    NoNris();
    hide Descendants, Nris, NrisOf, Harvest, ReferencesOf;
    hasNri := false;
    var out := [];
    assert receipts[..0] == [];
    for i := 0 to |receipts|
      invariant Harvested(NrisOf(receipts[..i]), hasNri, out)
    {
      NrisOneMore(receipts, i);
      var more;
      hasNri, more := HarvestReceipt(receipts[i], hasNri, out, NrisOf(receipts[..i]));
      if more.None? {
        NrisSplit(receipts[..i + 1], receipts[i + 1..]);
        assert receipts[..i + 1] + receipts[i + 1..] == receipts;
        HarvestFails(NrisOf(receipts[..i + 1]), NrisOf(receipts[i + 1..]));
        return hasNri, None;
      }
      out := more.value;
    }
    assert receipts[..|receipts|] == receipts;
    return hasNri, Some(out);
  }

  lemma NoNris()
    ensures NrisOf([]) == [] && Harvest(ReferencesOf([]), []) == Some([])
  {
  }

  lemma NrisOneMore(receipts: seq<Node>, i: nat)
    requires i < |receipts|
    ensures NrisOf(receipts[..i + 1]) == NrisOf(receipts[..i]) + Nris(Descendants(receipts[i]))
  {
    NrisSplit(receipts[..i], [receipts[i]]);
    assert [receipts[i]][1..] == [];
    assert receipts[..i + 1] == receipts[..i] + [receipts[i]];
  }

  lemma {:induction false} NrisSplit(a: seq<Node>, b: seq<Node>)
    ensures NrisOf(a + b) == NrisOf(a) + NrisOf(b)
    decreases |a|
  {
    if a == [] {
      assert a + b == b;
    } else {
      assert (a + b)[1..] == a[1..] + b;
      NrisSplit(a[1..], b);
    }
  }

  lemma HarvestOneMore(seen: seq<Node>, nri: Node, out: seq<NriReference>)
    requires Harvest(ReferencesOf(seen), []) == Some(out)
    ensures Harvest(ReferencesOf(seen + [nri]), []) == Harvest(Select(Descendants(nri), Ds("Reference")), out)
  {
    ReferencesSplit(seen, [nri]);
    assert [nri][1..] == [];
    assert ReferencesOf([nri]) == Select(Descendants(nri), Ds("Reference"));
    HarvestSplits(ReferencesOf(seen), ReferencesOf([nri]), []);
  }

  lemma HarvestFails(seen: seq<Node>, rest: seq<Node>)
    requires Harvest(ReferencesOf(seen), []) == None
    ensures Harvest(ReferencesOf(seen + rest), []) == None
  {
    ReferencesSplit(seen, rest);
    HarvestSplits(ReferencesOf(seen), ReferencesOf(rest), []);
  }

  method CollectErrors(nodes: seq<Node>) returns (errors: seq<ReceivedError>)
    ensures errors == ReadErrors(nodes)
  {
    hide ReadError;
    errors := [];
    for i := 0 to |nodes|
      invariant ReadErrors(nodes) == errors + ReadErrors(nodes[i..])
    {
      assert nodes[i..][1..] == nodes[i + 1..];
      errors := errors + [ReadError(nodes[i])];
    }
    assert nodes[|nodes|..] == [];
  }

  method ParseSignalEnvelope(doc: Node) returns (r: Parsed)
    ensures r == ParseSignal(doc)
  {
    var all := Descendants(doc);
    var out := Blank.(hasSignature := Select(all, Ds("Signature")) != []);
    if |Select(all, Eb("Messaging"))| > 1 {
      return Wrapping;
    }
    var signals := Select(all, Eb("SignalMessage"));
    if signals == [] {
      return Ok(out);
    }
    if |signals| > 1 {
      return Wrapping;
    }
    var signal := signals[0];
    out := out.(hasSignal := true);
    var ok, id, refTo, timestamp := FillSlots(Infos(signal));
    if !ok {
      return Wrapping;
    }
    out := out.(messageId := id, refTo := refTo, timestamp := timestamp);
    out := out.(hasReceipt := Receipts(signal) != []);
    var hasNri, references := HarvestReceipts(Receipts(signal));
    if references.None? {
      return TooLarge;
    }
    out := out.(hasNri := hasNri, references := references.value);
    var errors := CollectErrors(Take(Select(Descendants(signal), Eb("Error")), MAX_ERRORS));
    return Ok(out.(errors := errors));
  }
}
