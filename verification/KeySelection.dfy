/** Which decrypter opens a message: the uniqueness the configuration is checked for
    (src/builder.rs) and the selection by reference of AS4 (src/as4/inbound.rs) and
    AS2 (src/as2/cms_keys.rs). */
module KeySelection {
  import opened Wrappers

  type Octets = seq<nat>

  datatype KeyKind = Rsa | Ec(curve: Option<string>) | OtherKey

  /** What selection reads of a certificate: its encoding, the subject key identifiers
      it answers to, its issuer's name attributes in order, its serial number, its
      key, and whether the CMS parser reads it. */
  datatype Certificate = Certificate(
    der: Octets, skis: seq<Octets>, issuer: seq<string>, serial: nat, kind: KeyKind, parses: bool)

  // ---- The configuration check -----------------------------------------------------

  /** Some subject key identifier that both answer to. */
  predicate ShareSki(a: Certificate, b: Certificate)
  {
    exists s :: s in a.skis && s in b.skis
  }

  /** Every decrypter has an allowed key and no two share a certificate or a subject
      key identifier. */
  ghost predicate Acceptable(decrypters: seq<Certificate>, allowed: KeyKind -> bool)
  {
    && (forall i :: 0 <= i < |decrypters| ==> allowed(decrypters[i].kind))
    && forall i, j :: 0 <= i < j < |decrypters|
        ==> decrypters[i].der != decrypters[j].der && !ShareSki(decrypters[i], decrypters[j])
  }

  /** The decrypter loop of `validate`. */
  method Validate(decrypters: seq<Certificate>, allowed: KeyKind -> bool) returns (ok: bool)
    ensures ok <==> Acceptable(decrypters, allowed)
  {
    var seenCerts: seq<Octets> := [];
    var seenSkis: seq<Octets> := [];
    for n := 0 to |decrypters|
      invariant Acceptable(decrypters[..n], allowed)
      invariant forall d :: d in seenCerts <==> exists i :: 0 <= i < n && decrypters[i].der == d
      invariant forall s :: s in seenSkis <==> exists i :: 0 <= i < n && s in decrypters[i].skis
    {
      var cert := decrypters[n];
      if !allowed(cert.kind) {
        return false;
      }
      if cert.der in seenCerts || exists s :: s in cert.skis && s in seenSkis {
        return false;
      }
      seenCerts := seenCerts + [cert.der];
      seenSkis := seenSkis + cert.skis;
    }
    assert decrypters[..|decrypters|] == decrypters;
    return true;
  }

  // ---- AS4 selection ----------------------------------------------------------------

  /** How an encrypted key names its recipient; the serial is absent where it is not a
      decimal number. */
  datatype Reference =
    | BySki(ski: Octets)
    | ByCertificate(der: Octets)
    | ByIssuerSerial(issuer: seq<string>, serial: Option<nat>)
    | Unnamed

  function Reversed(s: seq<string>): (r: seq<string>)
  {
    seq(|s|, i requires 0 <= i < |s| => s[|s| - 1 - i])
  }

  predicate Answers(cert: Certificate, ref: Reference)
  {
    match ref
    case BySki(ski) => ski in cert.skis
    case ByCertificate(der) => cert.der == der
    case ByIssuerSerial(issuer, serial) =>
      serial == Some(cert.serial) && (cert.issuer == issuer || Reversed(cert.issuer) == issuer)
    case Unnamed => false
  }

  /** The indices below `n` of the decrypters a reference names, in order. */
  function Matching(keys: seq<Certificate>, ref: Reference, n: nat): (m: seq<nat>)
    requires n <= |keys|
    ensures forall i :: 0 <= i < |m| ==> m[i] < n
    ensures forall i :: 0 <= i < n ==> (i in m <==> Answers(keys[i], ref))
    ensures forall a, b :: 0 <= a < b < |m| ==> m[a] < m[b]
  {
    if n == 0 then []
    else if Answers(keys[n - 1], ref) then Matching(keys, ref, n - 1) + [n - 1]
    else Matching(keys, ref, n - 1)
  }

  predicate Supported(kind: KeyKind)
  {
    kind.Rsa? || (kind.Ec? && kind.curve.Some?)
  }

  /** `Keys::select`: the one decrypter named, if its key type is supported. */
  function Select(keys: seq<Certificate>, ref: Reference): Option<nat>
  {
    var m := Matching(keys, ref, |keys|);
    if |m| == 1 && Supported(keys[m[0]].kind) then Some(m[0]) else None
  }

  /** A reference that names two decrypters. */
  ghost predicate Ambiguous(keys: seq<Certificate>, ref: Reference)
  {
    exists i, j :: 0 <= i < j < |keys| && Answers(keys[i], ref) && Answers(keys[j], ref)
  }

  /** Without repetition, a sequence of one value only has length one. */
  lemma NoRepeats<T>(s: seq<T>, x: T)
    requires x in s && forall a, b :: 0 <= a < b < |s| ==> s[a] != s[b]
    ensures (forall y :: y in s ==> y == x) ==> |s| == 1
  {
    if |s| > 1 {
      assert s[0] in s && s[1] in s && s[0] != s[1];
    }
  }

  /** Selection gives a decrypter exactly when it, and no other, answers to the
      reference and its key type is supported. */
  lemma SelectsTheOnlyAnswer(keys: seq<Certificate>, ref: Reference, i: nat)
    requires i < |keys|
    ensures Select(keys, ref) == Some(i)
       <==> && (forall j :: 0 <= j < |keys| ==> (Answers(keys[j], ref) <==> j == i))
            && (keys[i].kind.Rsa? || (keys[i].kind.Ec? && keys[i].kind.curve.Some?))
  {
    var m := Matching(keys, ref, |keys|);
    if forall j :: 0 <= j < |keys| ==> (Answers(keys[j], ref) <==> j == i) {
      assert i in m;
      NoRepeats(m, i);
    } else if |m| == 1 {
      assert m[0] in m && forall j :: j in m ==> j == m[0];
    }
  }

  /** The configuration check is exactly what selection needs: of decrypters with
      allowed keys, those accepted are the ones for which no subject key identifier
      and no certificate is ambiguous. */
  lemma AcceptedIffUnambiguous(keys: seq<Certificate>, allowed: KeyKind -> bool)
    requires forall i :: 0 <= i < |keys| ==> allowed(keys[i].kind)
    ensures Acceptable(keys, allowed)
       <==> forall ref: Reference :: (ref.BySki? || ref.ByCertificate?) ==> !Ambiguous(keys, ref)
  {
    if !Acceptable(keys, allowed) {
      var i, j :| 0 <= i < j < |keys| && (keys[i].der == keys[j].der || ShareSki(keys[i], keys[j]));
      if keys[i].der == keys[j].der {
        assert Answers(keys[i], ByCertificate(keys[i].der)) && Answers(keys[j], ByCertificate(keys[i].der));
        assert Ambiguous(keys, ByCertificate(keys[i].der));
      } else {
        var s :| s in keys[i].skis && s in keys[j].skis;
        assert Answers(keys[i], BySki(s)) && Answers(keys[j], BySki(s));
        assert Ambiguous(keys, BySki(s));
      }
    }
  }

  /** For every accepted configuration, a subject key identifier or a certificate
      selects a decrypter exactly when some decrypter with a supported key answers to
      it, and then it selects that one. */
  lemma SelectionIsExact(keys: seq<Certificate>, allowed: KeyKind -> bool, ref: Reference)
    requires Acceptable(keys, allowed)
    requires ref.BySki? || ref.ByCertificate?
    ensures forall i :: 0 <= i < |keys|
              ==> (Select(keys, ref) == Some(i) <==> Answers(keys[i], ref) && Supported(keys[i].kind))
    ensures Select(keys, ref).Some?
       <==> exists i :: 0 <= i < |keys| && Answers(keys[i], ref) && Supported(keys[i].kind)
  {
    AcceptedIffUnambiguous(keys, allowed);
    assert !Ambiguous(keys, ref);
    forall i | 0 <= i < |keys|
      ensures Select(keys, ref) == Some(i) <==> Answers(keys[i], ref) && Supported(keys[i].kind)
    {
      SelectsTheOnlyAnswer(keys, ref, i);
    }
    var m := Matching(keys, ref, |keys|);
    assert |m| == 1 ==> m[0] in m;
  }

  /** An issuer and serial names two decrypters of some accepted configuration, and
      then selects neither: the check does not read them. */
  lemma IssuerSerialMayBeAmbiguous(a: Certificate, b: Certificate, allowed: KeyKind -> bool)
    requires a.der != b.der && !ShareSki(a, b) && allowed(a.kind) && allowed(b.kind)
    requires a.serial == b.serial && (a.issuer == b.issuer || a.issuer == Reversed(b.issuer))
    ensures Acceptable([a, b], allowed)
    ensures Select([a, b], ByIssuerSerial(a.issuer, Some(a.serial))) == None
  {
    var ref := ByIssuerSerial(a.issuer, Some(a.serial));
    var keys := [a, b];
    assert Answers(keys[0], ref) && Answers(keys[1], ref);
    assert 0 in Matching(keys, ref, 2) && 1 in Matching(keys, ref, 2);
  }

  /** A decrypter is selected by its own issuer, in either order, and serial when no other
      decrypter has the same serial, or none of that serial has that issuer. */
  lemma SelectsByOwnSerial(keys: seq<Certificate>, i: nat, backwards: bool)
    requires i < |keys| && Supported(keys[i].kind)
    requires forall j :: 0 <= j < |keys| && j != i ==>
               || keys[j].serial != keys[i].serial
               || (keys[j].issuer != keys[i].issuer && keys[j].issuer != Reversed(keys[i].issuer))
    ensures var issuer := if backwards then Reversed(keys[i].issuer) else keys[i].issuer;
            Select(keys, ByIssuerSerial(issuer, Some(keys[i].serial))) == Some(i)
  {
    var issuer := if backwards then Reversed(keys[i].issuer) else keys[i].issuer;
    forall j | 0 <= j < |keys| ensures Answers(keys[j], ByIssuerSerial(issuer, Some(keys[i].serial))) <==> j == i {
      ReversedTwice(keys[j].issuer);
      ReversedTwice(keys[i].issuer);
    }
    SelectsTheOnlyAnswer(keys, ByIssuerSerial(issuer, Some(keys[i].serial)), i);
  }

  lemma ReversedTwice(s: seq<string>)
    ensures Reversed(Reversed(s)) == s
  {
  }

  /** A serial or an issuer that no decrypter has selects none. */
  lemma SelectsNoOther(keys: seq<Certificate>, issuer: seq<string>, serial: Option<nat>)
    requires forall j :: 0 <= j < |keys| ==>
               || serial != Some(keys[j].serial)
               || (issuer != keys[j].issuer && issuer != Reversed(keys[j].issuer))
    ensures Select(keys, ByIssuerSerial(issuer, serial)) == None
  {
    var ref := ByIssuerSerial(issuer, serial);
    forall i: nat | i < |keys| ensures Select(keys, ref) != Some(i) {
      SelectsTheOnlyAnswer(keys, ref, i);
    }
    var m := Matching(keys, ref, |keys|);
    assert |m| == 1 ==> m[0] < |keys| && m[0] in m;
  }

  // ---- AS2 selection ------------------------------------------------------------------

  datatype Transport = Pkcs1v15 | Oaep

  datatype RecipientId = IssuerAndSerial(issuer: seq<string>, serial: nat) | KeyIdentifier(ski: Octets)

  /** A recipient of enveloped data: key transport, with its transport where a key
      operation can express it, or another kind. */
  datatype RecipientInfo = KeyTransport(rid: RecipientId, transport: Option<Transport>,
                                        wrapped: Octets) | OtherRecipient

  predicate Names(rid: RecipientId, cert: Certificate)
  {
    match rid
    case IssuerAndSerial(issuer, serial) => issuer == cert.issuer && serial == cert.serial
    case KeyIdentifier(ski) => ski in cert.skis
  }

  /** The recipient information addresses this decrypter: only RSA keys in a certificate
      the CMS parser reads are looked at. */
  predicate Addresses(info: RecipientInfo, cert: Certificate)
  {
    info.KeyTransport? && cert.kind.Rsa? && cert.parses && Names(info.rid, cert)
  }

  datatype Selected = Selected(decrypter: nat, transport: Transport, wrapped: Octets)

  /** The pair (r, i) is the only one of a recipient information and a decrypter it
      addresses. */
  ghost predicate OnlyPair(infos: seq<RecipientInfo>, keys: seq<Certificate>, r: nat, i: nat)
  {
    && r < |infos| && i < |keys| && Addresses(infos[r], keys[i])
    && forall q, j :: 0 <= q < |infos| && 0 <= j < |keys| && Addresses(infos[q], keys[j]) ==> q == r && j == i
  }

  /** The selection of `parse_envelope`: the single addressed pair, whose transport is
      one a key operation can express. Anything else is the uniform failure. */
  method SelectRecipient(infos: seq<RecipientInfo>, keys: seq<Certificate>) returns (s: Option<Selected>)
    ensures s.Some? ==>
              exists r: nat ::
                && OnlyPair(infos, keys, r, s.value.decrypter)
                && infos[r].transport == Some(s.value.transport)
                && infos[r].wrapped == s.value.wrapped
    ensures s.None? ==> forall r: nat, i: nat :: OnlyPair(infos, keys, r, i) ==> infos[r].transport.None?
  {
    var selected: seq<(nat, nat)> := [];
    for r := 0 to |infos|
      invariant forall q, j :: (q, j) in selected
                  <==> 0 <= q < r && 0 <= j < |keys| && Addresses(infos[q], keys[j])
      invariant forall a, b :: 0 <= a < b < |selected| ==> selected[a] != selected[b]
    {
      if infos[r].OtherRecipient? { continue; }
      for i := 0 to |keys|
        invariant forall q, j :: (q, j) in selected <==>
                    && ((0 <= q < r && 0 <= j < |keys|) || (q == r && 0 <= j < i))
                    && Addresses(infos[q], keys[j])
        invariant forall a, b :: 0 <= a < b < |selected| ==> selected[a] != selected[b]
      {
        if Addresses(infos[r], keys[i]) {
          assert (r, i) !in selected;
          selected := selected + [(r, i)];
        }
      }
    }
    forall r: nat, i: nat | OnlyPair(infos, keys, r, i) ensures |selected| == 1 {
      assert (r, i) in selected;
      NoRepeats(selected, (r, i));
    }
    if |selected| != 1 { return None; }
    var (r, i) := selected[0];
    assert (r, i) in selected;
    assert OnlyPair(infos, keys, r, i) by {
      forall q, j | 0 <= q < |infos| && 0 <= j < |keys| && Addresses(infos[q], keys[j]) ensures q == r && j == i {
        assert (q, j) in selected;
      }
    }
    if infos[r].transport.None? { return None; }
    return Some(Selected(i, infos[r].transport.value, infos[r].wrapped));
  }

  /** For every accepted configuration, an envelope with one recipient information,
      by subject key identifier, addresses at most one decrypter; so it is opened
      exactly when some RSA decrypter answers and the transport is known. */
  lemma EnvelopeByKeyIdentifier(info: RecipientInfo, keys: seq<Certificate>, allowed: KeyKind -> bool, i: nat)
    requires Acceptable(keys, allowed)
    requires info.KeyTransport? && info.rid.KeyIdentifier?
    ensures OnlyPair([info], keys, 0, i) <==>
              i < |keys| && keys[i].kind.Rsa? && keys[i].parses && info.rid.ski in keys[i].skis
  {
    if i < |keys| && Addresses(info, keys[i]) {
      forall j | 0 <= j < |keys| && Addresses(info, keys[j]) ensures j == i {
        assert info.rid.ski in keys[i].skis && info.rid.ski in keys[j].skis;
      }
    }
  }

  /** By issuer and serial, one recipient information addresses exactly the readable RSA
      decrypter that has both, when only one has. */
  lemma EnvelopeByOwnSerial(info: RecipientInfo, keys: seq<Certificate>, i: nat)
    requires info.KeyTransport? && i < |keys| && keys[i].kind.Rsa? && keys[i].parses
    requires info.rid == IssuerAndSerial(keys[i].issuer, keys[i].serial)
    requires forall j :: 0 <= j < |keys| && j != i ==>
               keys[j].serial != keys[i].serial || keys[j].issuer != keys[i].issuer
    ensures OnlyPair([info], keys, 0, i)
    ensures forall j: nat :: OnlyPair([info], keys, 0, j) ==> j == i
  {
    assert Addresses([info][0], keys[i]);
  }

  /** A recipient information whose serial or issuer no decrypter has addresses none. */
  lemma EnvelopeByOtherSerial(info: RecipientInfo, keys: seq<Certificate>, i: nat)
    requires info.KeyTransport? && info.rid.IssuerAndSerial?
    requires forall j :: 0 <= j < |keys| ==> keys[j].serial != info.rid.serial || keys[j].issuer != info.rid.issuer
    ensures !OnlyPair([info], keys, 0, i)
  {
  }
}
