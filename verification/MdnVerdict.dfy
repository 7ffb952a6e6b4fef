/** How the sender judges an AS2 answer (`check_mdn` in src/as2/send_client.rs,
    `parse_mdn_with_signer`, `parse_disposition` and `mic_values_match` in
    src/as2/mdn.rs). Sections 7.4 and 7.5 of RFC 4130. */
module MdnVerdict {
  import opened Wrappers
  import opened Text
  import opened MdnReport
  import opened MdnReading
  import opened Identifiers
  import M = MimePackage

  // ---- Message integrity checks --------------------------------------------------------

  type Octets = seq<nat>

  function TrimQuotesStart(s: string): string
  {
    if s != "" && s[0] == '"' then TrimQuotesStart(s[1..]) else s
  }

  function TrimQuotesEnd(s: string): string
  {
    if s != "" && s[|s| - 1] == '"' then TrimQuotesEnd(s[..|s| - 1]) else s
  }

  function Bare(s: string): string
  {
    TrimQuotesEnd(TrimQuotesStart(Trim(s)))
  }

  predicate IsAsciiSpace(c: char)
  {
    c == ' ' || c == '\t' || c == '\n' || c == '\U{0C}' || c == '\r'
  }

  function Compact(s: string): string
  {
    if s == "" then "" else (if IsAsciiSpace(s[0]) then "" else [s[0]]) + Compact(s[1..])
  }

  /** A digest in base64 and the name of its algorithm, where there is one. */
  function SplitMic(v: string): (string, Option<string>)
  {
    match SplitOnce(v, ',')
    case None => (Compact(Bare(v)), None)
    case Some(p) => (Compact(Bare(p.0)), Some(Bare(p.1)))
  }

  /** `mic_values_match`, given the base64 decoder. */
  predicate MicMatches(actual: string, expected: string, decode: string -> Option<Octets>)
  {
    var (a, aAlg) := SplitMic(actual);
    var (e, eAlg) := SplitMic(expected);
    && (if decode(a).Some? && decode(e).Some? then decode(a) == decode(e) else a == e)
    && (aAlg.Some? && eAlg.Some? ==> Same(aAlg.value, eAlg.value))
  }

  /** A MIC as both sides write it. */
  function MicText(digest: string, alg: string): string
  {
    digest + "," + (" " + alg)
  }

  predicate IsWord(s: string)
  {
    forall i :: 0 <= i < |s| ==>
      'a' <= s[i] <= 'z' || 'A' <= s[i] <= 'Z' || '0' <= s[i] <= '9' || s[i] in "+/=-"
  }

  lemma {:induction false} WordIsCompact(s: string)
    requires IsWord(s)
    ensures Compact(s) == s
  {
    if s != "" {
      WordIsCompact(s[1..]);
      assert [s[0]] + s[1..] == s;
    }
  }

  lemma WordIsBare(s: string)
    requires IsWord(s)
    ensures Bare(s) == s && Trim(s) == s
  {
    TrimKeeps(s);
  }

  lemma MicReadsBack(digest: string, alg: string)
    requires IsWord(digest) && IsWord(alg)
    ensures SplitMic(MicText(digest, alg)) == (digest, Some(alg))
  {
    assert ',' !in digest;
    WordIsBare(digest);
    WordIsBare(alg);
    WordIsCompact(digest);
    hide Trim, SplitOnce, Compact, IsWord, TrimQuotesStart, TrimQuotesEnd;
    SplitOnceAt(digest, ',', " " + alg);
    TrimSpace(alg);
  }

  lemma MicOnLine(digest: string, alg: string)
    requires IsWord(digest) && IsWord(alg) && alg != ""
    ensures Trim(MicText(digest, alg)) == MicText(digest, alg) && OneLine(MicText(digest, alg))
  {
    TrimKeeps(MicText(digest, alg));
    hide Trim;
    assert OneLine(digest) && OneLine(alg);
  }

  lemma {:induction false} CompactJoin(a: string, b: string)
    ensures Compact(a + b) == Compact(a) + Compact(b)
  {
    hide IsAsciiSpace;
    if a == "" {
      assert a + b == b;
    } else {
      CompactJoin(a[1..], b);
      var s := a + b;
      assert s[1..] == a[1..] + b && s[0] == a[0];
      var head := if IsAsciiSpace(a[0]) then "" else [a[0]];
      assert head + (Compact(a[1..]) + Compact(b)) == head + Compact(a[1..]) + Compact(b);
    }
  }

  lemma {:induction false} BlankIsNothing(s: string)
    requires forall i :: 0 <= i < |s| ==> IsAsciiSpace(s[i])
    ensures Compact(s) == ""
  {
    if s != "" { BlankIsNothing(s[1..]); }
  }

  /** A digest folded across header lines, in quotes or not, reads as one. */
  lemma FoldedMicReads(a: string, fold: string, b: string, alg: string)
    requires IsWord(a) && IsWord(b) && IsWord(alg) && a != "" && b != ""
    requires forall i :: 0 <= i < |fold| ==> IsAsciiSpace(fold[i])
    ensures SplitMic((a + fold + b) + "," + (" " + alg)) == (a + b, Some(alg))
    ensures SplitMic(("\"" + (a + fold + b) + "\"") + "," + (" " + alg)) == (a + b, Some(alg))
  {
    var d := a + fold + b;
    FoldedIsBare(a, fold, b);
    FoldedIsCompact(a, fold, b);
    WordIsBare(alg);
    SplitMicAt(d, alg);
    SplitMicAt("\"" + d + "\"", alg);
  }

  lemma SplitMicAt(v: string, alg: string)
    requires ',' !in v && Bare(alg) == alg
    ensures SplitMic(v + "," + (" " + alg)) == (Compact(Bare(v)), Some(alg))
  {
    SplitOnceAt(v, ',', " " + alg);
    TrimSpace(alg);
    hide Trim, SplitOnce, Compact, TrimQuotesStart, TrimQuotesEnd;
  }

  lemma FoldedIsCompact(a: string, fold: string, b: string)
    requires IsWord(a) && IsWord(b) && forall i :: 0 <= i < |fold| ==> IsAsciiSpace(fold[i])
    ensures Compact(a + fold + b) == a + b
  {
    hide *;
    CompactJoin(a + fold, b);
    CompactJoin(a, fold);
    BlankIsNothing(fold);
    WordIsCompact(a);
    WordIsCompact(b);
    assert a + "" == a;
  }

  lemma FoldedIsBare(a: string, fold: string, b: string)
    requires IsWord(a) && IsWord(b) && a != "" && b != ""
    requires forall i :: 0 <= i < |fold| ==> IsAsciiSpace(fold[i])
    ensures var d := a + fold + b;
            Bare(d) == d && Bare("\"" + d + "\"") == d && ',' !in d && ',' !in "\"" + d + "\""
  {
    var d := a + fold + b;
    var q := "\"" + d + "\"";
    TrimKeeps(d);
    TrimKeeps(q);
    assert d[0] == a[0] && d[|d| - 1] == b[|b| - 1];
    hide Trim, TrimQuotesEnd;
    assert q[1..] == d + "\"";
    assert TrimQuotesStart(q) == d + "\"" && TrimQuotesStart(d) == d;
    QuoteIsCut(d);
  }

  lemma QuoteIsCut(d: string)
    requires d != "" && d[|d| - 1] != '"'
    ensures TrimQuotesEnd(d + "\"") == d && TrimQuotesEnd(d) == d
  {
    assert (d + "\"")[..|d|] == d;
  }

  /** A MIC without an algorithm matches on its digest alone. */
  lemma BareMicMatches(x: Octets, y: Octets, alg: string, encode: Octets -> string, decode: string -> Option<Octets>)
    requires Codec(encode, decode) && IsWord(alg)
    ensures MicMatches(encode(x), MicText(encode(y), alg), decode) <==> x == y
  {
    assert IsWord(encode(x)) && IsWord(encode(y));
    assert decode(encode(x)) == Some(x) && decode(encode(y)) == Some(y);
    assert ',' !in encode(x);
    WordIsBare(encode(x));
    WordIsCompact(encode(x));
    MicReadsBack(encode(y), alg);
    hide IsWord, Compact, Trim, TrimQuotesStart, TrimQuotesEnd, MicText, Codec;
    assert SplitMic(encode(x)) == (encode(x), None);
  }

  /** Digests that do not both decode are compared as they are written. */
  lemma UndecodableMics(a: string, alg: string, b: string, other: string, decode: string -> Option<Octets>)
    requires IsWord(a) && IsWord(alg) && IsWord(b) && IsWord(other) && (decode(a).None? || decode(b).None?)
    ensures MicMatches(MicText(a, alg), MicText(b, other), decode) <==> a == b && Same(alg, other)
  {
    MicReadsBack(a, alg);
    MicReadsBack(b, other);
    hide SplitMic, MicText, IsWord, Same;
  }

  /** Laws of base64: decoding undoes encoding, which writes only its alphabet. */
  ghost predicate Codec(encode: Octets -> string, decode: string -> Option<Octets>)
  {
    forall x :: IsWord(encode(x)) && decode(encode(x)) == Some(x)
  }

  /** Two written MICs match exactly when digests and algorithms agree. */
  lemma MicsMatchIff(x: Octets, a: string, y: Octets, b: string, encode: Octets -> string,
                     decode: string -> Option<Octets>)
    requires Codec(encode, decode) && IsWord(a) && IsWord(b)
    ensures MicMatches(MicText(encode(x), a), MicText(encode(y), b), decode) <==> x == y && Same(a, b)
  {
    MicReadsBack(encode(x), a);
    MicReadsBack(encode(y), b);
    hide SplitMic, MicText, IsWord, Same;
  }

  // ---- Dispositions ------------------------------------------------------------------------

  /** The part of a disposition behind its mode. */
  function ActionOf(disposition: string): string
  {
    match SplitOnce(disposition, ';') case None => "" case Some(p) => Trim(p.1)
  }

  datatype Parsed = Parsed(kind: string, modifier: Option<string>)

  /** `parse_disposition`. */
  function ParseDisposition(disposition: string): Parsed
  {
    ParseAction(ActionOf(disposition))
  }

  function ParseAction(action: string): Parsed
  {
    match SplitOnce(action, '/')
    case None => Parsed(Trim(action), None)
    case Some(p) =>
      var m := Trim(FirstPiece(FirstPiece(p.1, '/'), ','));
      Parsed(Trim(p.0), if m == "" then None else Some(m))
  }

  /** `error: decryption-failed` is the modifier `error`. */
  function ModifierWord(p: Parsed): Option<string>
  {
    match p.modifier case None => None case Some(m) => Some(Lower(Trim(FirstPiece(m, ':'))))
  }

  function WarningOf(action: string): string
  {
    match SplitOnce(action, ':') case None => "" case Some(p) => Trim(p.1)
  }

  // ---- The verdict ---------------------------------------------------------------------------

  datatype Verdict =
    | Delivered(disposition: string, warning: Option<string>)
    | Refused(disposition: string)
    | Indeterminate

  datatype Content = Notification(text: string) | Multipart(parts: seq<Subpart>) | OtherContent

  /** An MDN after its mail parser and signature check: `content` is the signed entity
      of a signed one and `raw` its text. */
  datatype Incoming = Incoming(
    size: nat, signed: bool, verified: bool, pinned: bool, content: Content, raw: string)

  const MAX_MDN_BYTES := 256 * 1024

  predicate IsNotification(p: Subpart)
  {
    Same(p.mediaType, NOTIFICATION_TYPE)
  }

  /** `report_notification_part`: body part 2, and no other. */
  function NotificationPart(parts: seq<Subpart>): Result<Option<string>>
  {
    if parts == [] then Success(None)
    else if && 2 <= |parts| <= 3 && IsNotification(parts[1]) && !IsNotification(parts[0])
            && (|parts| == 3 ==> !IsNotification(parts[2])) then Success(Some(parts[1].body))
    else Failure
  }

  /** The text that holds the fields. */
  function FieldText(m: Incoming, requireSigned: bool): Result<string>
  {
    if m.size == 0 || m.size > MAX_MDN_BYTES || (requireSigned && !m.signed) || (m.signed && !m.verified) then Failure
    else match m.content
      case OtherContent => Failure
      case Notification(text) => if m.signed then Success(text) else Failure
      case Multipart(parts) =>
        match NotificationPart(parts)
        case Failure => Failure
        case Success(None) => Success(m.raw)
        case Success(Some(text)) => Success(text)
  }

  /** The fields of an MDN that has a final recipient and an automatic disposition. */
  function Readable(f: Result<Fields>): bool
  {
    && f.Success? && f.value.disposition.Some? && f.value.recipient.Some?
    && M.Find("automatic-action/", Lower(f.value.disposition.value)).Some?
  }

  /** Disposition and MIC, once the MDN is known to answer our message. */
  function Outcome(disposition: string, mic: Option<string>, expectedMic: string,
                   decode: string -> Option<Octets>): Verdict
  {
    var action, p := ActionOf(disposition), ParseDisposition(disposition);
    var modifier, processed := ModifierWord(p), Same(p.kind, "processed");
    if Same(p.kind, "failed") || (processed && modifier == Some("error")) then Refused(action)
    else if processed && (modifier == None || modifier == Some("warning"))
            && mic.Some? && MicMatches(mic.value, expectedMic, decode) then
      Delivered(action, if modifier.Some? then Some(WarningOf(action)) else None)
    else Indeterminate
  }

  function Judge(m: Incoming, requireSigned: bool, expectedId: string, expectedMic: string,
                 decode: string -> Option<Octets>): Verdict
  {
    match FieldText(m, requireSigned)
    case Failure => Indeterminate
    case Success(text) =>
      var f := ReadFields(text);
      if !Readable(f) || (m.signed && !m.pinned) then Indeterminate
      else if f.value.original.None? || Normalized(f.value.original.value) != expectedId then Indeterminate
      else Outcome(f.value.disposition.value, f.value.mic, expectedMic, decode)
  }

  /** `check_mdn`: the checks in their order, each overwriting the verdict. */
  method CheckMdn(m: Incoming, requireSigned: bool, expectedId: string, expectedMic: string,
                  decode: string -> Option<Octets>)
    returns (verdict: Verdict)
    ensures verdict == Judge(m, requireSigned, expectedId, expectedMic, decode)
  {
    verdict := Indeterminate;
    var text := FieldText(m, requireSigned);
    if text.Failure? { return; }
    var fields := ParseFields(text.value);
    if !Readable(fields) { return; }
    if m.signed && !m.pinned { return; }
    var f := fields.value;
    if f.original.None? || Normalized(f.original.value) != expectedId { return; }
    hide ReadFields, Normalized, MicMatches, Lower, Readable;
    var action := ActionOf(f.disposition.value);
    var parsed := ParseDisposition(f.disposition.value);
    var modifier := ModifierWord(parsed);
    var processed := Same(parsed.kind, "processed");
    if Same(parsed.kind, "failed") || (processed && modifier == Some("error")) {
      verdict := Refused(action);
    } else if processed && (modifier == None || modifier == Some("warning")) {
      if f.mic.Some? && MicMatches(f.mic.value, expectedMic, decode) {
        verdict := Delivered(action, if modifier.Some? then Some(WarningOf(action)) else None);
      }
    }
  }
}
