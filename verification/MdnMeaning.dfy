/** Exactly which MDN is judged Delivered and which Refused (src/as2/send_client.rs), in
    terms of the texts it holds. */
module MdnMeaning {
  import opened Wrappers
  import opened Text
  import opened MdnReport
  import opened MdnReading
  import opened MdnVerdict
  import opened MdnAgreement
  import opened Identifiers
  import M = MimePackage

  // ---- What a disposition says -----------------------------------------------------------

  /** `p` is the text up to the first `c` or `d`. */
  predicate UpTo(s: string, p: string, c: char, d: char)
  {
    p <= s && c !in p && d !in p && (p == s || s[|p|] == c || s[|p|] == d)
  }

  /** The text behind the first semicolon, or nothing. */
  ghost predicate HasAction(disposition: string, action: string)
  {
    if ';' !in disposition then action == ""
    else exists mode, rest :: ';' !in mode && disposition == mode + ";" + rest && action == Trim(rest)
  }

  /** A kind, and behind the first slash a modifier that ends at a slash or comma. */
  ghost predicate HasKind(action: string, kind: string, modifier: Option<string>)
  {
    if '/' !in action then kind == Trim(action) && modifier == None
    else exists a, b, p ::
      && '/' !in a && action == a + "/" + b && kind == Trim(a)
      && UpTo(b, p, '/', ',') && modifier == if Trim(p) == "" then None else Some(Trim(p))
  }

  /** The modifier's word before its colon, in lower case. */
  ghost predicate HasWord(modifier: Option<string>, word: Option<string>)
  {
    match modifier
    case None => word == None
    case Some(m) => exists p :: UpTo(m, p, ':', ':') && word == Some(Lower(Trim(p)))
  }

  ghost predicate Says(disposition: string, kind: string, word: Option<string>)
  {
    exists action, modifier ::
      HasAction(disposition, action) && HasKind(action, kind, modifier) && HasWord(modifier, word)
  }

  lemma OneUpTo(s: string, c: char, d: char, p: string, q: string)
    requires UpTo(s, p, c, d) && UpTo(s, q, c, d)
    ensures p == q
  {
    assert forall i :: 0 <= i < |p| ==> p[i] == s[i] && p[i] in p;
    assert forall i :: 0 <= i < |q| ==> q[i] == s[i] && q[i] in q;
    assert p == s[..|p|] && q == s[..|q|];
  }

  lemma FirstPieceIsUpTo(s: string, c: char)
    ensures UpTo(s, FirstPiece(s, c), c, c)
  {
  }

  lemma PieceOfPiece(s: string, c: char, d: char)
    ensures UpTo(s, FirstPiece(FirstPiece(s, c), d), c, d)
  {
    var p := FirstPiece(s, c);
    FirstPieceIsUpTo(s, c);
    FirstPieceIsUpTo(p, d);
    var q := FirstPiece(p, d);
    assert q != p ==> s[|q|] == p[|q|];
    assert forall x :: x in q ==> x in p;
  }

  lemma ActionIs(disposition: string, action: string)
    ensures HasAction(disposition, action) <==> action == ActionOf(disposition)
  {
    if ';' in disposition {
      var p := SplitOnce(disposition, ';').value;
      assert ';' !in p.0 && disposition == p.0 + ";" + p.1;
      if HasAction(disposition, action) {
        var mode, rest :| ';' !in mode && disposition == mode + ";" + rest && action == Trim(rest);
        SplitOnceAt(mode, ';', rest);
      }
    }
  }

  lemma KindIs(action: string, kind: string, modifier: Option<string>)
    ensures HasKind(action, kind, modifier) <==> Parsed(kind, modifier) == ParseAction(action)
  {
    if '/' in action {
      var s := SplitOnce(action, '/').value;
      var q := FirstPiece(FirstPiece(s.1, '/'), ',');
      PieceOfPiece(s.1, '/', ',');
      assert '/' !in s.0 && action == s.0 + "/" + s.1 && UpTo(s.1, q, '/', ',');
      hide Trim, FirstPiece, UpTo;
      if HasKind(action, kind, modifier) {
        var a, b, p :| && '/' !in a && action == a + "/" + b && kind == Trim(a)
                       && UpTo(b, p, '/', ',') && modifier == if Trim(p) == "" then None else Some(Trim(p));
        SplitOnceAt(a, '/', b);
        OneUpTo(b, '/', ',', p, q);
      }
    }
  }

  lemma WordIs(modifier: Option<string>, kind: string, word: Option<string>)
    ensures HasWord(modifier, word) <==> word == ModifierWord(Parsed(kind, modifier))
  {
    if modifier.Some? {
      var m := modifier.value;
      FirstPieceIsUpTo(m, ':');
      hide Trim, Lower, FirstPiece, UpTo;
      if HasWord(modifier, word) {
        var p :| UpTo(m, p, ':', ':') && word == Some(Lower(Trim(p)));
        OneUpTo(m, ':', ':', p, FirstPiece(m, ':'));
      }
    }
  }

  /** `parse_disposition` and the modifier's word are what the text says. */
  lemma SaysIs(disposition: string, kind: string, word: Option<string>)
    ensures Says(disposition, kind, word) <==>
              kind == ParseDisposition(disposition).kind && word == ModifierWord(ParseDisposition(disposition))
  {
    var action, parsed := ActionOf(disposition), ParseDisposition(disposition);
    ActionIs(disposition, action);
    KindIs(action, parsed.kind, parsed.modifier);
    WordIs(parsed.modifier, parsed.kind, ModifierWord(parsed));
    hide ActionOf, ParseAction, HasAction, HasKind, HasWord, ModifierWord;
    if Says(disposition, kind, word) {
      var a, m :| HasAction(disposition, a) && HasKind(a, kind, m) && HasWord(m, word);
      ActionIs(disposition, a);
      KindIs(a, kind, m);
      WordIs(m, kind, word);
    }
  }

  // ---- What an MDN must be ------------------------------------------------------------------

  /** Of an allowed size, signed where that is required, and a signed one verified under
      a pin of the partner. */
  predicate Trusted(m: Incoming, requireSigned: bool)
  {
    0 < m.size <= MAX_MDN_BYTES && (requireSigned ==> m.signed) && (m.signed ==> m.verified && m.pinned)
  }

  /** The text whose fields are read: of the signed notification itself, of the one
      notification part, which is the second of two or three, or of the whole entity
      when a report has no parts. */
  ghost predicate HoldsFields(m: Incoming, text: string)
  {
    match m.content
    case OtherContent => false
    case Notification(t) => m.signed && text == t
    case Multipart(parts) =>
      if parts == [] then text == m.raw
      else
        && 2 <= |parts| <= 3 && text == parts[1].body
        && forall i :: 0 <= i < |parts| ==> (Same(parts[i].mediaType, NOTIFICATION_TYPE) <==> i == 1)
  }

  /** The fields of a readable answer to the message with this id. */
  ghost predicate AnswersTo(f: Fields, id: string)
  {
    && f.recipient.Some? && f.original.Some? && Normalized(f.original.value) == id
    && f.disposition.Some? && exists k :: M.At("automatic-action/", Lower(f.disposition.value), k)
  }

  /** The MDN is a trusted answer to the message with this id, with these fields. */
  ghost predicate TrustedAnswer(m: Incoming, requireSigned: bool, id: string, f: Fields)
  {
    && Trusted(m, requireSigned)
    && (exists text :: HoldsFields(m, text) && ReadFields(text) == Success(f))
    && AnswersTo(f, id)
  }

  lemma FieldTextIs(m: Incoming, requireSigned: bool)
    ensures FieldText(m, requireSigned).Success? && (m.signed ==> m.pinned)
       <==> Trusted(m, requireSigned) && exists text :: HoldsFields(m, text)
    ensures FieldText(m, requireSigned).Success? ==>
              forall text :: HoldsFields(m, text) <==> text == FieldText(m, requireSigned).value
  {
    hide Same;
    if m.content.Multipart? && m.content.parts != [] {
      NotificationPartIs(m.content.parts);
      hide NotificationPart;
      if NotificationPart(m.content.parts).Success? {
        assert FieldText(m, requireSigned).Success? ==> HoldsFields(m, m.content.parts[1].body);
      }
    } else {
      assert FieldText(m, requireSigned).Success? ==> HoldsFields(m, FieldText(m, requireSigned).value);
    }
  }

  lemma NotificationPartIs(parts: seq<Subpart>)
    requires parts != []
    ensures NotificationPart(parts).Success? <==>
              && 2 <= |parts| <= 3
              && forall i :: 0 <= i < |parts| ==> (Same(parts[i].mediaType, NOTIFICATION_TYPE) <==> i == 1)
    ensures NotificationPart(parts).Success? ==> NotificationPart(parts).value == Some(parts[1].body)
  {
    hide Same;
  }

  lemma ReadableIs(r: Result<Fields>)
    ensures Readable(r) <==>
              && r.Success? && r.value.recipient.Some? && r.value.disposition.Some?
              && exists k :: M.At("automatic-action/", Lower(r.value.disposition.value), k)
  {
    if r.Success? && r.value.disposition.Some? {
      var s := Lower(r.value.disposition.value);
      M.FindIsFirst("automatic-action/", s);
      hide Lower, M.Find, M.At;
      AtIsNatural("automatic-action/", s);
    }
  }

  lemma AtIsNatural(d: string, s: string)
    ensures forall k :: M.At(d, s, k) ==> 0 <= k
  {
  }

  /** The verdict of a trusted answer is that of its disposition and MIC; of anything
      else it is Indeterminate. */
  lemma JudgeIs(m: Incoming, requireSigned: bool, id: string, mic: string, decode: string -> Option<Octets>, f: Fields)
    ensures TrustedAnswer(m, requireSigned, id, f) ==>
              Judge(m, requireSigned, id, mic, decode) == Outcome(f.disposition.value, f.mic, mic, decode)
  {
    if TrustedAnswer(m, requireSigned, id, f) {
      FieldTextIs(m, requireSigned);
      ReadableIs(ReadFields(FieldText(m, requireSigned).value));
      hide FieldText, HoldsFields, ReadFields, Readable, Normalized, Outcome, Lower, M.At;
    }
  }

  lemma JudgedAnswers(m: Incoming, requireSigned: bool, id: string, mic: string, decode: string -> Option<Octets>)
    returns (f: Fields)
    requires Judge(m, requireSigned, id, mic, decode) != Indeterminate
    ensures TrustedAnswer(m, requireSigned, id, f)
    ensures Judge(m, requireSigned, id, mic, decode) == Outcome(f.disposition.value, f.mic, mic, decode)
  {
    hide FieldText, HoldsFields, ReadFields, Readable, Normalized, Outcome, Lower, M.At;
    FieldTextIs(m, requireSigned);
    var text := FieldText(m, requireSigned).value;
    assert HoldsFields(m, text);
    ReadableIs(ReadFields(text));
    f := ReadFields(text).value;
  }

  // ---- The verdicts -----------------------------------------------------------------------------

  /** The disposition is `processed`, alone or with a warning. */
  ghost predicate SaysProcessed(disposition: string)
  {
    exists kind, word ::
      Says(disposition, kind, word) && Same(kind, "processed") && (word == None || word == Some("warning"))
  }

  /** The disposition is `failed`, or `processed` with an error. */
  ghost predicate SaysFailed(disposition: string)
  {
    exists kind, word ::
      Says(disposition, kind, word) && (Same(kind, "failed") || (Same(kind, "processed") && word == Some("error")))
  }

  lemma OutcomeIs(disposition: string, mic: Option<string>, expectedMic: string, decode: string -> Option<Octets>)
    ensures Outcome(disposition, mic, expectedMic, decode).Delivered? <==>
              SaysProcessed(disposition) && mic.Some? && MicMatches(mic.value, expectedMic, decode)
    ensures Outcome(disposition, mic, expectedMic, decode).Refused? <==> SaysFailed(disposition)
  {
    forall kind, word ensures Says(disposition, kind, word) <==>
        kind == ParseDisposition(disposition).kind && word == ModifierWord(ParseDisposition(disposition)) {
      SaysIs(disposition, kind, word);
    }
    var k, w := ParseDisposition(disposition).kind, ModifierWord(ParseDisposition(disposition));
    assert Says(disposition, k, w);
    KindsDiffer(k);
    assert |"error"| != |"warning"|;
    hide ParseDisposition, ModifierWord, Says, MicMatches, Same, ActionOf, WarningOf;
  }

  lemma KindsDiffer(kind: string)
    ensures !(Same(kind, "processed") && Same(kind, "failed"))
  {
    assert |Lower("processed")| != |Lower("failed")|;
  }

  /** Delivered exactly for a trusted answer to the sent message whose disposition is
      `processed`, alone or with a warning, over the MIC of the sent message. */
  lemma DeliveredIff(m: Incoming, requireSigned: bool, id: string, mic: string, decode: string -> Option<Octets>)
    ensures Judge(m, requireSigned, id, mic, decode).Delivered? <==>
              exists f :: && TrustedAnswer(m, requireSigned, id, f)
                          && SaysProcessed(f.disposition.value)
                          && f.mic.Some? && MicMatches(f.mic.value, mic, decode)
  {
    hide Judge, TrustedAnswer, Outcome, SaysProcessed, SaysFailed, MicMatches;
    if Judge(m, requireSigned, id, mic, decode).Delivered? {
      var f := JudgedAnswers(m, requireSigned, id, mic, decode);
      HasDisposition(m, requireSigned, id, f);
      OutcomeIs(f.disposition.value, f.mic, mic, decode);
    }
    forall f | TrustedAnswer(m, requireSigned, id, f)
      ensures f.disposition.Some?
      ensures SaysProcessed(f.disposition.value) && f.mic.Some? && MicMatches(f.mic.value, mic, decode) ==>
                Judge(m, requireSigned, id, mic, decode).Delivered?
    {
      HasDisposition(m, requireSigned, id, f);
      JudgeIs(m, requireSigned, id, mic, decode, f);
      OutcomeIs(f.disposition.value, f.mic, mic, decode);
    }
  }

  /** Refused exactly for a trusted answer to the sent message whose disposition is
      `failed` or `processed` with an error. */
  lemma RefusedIff(m: Incoming, requireSigned: bool, id: string, mic: string, decode: string -> Option<Octets>)
    ensures Judge(m, requireSigned, id, mic, decode).Refused? <==>
              exists f :: TrustedAnswer(m, requireSigned, id, f) && SaysFailed(f.disposition.value)
  {
    hide Judge, TrustedAnswer, Outcome, SaysProcessed, SaysFailed, MicMatches;
    if Judge(m, requireSigned, id, mic, decode).Refused? {
      var f := JudgedAnswers(m, requireSigned, id, mic, decode);
      HasDisposition(m, requireSigned, id, f);
      OutcomeIs(f.disposition.value, f.mic, mic, decode);
    }
    forall f | TrustedAnswer(m, requireSigned, id, f)
      ensures f.disposition.Some?
      ensures SaysFailed(f.disposition.value) ==> Judge(m, requireSigned, id, mic, decode).Refused?
    {
      HasDisposition(m, requireSigned, id, f);
      JudgeIs(m, requireSigned, id, mic, decode, f);
      OutcomeIs(f.disposition.value, f.mic, mic, decode);
    }
  }

  lemma HasDisposition(m: Incoming, requireSigned: bool, id: string, f: Fields)
    requires TrustedAnswer(m, requireSigned, id, f)
    ensures f.disposition.Some?
  {
  }

  // ---- Another message's answer -------------------------------------------------------------------

  /** The report printed for one message is Indeterminate for the sender of any other. */
  lemma OtherAnswerIsIndeterminate(boundary: string, localId: string, id: string, a: Answer, text: string,
                                   size: nat, raw: string, x: Octets, alg: string, encode: Octets -> string,
                                   decode: string -> Option<Octets>, requireSigned: bool, other: string, mic: string)
    requires !M.HasControl(boundary) && Plain(text) && IsAs2Id(localId) && ValidMessageId(id) && other != id
    requires Codec(encode, decode) && IsWord(alg) && alg != ""
    ensures var r := Report(boundary, localId, id, a, AnswerMic(a, MicText(encode(x), alg)), text);
            && r.Success?
            && Judge(Arrived(r.value, boundary, size, raw), requireSigned, other, mic, decode) == Indeterminate
  {
    hide *;
    var answerMic := AnswerMic(a, MicText(encode(x), alg));
    EncodedIsWord(encode, decode, x);
    MicOnLine(encode(x), alg);
    AnswerMicOnLine(a, MicText(encode(x), alg));
    FieldsAgree(boundary, localId, id, a, answerMic, text);
    MessageIdSurvives(id);
    OtherIdIsIndeterminate(Report(boundary, localId, id, a, answerMic, text).value, boundary, size, raw, requireSigned,
                           id, other, mic, decode);
  }

  lemma OtherIdIsIndeterminate(report: string, boundary: string, size: nat, raw: string, requireSigned: bool,
                               id: string, other: string, mic: string, decode: string -> Option<Octets>)
    requires var part := NotificationPart(Subparts(report, boundary));
             && part.Success? && part.value.Some?
             && var f := ReadFields(part.value.value);
                f.Success? && f.value.original == Some(Bracketed(id))
    requires Normalized(Bracketed(id)) == id && other != id
    ensures Judge(Arrived(report, boundary, size, raw), requireSigned, other, mic, decode) == Indeterminate
  {
    hide Outcome, ReadFields, Normalized, Subparts, NotificationPart, Readable;
  }
}
