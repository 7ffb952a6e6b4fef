/** Both sides of the AS2 exchange agree: the notification the receiver prints is
    judged by the sender as the receiver answered. */
module MdnAgreement {
  import opened Wrappers
  import opened Text
  import opened MdnReport
  import opened MdnReading
  import opened MdnVerdict
  import opened Identifiers
  import Delivery
  import DeliverySafety
  import opened DedupKey
  import M = MimePackage

  // ---- Reading a disposition ----------------------------------------------------------

  lemma {:induction false} FirstPieceKeeps(p: string, s: string, c: char)
    requires c !in p
    ensures FirstPiece(p + s, c) == p + FirstPiece(s, c)
  {
    match SplitOnce(s, c)
    case None => assert c !in p + s;
    case Some(q) =>
      SplitOnceAt(p + q.0, c, q.1);
      assert p + s == (p + q.0) + [c] + q.1;
  }

  lemma {:induction false} TrimKeepsHead(p: string, s: string)
    requires p != "" && !IsSpace(p[0]) && !IsSpace(p[|p| - 1])
    ensures Trim(p + s) == p + TrimEnd(s)
    decreases |s|
  {
    if s != "" && IsSpace(s[|s| - 1]) {
      TrimKeepsHead(p, s[..|s| - 1]);
      assert (p + s)[..|p + s| - 1] == p + s[..|s| - 1];
    }
  }

  /** A word that can stand as a modifier. */
  predicate Modifier(w: string)
  {
    w != "" && Lower(w) == w && forall i :: 0 <= i < |w| ==> w[i] !in "/,:" && !IsSpace(w[i])
  }

  /** `word: text` is read as the modifier `word`, whatever the text. */
  lemma ModifierReads(w: string, r: string)
    requires Modifier(w)
    ensures var m := Trim(FirstPiece(FirstPiece(w + ":" + r, '/'), ','));
            m != "" && Lower(Trim(FirstPiece(m, ':'))) == w
  {
    var p := w + ":";
    assert '/' !in p && ',' !in p && !IsSpace(p[0]) && !IsSpace(p[|p| - 1]);
    assert ':' !in w;
    TrimKeeps(w);
    hide Trim, Lower, IsSpace;
    FirstPieceKeeps(p, r, '/');
    var r1 := FirstPiece(r, '/');
    FirstPieceKeeps(p, r1, ',');
    var r2 := FirstPiece(r1, ',');
    TrimKeepsHead(p, r2);
    SplitOnceAt(w, ':', TrimEnd(r2));
  }

  lemma ModeReads()
    ensures ';' !in MODE && '\r' !in MODE && '\n' !in MODE && !IsSpace(MODE[0])
  {
    var a, b := "automatic-action/", "MDN-sent-automatically";
    assert ';' !in a && '\r' !in a && '\n' !in a;
    assert ';' !in b && '\r' !in b && '\n' !in b;
  }

  predicate Fits(t: string)
  {
    OneLine(t) && t != "" && !IsSpace(t[|t| - 1])
  }

  lemma AuthenticationFailedFits()
    ensures Fits("authentication-failed")
  {
  }

  lemma DecryptionFailedFits()
    ensures Fits("decryption-failed")
  {
  }

  lemma InsufficientSecurityFits()
    ensures Fits("insufficient-message-security")
  {
  }

  lemma DecompressionFailedFits()
    ensures Fits("decompression-failed")
  {
  }

  lemma UnexpectedFits()
    ensures Fits("unexpected-processing-error")
  {
  }

  lemma ReasonOnLine(r: Reason)
    ensures Fits(ReasonText(r))
  {
    hide Fits;
    match r
    case AuthenticationFailed => AuthenticationFailedFits();
    case DecryptionFailed => DecryptionFailedFits();
    case InsufficientSecurity => InsufficientSecurityFits();
    case DecompressionFailed => DecompressionFailedFits();
    case Unexpected => UnexpectedFits();
  }

  lemma ActionOnLine(a: Answer)
    ensures var t := Action(a); OneLine(t) && Trim(t) == t && t != "" && !IsSpace(t[|t| - 1])
  {
    TrimKeeps(Action(a));
    hide Trim, ReasonText;
    assert OneLine("processed") && OneLine("warning") && OneLine("error") && OneLine("duplicate-document");
    if a.Refusal? { ReasonOnLine(a.reason); }
  }

  lemma DispositionOnLine(a: Answer)
    ensures OneLine(Disposition(a)) && Trim(Disposition(a)) == Disposition(a)
    ensures ActionOf(Disposition(a)) == Action(a)
  {
    ModeReads();
    ActionOnLine(a);
    TrimKeeps(Disposition(a));
    hide Trim, Action, IsSpace;
    SplitOnceAt(MODE, ';', " " + Action(a));
    TrimSpace(Action(a));
  }

  lemma ModifiedReads(disposition: string, w: string, r: string)
    requires Modifier(w) && ActionOf(disposition) == "processed" + "/" + (w + ":" + r)
    ensures ParseDisposition(disposition).kind == "processed"
    ensures ModifierWord(ParseDisposition(disposition)) == Some(w)
  {
    ModifierReads(w, r);
    ProcessedReads();
    hide Trim, Lower, ActionOf, FirstPiece, Modifier;
    SplitOnceAt("processed", '/', w + ":" + r);
  }

  lemma ProcessedReads()
    ensures Trim("processed") == "processed" && '/' !in "processed"
  {
    TrimKeeps("processed");
  }

  lemma Modifiers()
    ensures Modifier("warning") && Modifier("error")
  {
    assert Lower("warning") == "warning" && Lower("error") == "error";
  }

  function ExpectedModifier(a: Answer): Option<string>
  {
    match a case Processed => None case Duplicate => Some("warning") case Refusal(_) => Some("error")
  }

  /** How the sender classes the receiver's dispositions. */
  lemma DispositionReads(a: Answer)
    ensures var p := ParseDisposition(Disposition(a));
            && p.kind == "processed"
            && ModifierWord(p) == ExpectedModifier(a)
  {
    DispositionOnLine(a);
    Modifiers();
    ProcessedReads();
    hide Trim, Lower, ActionOf, Disposition, ReasonText, Modifier;
    match a
    case Processed =>
    case Duplicate => ModifiedReads(Disposition(a), "warning", " " + "duplicate-document");
    case Refusal(r) => ModifiedReads(Disposition(a), "error", " " + ReasonText(r));
  }

  lemma WarningReads()
    ensures WarningOf(Action(Duplicate)) == "duplicate-document"
  {
    var w := "duplicate-document";
    TrimKeeps(w);
    assert ':' !in "processed" && ':' !in "/" && ':' !in "warning";
    hide Trim, SplitOnce, IsSpace;
    TrimSpace(w);
    WarningBehind("processed", "/", "warning", " " + w);
  }

  lemma WarningBehind(a: string, b: string, c: string, w: string)
    requires ':' !in a && ':' !in b && ':' !in c
    ensures WarningOf(a + b + (c + ":" + w)) == Trim(w)
  {
    SplitOnceAt(a + b + c, ':', w);
    assert a + b + (c + ":" + w) == a + b + c + [':'] + w;
  }

  lemma LowerPrefix(a: string, b: string, c: string)
    ensures |a| <= |Lower(a + b + c)| && Lower(a + b + c)[..|a|] == Lower(a)
  {
  }

  lemma FoundInFront(a: string, s: string)
    requires |a| <= |s| && s[..|a|] == a
    ensures M.Find(a, s).Some?
  {
    M.FindIsFirst(a, s);
    assert M.At(a, s, 0);
  }

  lemma AutomaticIsLower()
    ensures Lower("automatic-action/") == "automatic-action/"
  {
  }

  lemma DispositionIsAutomatic(a: Answer)
    ensures M.Find("automatic-action/", Lower(Disposition(a))).Some?
  {
    AutomaticIsLower();
    hide Lower, Action, M.Find;
    var head, tail := "automatic-action/" + "MDN-sent-automatically", ";" + (" " + Action(a));
    assert Disposition(a) == head + tail;
    LowerPrefix("automatic-action/", "MDN-sent-automatically", tail);
    FoundInFront("automatic-action/", Lower(Disposition(a)));
  }

  // ---- Agreement --------------------------------------------------------------------------

  /** The report as it arrives: in a signed MDN that verified under a pinned
      certificate. */
  function Arrived(report: string, boundary: string, size: nat, raw: string): Incoming
  {
    Incoming(size, true, true, true, Multipart(Subparts(report, boundary)), raw)
  }

  /** The MIC of an answer: of the received content, unless refused. */
  function AnswerMic(a: Answer, mic: string): Option<string>
  {
    if a.Refusal? then None else Some(mic)
  }

  /** What the sender should conclude, from how the receiver answered and whether
      both computed the same MIC. */
  function Expected(a: Answer, sameMic: bool): Verdict
  {
    if a.Refusal? then Verdict.Refused(Action(a))
    else if sameMic then Delivered(Action(a), if a.Duplicate? then Some("duplicate-document") else None)
    else Indeterminate
  }

  lemma OutcomeByClass(a: Answer, mic: Option<string>, expectedMic: string, decode: string -> Option<Octets>,
                       sameMic: bool)
    requires !a.Refusal? ==> mic.Some? && (MicMatches(mic.value, expectedMic, decode) <==> sameMic)
    requires var p := ParseDisposition(Disposition(a));
             && p.kind == "processed" && !Same("processed", "failed") && Same("processed", "processed")
             && ModifierWord(p) == ExpectedModifier(a)
    requires ActionOf(Disposition(a)) == Action(a) && WarningOf(Action(Duplicate)) == "duplicate-document"
    ensures Outcome(Disposition(a), mic, expectedMic, decode) == Expected(a, sameMic)
  {
    hide MicMatches, ParseDisposition, ActionOf, ModifierWord, Disposition, Action, WarningOf, Same;
    assert |"error"| != |"warning"|;
  }

  /** What the disposition and the MIC of an answer come to. */
  lemma OutcomeAgrees(a: Answer, x: Octets, alg: string, y: Octets, sentAlg: string,
                      encode: Octets -> string, decode: string -> Option<Octets>)
    requires Codec(encode, decode) && IsWord(alg) && IsWord(sentAlg)
    ensures Outcome(Disposition(a), AnswerMic(a, MicText(encode(x), alg)), MicText(encode(y), sentAlg), decode)
         == Expected(a, x == y && Same(alg, sentAlg))
  {
    MicsMatchIff(x, alg, y, sentAlg, encode, decode);
    DispositionReads(a);
    DispositionOnLine(a);
    WarningReads();
    assert !Same("processed", "failed") by { assert |Lower("processed")| != |Lower("failed")|; }
    assert |"error"| != |"warning"|;
    hide *;
    OutcomeByClass(a, AnswerMic(a, MicText(encode(x), alg)), MicText(encode(y), sentAlg), decode,
                   x == y && Same(alg, sentAlg));
  }

  /** The receiver prints and the sender reads the same fields. */
  lemma FieldsAgree(boundary: string, localId: string, id: string, a: Answer, mic: Option<string>, text: string)
    requires !M.HasControl(boundary) && Plain(text) && IsAs2Id(localId) && ValidMessageId(id)
    requires mic.Some? ==> OneLine(mic.value) && Trim(mic.value) == mic.value
    ensures var r := Report(boundary, localId, id, a, mic, text);
            && r.Success?
            && var parts := Subparts(r.value, boundary);
               && NotificationPart(parts).Success? && NotificationPart(parts).value.Some?
               && var f := ReadFields(NotificationPart(parts).value.value);
                  && f.Success? && f.value.recipient.Some? && f.value.original == Some(Bracketed(id))
                  && f.value.disposition == Some(Disposition(a)) && f.value.mic == mic
  {
    IdsOnLine(localId, id);
    DispositionOnLine(a);
    hide *;
    var fs := NotificationFields(localId, Bracketed(id), Disposition(a), mic);
    NotificationReadsBack(localId, Bracketed(id), Disposition(a), mic);
    NotificationOnLines(localId, Bracketed(id), Disposition(a), mic);
    ReportReadsBack(boundary, text, FieldLines(fs));
    TypesDiffer();
    MicStays(mic);
    ReportIs(boundary, localId, id, a, mic, text);
    SecondIsNotification(text + CRLF, LinesText(FieldLines(fs)));
  }

  lemma MicStays(mic: Option<string>)
    requires mic.Some? ==> Trim(mic.value) == mic.value
    ensures Trimmed(mic) == mic
  {
  }

  lemma ReportIs(boundary: string, localId: string, id: string, a: Answer, mic: Option<string>, text: string)
    requires !HasBreak(Bracketed(id)) && !HasBreak(localId)
    ensures Report(boundary, localId, id, a, mic, text)
         == Success(ReportBody(boundary, text, LinesText(FieldLines(NotificationFields(localId, Bracketed(id),
                                                                                       Disposition(a), mic)))))
  {
    hide HasBreak, ReportBody, LinesText, FieldLines, NotificationFields, Disposition;
  }

  lemma SecondIsNotification(text: string, notification: string)
    requires !Same("text/plain", NOTIFICATION_TYPE)
    ensures NotificationPart([Subpart("text/plain", text),
                              Subpart(NOTIFICATION_TYPE, notification)]) == Success(Some(notification))
  {
    hide Lower;
  }

  lemma TypesDiffer()
    ensures !Same("text/plain", NOTIFICATION_TYPE)
  {
    assert |Lower("text/plain")| != |Lower(NOTIFICATION_TYPE)|;
  }

  lemma IdsOnLine(localId: string, id: string)
    requires IsAs2Id(localId) && ValidMessageId(id)
    ensures OneLine(localId) && !HasBreak(localId)
    ensures OneLine(Bracketed(id)) && !HasBreak(Bracketed(id)) && Trim(Bracketed(id)) == Bracketed(id)
  {
    TrimKeeps(Bracketed(id));
    hide Trim, SplitOnce;
  }

  /** Two-party agreement: for every message id the sender accepts and every digest and
      algorithm, the answer the receiver prints for the id it read from the Message-ID
      header is judged Delivered exactly when the receiver answered `processed` or
      duplicate over the same MIC, and Refused for every refusal. */
  lemma PartiesAgree(boundary: string, localId: string, id: string, a: Answer, text: string, size: nat, raw: string,
                     x: Octets, alg: string, y: Octets, sentAlg: string,
                     encode: Octets -> string, decode: string -> Option<Octets>, requireSigned: bool)
    requires !M.HasControl(boundary) && Plain(text) && IsAs2Id(localId) && ValidMessageId(id)
    requires Codec(encode, decode) && IsWord(alg) && alg != "" && IsWord(sentAlg) && 0 < size <= MAX_MDN_BYTES
    ensures var received := Normalized(Bracketed(id));
            var r := Report(boundary, localId, received, a, AnswerMic(a, MicText(encode(x), alg)), text);
            && r.Success?
            && Judge(Arrived(r.value, boundary, size, raw), requireSigned, id, MicText(encode(y), sentAlg), decode)
               == Expected(a, x == y && Same(alg, sentAlg))
  {
    hide *;
    var mic := AnswerMic(a, MicText(encode(x), alg));
    MessageIdSurvives(id);
    EncodedIsWord(encode, decode, x);
    MicOnLine(encode(x), alg);
    AnswerMicOnLine(a, MicText(encode(x), alg));
    FieldsAgree(boundary, localId, id, a, mic, text);
    var report := Report(boundary, localId, id, a, mic, text).value;
    OutcomeAgrees(a, x, alg, y, sentAlg, encode, decode);
    DispositionIsAutomatic(a);
    JudgedByOutcome(size, raw, requireSigned, report, boundary, id, Disposition(a), mic, MicText(encode(y), sentAlg),
                    decode);
  }

  /** Both sides in turn: the receiver answers the message with this id, and the sender
      checks what arrives. */
  method AnswerAndCheck(boundary: string, localId: string, id: string, a: Answer, text: string, size: nat, raw: string,
                        x: Octets, alg: string, y: Octets, sentAlg: string,
                        encode: Octets -> string, decode: string -> Option<Octets>, requireSigned: bool)
    returns (verdict: Verdict)
    requires !M.HasControl(boundary) && Plain(text) && IsAs2Id(localId) && ValidMessageId(id)
    requires Codec(encode, decode) && IsWord(alg) && alg != "" && IsWord(sentAlg) && 0 < size <= MAX_MDN_BYTES
    ensures verdict.Delivered? <==> !a.Refusal? && x == y && Same(alg, sentAlg)
    ensures verdict.Refused? <==> a.Refusal?
    ensures verdict == Expected(a, x == y && Same(alg, sentAlg))
  {
    PartiesAgree(boundary, localId, id, a, text, size, raw, x, alg, y, sentAlg, encode, decode, requireSigned);
    hide Normalized, Report, Judge, MicText, Subparts, Same, IsWord, Codec, Action;
    var received := Normalized(Bracketed(id));
    var report := Report(boundary, localId, received, a, AnswerMic(a, MicText(encode(x), alg)), text);
    var m := Arrived(report.value, boundary, size, raw);
    verdict := CheckMdn(m, requireSigned, id, MicText(encode(y), sentAlg), decode);
  }

  lemma EncodedIsWord(encode: Octets -> string, decode: string -> Option<Octets>, x: Octets)
    requires Codec(encode, decode)
    ensures IsWord(encode(x))
  {
  }

  lemma AnswerMicOnLine(a: Answer, mic: string)
    requires Trim(mic) == mic && OneLine(mic)
    ensures var r := AnswerMic(a, mic); r.Some? ==> OneLine(r.value) && Trim(r.value) == r.value
  {
  }

  lemma JudgedByOutcome(size: nat, raw: string, requireSigned: bool, report: string, boundary: string, id: string,
                        disposition: string, mic: Option<string>, expectedMic: string, decode: string -> Option<Octets>)
    requires 0 < size <= MAX_MDN_BYTES
    requires var part := NotificationPart(Subparts(report, boundary));
             && part.Success? && part.value.Some?
             && var f := ReadFields(part.value.value);
                && f.Success? && f.value.recipient.Some? && f.value.original == Some(Bracketed(id))
                && f.value.disposition == Some(disposition) && f.value.mic == mic
    requires M.Find("automatic-action/", Lower(disposition)).Some? && Normalized(Bracketed(id)) == id
    ensures Judge(Arrived(report, boundary, size, raw), requireSigned, id, expectedMic, decode) == Outcome(disposition,
        mic, expectedMic, decode)
  {
    hide Outcome, ReadFields, Normalized, Subparts, NotificationPart, M.Find, Lower;
  }

  // ---- With causality ------------------------------------------------------------------------

  /** The MDN that tells the peer a reply of the delivery protocol. */
  ghost predicate Tells(a: Answer, reply: Delivery.Reply)
  {
    match a
    case Processed => reply == Delivery.Positive
    case Duplicate => reply == Delivery.DuplicateReply
    case Refusal(_) => reply == Delivery.Refused
  }

  /** The message the sender sent, as the receiver reads its identifiers from the
      headers. */
  function ReceivedMessage(sender: string, id: string): Message
  {
    Message(Delivery.As2, "", ParsedHeaderId(HeaderId(sender)), Normalized(Bracketed(id)))
  }

  /** Every delivery is of some message, and stored under its key. */
  ghost predicate Keyed(s: Delivery.State, message: nat -> Message, hash: string -> string)
  {
    forall w :: w in s.workers ==> message(w).NoNul() && s.workers[w].key == hash(message(w).Hashed())
  }

  /** A delivery of the message itself was handled with Ok, recorded and accepted before
      the `i`-th event, or the hash collides on it and another message. */
  ghost predicate EarnedBefore(log: seq<Delivery.Event>, i: nat, sink: Delivery.Sink, m: Message,
                               message: nat -> Message, hash: string -> string)
    requires i <= |log|
  {
    exists l ::
      && 0 <= l < i && DeliverySafety.AcceptAt(log, l, hash(m.Hashed()))
      && DeliverySafety.Recorded(log, l, sink, log[l].w, hash(m.Hashed()))
      && var n := message(log[l].w);
         n == m || (n.Hashed() != m.Hashed() && hash(n.Hashed()) == hash(m.Hashed()))
  }

  lemma SentIsReceived(sender: string, id: string)
    requires IsAs2Id(sender) && ValidMessageId(id)
    ensures ReceivedMessage(sender, id) == Message(Delivery.As2, "", sender, id)
    ensures ReceivedMessage(sender, id).NoNul()
  {
    PartyIdSurvives(sender);
    MessageIdSurvives(id);
    hide ParsedHeaderId, HeaderId, Normalized;
  }

  /** In every run, a positive or duplicate answer to a message was earned by a delivery
      of this message. */
  lemma AnswerIsEarned(sink: Delivery.Sink, clock: int, acts: seq<Delivery.Action>, s: Delivery.State, i: nat,
                       m: Message, message: nat -> Message, hash: string -> string)
    requires Delivery.Execute(sink, clock, acts) == Some(s) && Keyed(s, message, hash)
    requires i < |s.log| && s.log[i].Answered?
    requires s.log[i].reply in {Delivery.Positive, Delivery.DuplicateReply}
    requires m.NoNul() && s.log[i].w in s.workers && message(s.log[i].w) == m
    ensures EarnedBefore(s.log, i, sink, m, message, hash)
  {
    DeliverySafety.CoreHolds(sink, clock, acts);
    assert s.log[i].key == hash(m.Hashed());
    DeliverySafety.PositiveAnswersAreEarned(sink, clock, acts, s, i);
    hide Delivery.Execute, DeliverySafety.Recorded, DeliverySafety.Backing, DeliverySafety.Causes,
      DeliverySafety.Provenance;
    var l :| && 0 <= l < i && DeliverySafety.AcceptAt(s.log, l, s.log[i].key)
             && DeliverySafety.Recorded(s.log, l, sink, s.log[l].w, s.log[i].key);
    var n := message(s.log[l].w);
    assert s.log[l].w in s.workers && s.workers[s.log[l].w].key == s.log[l].key == hash(n.Hashed());
    SameKeySameMessage(n, m, hash);
  }

  /** In every run of the delivery protocol, when the sender judges the MDN of an
      answer to its message Delivered, then a delivery of that very message was handled
      with Ok, recorded and accepted before the answer, unless the key's hash collides. */
  lemma DeliveredMeansHandled(sink: Delivery.Sink, clock: int, acts: seq<Delivery.Action>, s: Delivery.State, i: nat,
                              message: nat -> Message, hash: string -> string, sender: string,
                              boundary: string, localId: string, id: string, a: Answer, text: string,
                              size: nat, raw: string, x: Octets, alg: string, y: Octets, sentAlg: string,
                              encode: Octets -> string, decode: string -> Option<Octets>, requireSigned: bool)
    requires Delivery.Execute(sink, clock, acts) == Some(s) && Keyed(s, message, hash)
    requires i < |s.log| && s.log[i].Answered? && Tells(a, s.log[i].reply)
    requires s.log[i].w in s.workers && message(s.log[i].w) == ReceivedMessage(sender, id)
    requires IsAs2Id(sender)
    requires !M.HasControl(boundary) && Plain(text) && IsAs2Id(localId) && ValidMessageId(id)
    requires Codec(encode, decode) && IsWord(alg) && alg != "" && IsWord(sentAlg) && 0 < size <= MAX_MDN_BYTES
    ensures var received := Normalized(Bracketed(id));
            var r := Report(boundary, localId, received, a, AnswerMic(a, MicText(encode(x), alg)), text);
            && r.Success?
            && (Judge(Arrived(r.value, boundary, size, raw), requireSigned, id, MicText(encode(y), sentAlg),
                      decode).Delivered?
                ==> EarnedBefore(s.log, i, sink, Message(Delivery.As2, "", sender, id), message, hash))
  {
    PartiesAgree(boundary, localId, id, a, text, size, raw, x, alg, y, sentAlg, encode, decode, requireSigned);
    SentIsReceived(sender, id);
    hide Judge, Report, Normalized, Subparts, MicText, Delivery.Execute, EarnedBefore, Keyed, ReceivedMessage;
    if !a.Refusal? {
      AnswerIsEarned(sink, clock, acts, s, i, Message(Delivery.As2, "", sender, id), message, hash);
    }
  }
}
