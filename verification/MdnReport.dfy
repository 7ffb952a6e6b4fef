/** The disposition notification of an AS2 answer: how the receiver prints it
    (src/as2/inbound.rs, `mdn_report` in src/as2/mdn.rs) and how the sender reads its
    fields (`parse_mdn_fields` in src/as2/mdn.rs). Section 7.4 of RFC 4130. */
module MdnReport {
  import opened Wrappers
  import opened Text

  // ---- Printing ------------------------------------------------------------------------

  datatype Reason =
    | AuthenticationFailed | DecryptionFailed | InsufficientSecurity | DecompressionFailed | Unexpected

  /** How the receiver answered. */
  datatype Answer = Processed | Duplicate | Refusal(reason: Reason)

  function ReasonText(r: Reason): string
  {
    match r
    case AuthenticationFailed => "authentication-failed"
    case DecryptionFailed => "decryption-failed"
    case InsufficientSecurity => "insufficient-message-security"
    case DecompressionFailed => "decompression-failed"
    case Unexpected => "unexpected-processing-error"
  }

  function Action(a: Answer): string
  {
    match a
    case Processed => "processed"
    case Duplicate => "processed" + "/" + ("warning" + ":" + (" " + "duplicate-document"))
    case Refusal(r) => "processed" + "/" + ("error" + ":" + (" " + ReasonText(r)))
  }

  const MODE := "automatic-action/" + "MDN-sent-automatically"

  function Disposition(a: Answer): string
  {
    MODE + ";" + (" " + Action(a))
  }

  /** The fields of the machine-readable part, as name and text behind the colon. */
  function NotificationFields(localId: string, original: string, disposition: string,
                              mic: Option<string>): seq<(string, string)>
  {
    [("Final-Recipient", " " + ("rfc822; " + localId)),
     ("Original-Message-ID", " " + original),
     ("Disposition", " " + disposition)]
    + if mic.Some? then [("Received-Content-MIC", " " + Trim(mic.value))] else []
  }

  function FieldLine(f: (string, string)): string
  {
    f.0 + ":" + f.1
  }

  function FieldLines(fs: seq<(string, string)>): (r: seq<string>)
    ensures |r| == |fs|
    ensures forall i :: 0 <= i < |fs| ==> r[i] == FieldLine(fs[i])
  {
    if fs == [] then [] else [FieldLine(fs[0])] + FieldLines(fs[1..])
  }

  function LinesText(lines: seq<string>): string
  {
    if lines == [] then "" else lines[0] + (CRLF + LinesText(lines[1..]))
  }

  const TEXT_HEADER := "Content-Type" + ":" + (" " + "text/plain" + ";" + " charset=us-ascii")
  const NOTIFICATION_HEADER := "Content-Type" + ":" + (" " + NOTIFICATION_TYPE)
  const NOTIFICATION_TYPE := "message/disposition-notification"

  function PartOf(boundary: string, header: string, body: string): string
  {
    "--" + boundary + CRLF + header + CRLF + CRLF + body + CRLF
  }

  /** The body of the report: a part for people, then the notification. */
  function ReportBody(boundary: string, text: string, notification: string): string
  {
    PartOf(boundary, TEXT_HEADER, text + CRLF)
    + PartOf(boundary, NOTIFICATION_HEADER, notification)
    + "--" + boundary + "--" + CRLF
  }

  predicate HasBreak(s: string)
  {
    '\r' in s || '\n' in s || '\0' in s
  }

  /** `mdn_bytes` before it signs: the answer to the message `id`. */
  function Report(boundary: string, localId: string, id: string, a: Answer, mic: Option<string>,
                  text: string): Result<string>
  {
    var original := "<" + id + ">";
    if HasBreak(original) || HasBreak(localId) then Failure
    else Success(ReportBody(boundary, text, LinesText(FieldLines(NotificationFields(localId, original, Disposition(a),
                                                                                    mic)))))
  }

  // ---- Reading the fields ------------------------------------------------------------------

  function StripCr(s: string): string
  {
    if s != "" && s[|s| - 1] == '\r' then StripCr(s[..|s| - 1]) else s
  }

  /** The lines of a text, without their line ends. */
  function Lines(s: string): seq<string>
    decreases |s|
  {
    if s == "" then []
    else match SplitOnce(s, '\n')
      case None => [StripCr(s)]
      case Some(p) => assert |p.1| < |s|; [StripCr(p.0)] + Lines(p.1)
  }

  function Committed(key: Option<string>, value: string): seq<(string, string)>
  {
    if key.Some? then [(key.value, Trim(value))] else []
  }

  predicate Continues(line: string)
  {
    line != "" && (line[0] == ' ' || line[0] == '\t')
  }

  function Unfolded(value: string, line: string): string
  {
    value + (if value == "" then "" else " ") + Trim(line)
  }

  /** The header fields of the lines, names in lower case and values unfolded, given
      the field that was open before. */
  function Entries(lines: seq<string>, key: Option<string>, value: string): seq<(string, string)>
  {
    if lines == [] then Committed(key, value)
    else if lines[0] == "" then Entries(lines[1..], key, value)
    else if Continues(lines[0]) then Entries(lines[1..], key, Unfolded(value, lines[0]))
    else match SplitOnce(lines[0], ':')
      case None => Committed(key, value) + Entries(lines[1..], None, "")
      case Some(p) => Committed(key, value) + Entries(lines[1..], Some(Name(p.0)), Trim(p.1))
  }

  function Name(s: string): string
  {
    Lower(Trim(s))
  }

  predicate Distinct(es: seq<(string, string)>)
  {
    forall i, j :: 0 <= i < j < |es| ==> es[i].0 != es[j].0
  }

  function Lookup(es: seq<(string, string)>, name: string): Option<string>
  {
    if es == [] then None else if es[0].0 == name then Some(es[0].1) else Lookup(es[1..], name)
  }

  datatype Fields = Fields(
    recipient: Option<string>, original: Option<string>, disposition: Option<string>, mic: Option<string>)

  function FieldsOf(es: seq<(string, string)>): Fields
  {
    Fields(Lookup(es, "final-recipient"), Lookup(es, "original-message-id"),
           Lookup(es, "disposition"), Lookup(es, "received-content-mic"))
  }

  /** No field may come twice. */
  function ReadFields(text: string): Result<Fields>
  {
    var es := Entries(Lines(text), None, "");
    if Distinct(es) then Success(FieldsOf(es)) else Failure
  }

  lemma {:induction false} OpenFieldComesFirst(lines: seq<string>, key: string, value: string)
    ensures var es := Entries(lines, Some(key), value); es != [] && es[0].0 == key
  {
    if lines != [] {
      if lines[0] == "" {
        OpenFieldComesFirst(lines[1..], key, value);
      } else if Continues(lines[0]) {
        OpenFieldComesFirst(lines[1..], key, Unfolded(value, lines[0]));
      }
    }
  }

  lemma {:induction false} LookupAppend(es: seq<(string, string)>, e: (string, string), name: string)
    ensures Lookup(es + [e], name) ==
            if Lookup(es, name).Some? then Lookup(es, name) else if e.0 == name then Some(e.1) else None
  {
    if es == [] {
      assert es + [e] == [e];
    } else {
      LookupAppend(es[1..], e, name);
      assert (es + [e])[1..] == es[1..] + [e];
    }
  }

  lemma FieldsAppend(es: seq<(string, string)>, e: (string, string))
    ensures var f, g := FieldsOf(es), FieldsOf(es + [e]);
            && g.recipient == (if f.recipient.None? && e.0 == "final-recipient" then Some(e.1) else f.recipient)
            && g.original == (if f.original.None? && e.0 == "original-message-id" then Some(e.1) else f.original)
            && g.disposition == (if f.disposition.None? && e.0 == "disposition" then Some(e.1) else f.disposition)
            && g.mic == (if f.mic.None? && e.0 == "received-content-mic" then Some(e.1) else f.mic)
  {
    LookupAppend(es, e, "final-recipient");
    LookupAppend(es, e, "original-message-id");
    LookupAppend(es, e, "disposition");
    LookupAppend(es, e, "received-content-mic");
  }

  /** `commit_field`: the first value of each field is kept. */
  method CommitField(fields: Fields, key: Option<string>, value: string, ghost done: seq<(string, string)>)
    returns (r: Fields)
    requires fields == FieldsOf(done)
    ensures r == FieldsOf(done + Committed(key, value))
  {
    r := fields;
    if key.None? {
      assert done + Committed(key, value) == done;
      return;
    }
    var v := Trim(value);
    FieldsAppend(done, (key.value, v));
    if key.value == "final-recipient" {
      if r.recipient.None? { r := r.(recipient := Some(v)); }
    } else if key.value == "original-message-id" {
      if r.original.None? { r := r.(original := Some(v)); }
    } else if key.value == "disposition" {
      if r.disposition.None? { r := r.(disposition := Some(v)); }
    } else if key.value == "received-content-mic" {
      if r.mic.None? { r := r.(mic := Some(v)); }
    }
  }

  ghost predicate SeenExactly(seen: set<string>, done: seq<(string, string)>, key: Option<string>)
  {
    && Distinct(done)
    && (forall k :: k in seen <==> key == Some(k) || exists i :: 0 <= i < |done| && done[i].0 == k)
    && (key.Some? ==> forall i :: 0 <= i < |done| ==> done[i].0 != key.value)
  }

  lemma SeenOpens(seen: set<string>, done: seq<(string, string)>, name: string)
    requires SeenExactly(seen, done, None) && name !in seen
    ensures SeenExactly(seen + {name}, done, Some(name))
  {
  }

  /** After `i` lines the fields are those committed, then those still to come. */
  ghost predicate Reading(lines: seq<string>, i: nat, key: Option<string>, value: string, done: seq<(string, string)>)
    requires i <= |lines|
  {
    Entries(lines, None, "") == done + Entries(lines[i..], key, value)
  }

  lemma SeenRepeats(seen: set<string>, done: seq<(string, string)>, name: string, lines: seq<string>, i: nat,
                    value: string)
    requires i <= |lines| && Reading(lines, i, Some(name), value, done)
    requires SeenExactly(seen, done, None) && name in seen
    ensures !Distinct(Entries(lines, None, ""))
  {
    var j :| 0 <= j < |done| && done[j].0 == name;
    OpenFieldComesFirst(lines[i..], name, value);
    var all := done + Entries(lines[i..], Some(name), value);
    assert all[j].0 == all[|done|].0;
  }

  lemma SeenCommits(seen: set<string>, done: seq<(string, string)>, key: Option<string>, value: string)
    requires SeenExactly(seen, done, key)
    ensures SeenExactly(seen, done + Committed(key, value), None)
    ensures Distinct(done + Committed(key, value))
  {
    var more := done + Committed(key, value);
    if key.Some? {
      assert more[|done|].0 == key.value;
      assert forall i :: 0 <= i < |done| ==> more[i] == done[i];
      forall k | k in seen ensures exists i :: 0 <= i < |more| && more[i].0 == k {
        if k != key.value {
          var i :| 0 <= i < |done| && done[i].0 == k;
          assert more[i].0 == k;
        }
      }
    } else {
      assert more == done;
    }
  }

  lemma ReadsOn(lines: seq<string>, i: nat, key: Option<string>, value: string, done: seq<(string, string)>)
    requires i < |lines| && Reading(lines, i, key, value, done)
    ensures lines[i] == "" ==> Reading(lines, i + 1, key, value, done)
    ensures Continues(lines[i]) ==> Reading(lines, i + 1, key, Unfolded(value, lines[i]), done)
    ensures lines[i] != "" && !Continues(lines[i]) ==>
              match SplitOnce(lines[i], ':')
              case None => Reading(lines, i + 1, None, "", done + Committed(key, value))
              case Some(p) => Reading(lines, i + 1, Some(Name(p.0)), Trim(p.1), done + Committed(key, value))
  {
    hide Committed, SplitOnce, Unfolded, Name, Trim;
    var now := lines[i..];
    assert now[0] == lines[i] && now[1..] == lines[i + 1..];
    if now[0] != "" && !Continues(now[0]) {
      var c, p := Committed(key, value), SplitOnce(now[0], ':');
      var more := if p.None? then Entries(now[1..], None, "") else Entries(now[1..], Some(Name(p.value.0)),
                                                                           Trim(p.value.1));
      assert done + (c + more) == (done + c) + more;
    }
  }

  lemma ReadsToEnd(lines: seq<string>, key: Option<string>, value: string, done: seq<(string, string)>)
    requires Reading(lines, |lines|, key, value, done)
    ensures Entries(lines, None, "") == done + Committed(key, value)
  {
    assert lines[|lines|..] == [];
  }

  /** `parse_mdn_fields`: one pass over the lines. */
  method ParseFields(text: string) returns (r: Result<Fields>)
    ensures r == ReadFields(text)
  {
    var fields := Fields(None, None, None, None);
    var key: Option<string> := None;
    var value := "";
    var seen: set<string> := {};
    ghost var done: seq<(string, string)> := [];
    var lines := Lines(text);
    assert lines[0..] == lines && SeenExactly(seen, done, key) && Reading(lines, 0, key, value, done);
    NoFields();
    hide FieldsOf, Entries, Committed, Unfolded, Continues, SplitOnce, Name, Trim, Lines, SeenExactly, Distinct,
      Reading;
    for i := 0 to |lines|
      invariant Reading(lines, i, key, value, done)
      invariant fields == FieldsOf(done)
      invariant SeenExactly(seen, done, key)
    {
      var line := lines[i];
      ReadsOn(lines, i, key, value, done);
      if line == "" { continue; }
      if Continues(line) {
        value := Unfolded(value, line);
        continue;
      }
      fields := CommitField(fields, key, value, done);
      SeenCommits(seen, done, key, value);
      done := done + Committed(key, value);
      var split := SplitOnce(line, ':');
      if split.None? {
        key, value := None, "";
        continue;
      }
      key, value := Some(Name(split.value.0)), Trim(split.value.1);
      if key.value in seen {
        SeenRepeats(seen, done, key.value, lines, i + 1, value);
        return Failure;
      }
      SeenOpens(seen, done, key.value);
      seen := seen + {key.value};
    }
    ReadsToEnd(lines, key, value, done);
    fields := CommitField(fields, key, value, done);
    SeenCommits(seen, done, key, value);
    return Success(fields);
  }

  lemma NoFields()
    ensures FieldsOf([]) == Fields(None, None, None, None)
  {
  }

  /** A field whose value is folded over a second line reads as both parts with one
      space between them. */
  lemma FoldedFieldReads(name: string, first: string, second: string)
    requires name != "" && !Continues(name) && ':' !in name && Trim(first) != ""
    ensures Entries([name + ":" + first, " " + second], None, "") ==
            [(Name(name), Trim(Trim(first) + " " + Trim(second)))]
  {
    var lines := [name + ":" + first, " " + second];
    SplitOnceAt(name, ':', first);
    assert lines[0] == name + [':'] + first && lines[0][0] == name[0];
    assert lines[1..] == [" " + second] && [" " + second][1..] == [];
    TrimSpace(second);
    hide Trim, SplitOnce, Name;
    assert Entries([" " + second], Some(Name(name)), Trim(first))
        == Entries([], Some(Name(name)), Unfolded(Trim(first), " " + second));
  }

  /** No answer is printed exactly when the message id or the local id holds a CR, LF or
      NUL, which would end a line. */
  lemma ReportRefusesBreaks(boundary: string, localId: string, id: string, a: Answer, mic: Option<string>, text: string)
    ensures Report(boundary, localId, id, a, mic, text) == Failure <==>
              exists c :: c in ['\r', '\n', '\0'] && (c in id || c in localId)
  {
    var original := "<" + id + ">";
    assert forall c :: c in original <==> c == '<' || c in id || c == '>';
    hide ReportBody, LinesText, FieldLines, NotificationFields, Disposition;
    assert '\r' in ['\r', '\n', '\0'] && '\n' in ['\r', '\n', '\0'] && '\0' in ['\r', '\n', '\0'];
  }
}
