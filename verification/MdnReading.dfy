/** What the receiver prints is what the sender reads: every field of the notification
    comes back, and the report splits into its two parts. */
module MdnReading {
  import opened Wrappers
  import opened Text
  import opened MdnReport
  import M = MimePackage

  // ---- Lines and fields -----------------------------------------------------------------

  predicate OneLine(s: string)
  {
    '\r' !in s && '\n' !in s
  }

  predicate FieldShaped(lines: seq<string>)
  {
    forall i :: 0 <= i < |lines| ==> OneLine(lines[i]) && lines[i] != "" && lines[i][0] != '-'
  }

  lemma StripsOneCr(line: string)
    requires OneLine(line)
    ensures StripCr(line + "\r") == line
  {
    assert (line + "\r")[..|line|] == line;
    assert line != "" ==> line[|line| - 1] in line;
  }

  lemma OneLineThen(line: string, rest: string)
    requires OneLine(line)
    ensures Lines(line + (CRLF + rest)) == [line] + Lines(rest)
  {
    var s := line + (CRLF + rest);
    assert s == (line + "\r") + ['\n'] + rest;
    SplitOnceAt(line + "\r", '\n', rest);
    StripsOneCr(line);
    hide SplitOnce, StripCr, OneLine;
  }

  lemma {:induction false} LinesReadBack(lines: seq<string>)
    requires FieldShaped(lines)
    ensures Lines(LinesText(lines)) == lines
  {
    if lines != [] {
      LinesReadBack(lines[1..]);
      hide OneLine, Lines;
      OneLineThen(lines[0], LinesText(lines[1..]));
      assert [lines[0]] + lines[1..] == lines;
    }
  }

  /** A field as read. */
  function Entry(f: (string, string)): (string, string)
  {
    (Name(f.0), Trim(Trim(f.1)))
  }

  function EntriesOf(fs: seq<(string, string)>): (r: seq<(string, string)>)
    ensures |r| == |fs|
    ensures forall i :: 0 <= i < |fs| ==> r[i] == Entry(fs[i])
  {
    if fs == [] then [] else [Entry(fs[0])] + EntriesOf(fs[1..])
  }

  predicate IsName(n: string)
  {
    n != "" && n[0] != '-' && !Continues(n) && ':' !in n && OneLine(n)
  }

  lemma {:induction false} FieldsReadBack(fs: seq<(string, string)>, key: Option<string>, value: string)
    requires forall i :: 0 <= i < |fs| ==> IsName(fs[i].0)
    ensures Entries(FieldLines(fs), key, value) == Committed(key, value) + EntriesOf(fs)
  {
    if fs != [] {
      var f, lines := fs[0], FieldLines(fs);
      SplitOnceAt(f.0, ':', f.1);
      assert lines[0] == f.0 + [':'] + f.1 && lines[0][0] == f.0[0];
      assert lines[1..] == FieldLines(fs[1..]);
      FieldsReadBack(fs[1..], Some(Name(f.0)), Trim(f.1));
      assert Committed(Some(Name(f.0)), Trim(f.1)) == [Entry(f)];
    }
  }

  lemma NameIsLower(n: string)
    requires n != "" && !IsSpace(n[0]) && !IsSpace(n[|n| - 1])
    ensures Name(n) == Lower(n)
  {
    TrimKeeps(n);
  }

  lemma RecipientLower()
    ensures Lower("Final-Recipient") == "final-recipient"
  {
  }

  lemma RecipientName()
    ensures Name("Final-Recipient") == "final-recipient" && IsName("Final-Recipient")
  {
    RecipientLower();
    hide Lower, Trim, Name;
    NameIsLower("Final-Recipient");
  }

  lemma OriginalLower()
    ensures Lower("Original-Message-ID") == "original-message-id"
  {
  }

  lemma OriginalName()
    ensures Name("Original-Message-ID") == "original-message-id" && IsName("Original-Message-ID")
  {
    OriginalLower();
    hide Lower, Trim, Name;
    NameIsLower("Original-Message-ID");
  }

  lemma DispositionLower()
    ensures Lower("Disposition") == "disposition"
  {
  }

  lemma DispositionName()
    ensures Name("Disposition") == "disposition" && IsName("Disposition")
  {
    DispositionLower();
    hide Lower, Trim, Name;
    NameIsLower("Disposition");
  }

  lemma MicLower()
    ensures Lower("Received-Content-MIC") == "received-content-mic"
  {
  }

  lemma MicName()
    ensures Name("Received-Content-MIC") == "received-content-mic" && IsName("Received-Content-MIC")
  {
    MicLower();
    hide Lower, Trim, Name;
    NameIsLower("Received-Content-MIC");
  }

  function Trimmed(mic: Option<string>): Option<string>
  {
    match mic case None => None case Some(m) => Some(Trim(m))
  }

  lemma FieldNames(fs: seq<(string, string)>, localId: string, original: string, disposition: string,
                   mic: Option<string>)
    requires fs == NotificationFields(localId, original, disposition, mic)
    ensures forall i :: 0 <= i < |fs| ==> IsName(fs[i].0)
  {
    RecipientName();
    OriginalName();
    DispositionName();
    MicName();
    hide IsName;
  }

  lemma {:induction false} LookupFinds(es: seq<(string, string)>, k: nat)
    requires k < |es| && Distinct(es)
    ensures Lookup(es, es[k].0) == Some(es[k].1)
  {
    if k > 0 {
      assert es[1..][k - 1] == es[k];
      LookupFinds(es[1..], k - 1);
    }
  }

  lemma {:induction false} LookupMisses(es: seq<(string, string)>, name: string)
    requires forall i :: 0 <= i < |es| ==> es[i].0 != name
    ensures Lookup(es, name) == None
  {
    if es != [] { LookupMisses(es[1..], name); }
  }

  lemma FieldsFound(es: seq<(string, string)>)
    requires 3 <= |es| <= 4
    requires es[0].0 == "final-recipient" && es[1].0 == "original-message-id" && es[2].0 == "disposition"
    requires |es| == 4 ==> es[3].0 == "received-content-mic"
    ensures Distinct(es)
    ensures FieldsOf(es) == Fields(Some(es[0].1), Some(es[1].1), Some(es[2].1),
                                   if |es| == 4 then Some(es[3].1) else None)
  {
    assert |es[0].0| == 15 && |es[1].0| == 19 && |es[2].0| == 11;
    assert |es| == 4 ==> |es[3].0| == 20;
    LookupFinds(es, 0);
    LookupFinds(es, 1);
    LookupFinds(es, 2);
    if |es| == 4 { LookupFinds(es, 3); } else { LookupMisses(es, "received-content-mic"); }
  }

  /** A value printed behind a space, and trimmed twice on the way back. */
  lemma PrintedReads(v: string)
    ensures Trim(Trim(" " + v)) == Trim(v)
  {
    TrimSpace(v);
    TrimTwice(v);
  }

  lemma NotificationEntries(localId: string, original: string, disposition: string, mic: Option<string>)
    ensures var es := EntriesOf(NotificationFields(localId, original, disposition, mic));
            && |es| == (if mic.Some? then 4 else 3)
            && es[0] == ("final-recipient", Trim("rfc822; " + localId))
            && es[1] == ("original-message-id", Trim(original))
            && es[2] == ("disposition", Trim(disposition))
            && (mic.Some? ==> es[3] == ("received-content-mic", Trim(mic.value)))
  {
    var fs := NotificationFields(localId, original, disposition, mic);
    RecipientName();
    OriginalName();
    DispositionName();
    MicName();
    hide Name, Trim, IsName;
    PrintedReads("rfc822; " + localId);
    PrintedReads(original);
    PrintedReads(disposition);
    if mic.Some? {
      PrintedReads(Trim(mic.value));
      TrimTwice(mic.value);
    }
  }

  /** Nothing in it breaks a line. */
  predicate Printable(localId: string, original: string, disposition: string, mic: Option<string>)
  {
    OneLine(localId) && OneLine(original) && OneLine(disposition) && (mic.Some? ==> OneLine(Trim(mic.value)))
  }

  /** The printed notification reads back as its fields, without surrounding space. */
  lemma NotificationReadsBack(localId: string, original: string, disposition: string, mic: Option<string>)
    requires Printable(localId, original, disposition, mic)
    ensures ReadFields(LinesText(FieldLines(NotificationFields(localId, original, disposition, mic)))) ==
            Success(Fields(Some(Trim("rfc822; " + localId)), Some(Trim(original)), Some(Trim(disposition)),
                           Trimmed(mic)))
  {
    var fs := NotificationFields(localId, original, disposition, mic);
    NotificationEntriesRead(localId, original, disposition, mic);
    NotificationFieldsRead(localId, original, disposition, mic);
    hide *;
    ReadFieldsMeans(LinesText(FieldLines(fs)), EntriesOf(fs));
  }

  lemma ReadFieldsMeans(text: string, es: seq<(string, string)>)
    requires Entries(Lines(text), None, "") == es && Distinct(es)
    ensures ReadFields(text) == Success(FieldsOf(es))
  {
  }

  lemma NothingCommitted(es: seq<(string, string)>)
    ensures Committed(None, "") + es == es
  {
  }

  lemma NotificationEntriesRead(localId: string, original: string, disposition: string, mic: Option<string>)
    requires Printable(localId, original, disposition, mic)
    ensures var fs := NotificationFields(localId, original, disposition, mic);
            Entries(Lines(LinesText(FieldLines(fs))), None, "") == EntriesOf(fs)
  {
    hide *;
    var fs := NotificationFields(localId, original, disposition, mic);
    FieldNames(fs, localId, original, disposition, mic);
    NotificationOnLines(localId, original, disposition, mic);
    NothingCommitted(EntriesOf(fs));
    LinesReadBack(FieldLines(fs));
    FieldsReadBack(fs, None, "");
  }

  lemma NotificationFieldsRead(localId: string, original: string, disposition: string, mic: Option<string>)
    ensures var es := EntriesOf(NotificationFields(localId, original, disposition, mic));
            && Distinct(es)
            && FieldsOf(es) == Fields(Some(Trim("rfc822; " + localId)), Some(Trim(original)),
                                      Some(Trim(disposition)), Trimmed(mic))
  {
    var es := EntriesOf(NotificationFields(localId, original, disposition, mic));
    NotificationEntries(localId, original, disposition, mic);
    hide EntriesOf, NotificationFields, Distinct, FieldsOf, Trim;
    FieldsFound(es);
  }

  lemma SpaceOnLine(v: string)
    requires OneLine(v)
    ensures OneLine(" " + v)
  {
  }

  lemma RecipientOnLine(localId: string)
    requires OneLine(localId)
    ensures OneLine("rfc822; " + localId)
  {
    assert OneLine("rfc822; ");
  }

  lemma ValuesOnLine(localId: string, original: string, disposition: string, mic: Option<string>)
    requires Printable(localId, original, disposition, mic)
    ensures var fs := NotificationFields(localId, original, disposition, mic);
            forall i :: 0 <= i < |fs| ==> OneLine(fs[i].1)
  {
    hide OneLine, Trim;
    RecipientOnLine(localId);
    SpaceOnLine("rfc822; " + localId);
    SpaceOnLine(original);
    SpaceOnLine(disposition);
    if mic.Some? { SpaceOnLine(Trim(mic.value)); }
  }

  lemma FieldOnLine(f: (string, string))
    requires IsName(f.0) && OneLine(f.1)
    ensures OneLine(FieldLine(f)) && FieldLine(f) != "" && FieldLine(f)[0] != '-'
  {
  }

  lemma FieldsShaped(fs: seq<(string, string)>)
    requires forall i :: 0 <= i < |fs| ==> IsName(fs[i].0)
    requires forall i :: 0 <= i < |fs| ==> OneLine(fs[i].1)
    ensures FieldShaped(FieldLines(fs))
  {
    hide OneLine, IsName, FieldLine;
    forall i | 0 <= i < |fs|
      ensures OneLine(FieldLines(fs)[i]) && FieldLines(fs)[i] != "" && FieldLines(fs)[i][0] != '-'
    {
      FieldOnLine(fs[i]);
    }
  }

  lemma NotificationOnLines(localId: string, original: string, disposition: string, mic: Option<string>)
    requires Printable(localId, original, disposition, mic)
    ensures FieldShaped(FieldLines(NotificationFields(localId, original, disposition, mic)))
  {
    hide *;
    var fs := NotificationFields(localId, original, disposition, mic);
    FieldNames(fs, localId, original, disposition, mic);
    ValuesOnLine(localId, original, disposition, mic);
    FieldsShaped(fs);
  }

  // ---- The parts of the report -------------------------------------------------------------

  /** A part as the mail parser sees it. */
  datatype Subpart = Subpart(mediaType: string, body: string)

  function MediaTypeOf(headers: seq<string>): string
  {
    if headers == [] then "text/plain"
    else match SplitOnce(headers[0], ':')
      case Some(p) => if Same(Trim(p.0), "Content-Type") then Trim(FirstPiece(p.1, ';')) else MediaTypeOf(headers[1..])
      case None => MediaTypeOf(headers[1..])
  }

  function SubpartOf(text: string): Subpart
  {
    match M.SplitPart(text)
    case Some(p) => Subpart(MediaTypeOf(p.0), p.1)
    case None => Subpart("text/plain", "")
  }

  /** The subparts of a multipart body, split as in section 5.1.1 of RFC 2046. */
  function Subparts(body: string, boundary: string): seq<Subpart>
  {
    match M.Split(body, boundary)
    case None => []
    case Some(ts) => seq(|ts|, i requires 0 <= i < |ts| => SubpartOf(ts[i]))
  }

  lemma ReportIsPackage(boundary: string, text: string, notification: string)
    ensures CRLF + ReportBody(boundary, text, notification)
         == M.Encapsulated(boundary, [M.PartText([TEXT_HEADER], text + CRLF),
                                      M.PartText([NOTIFICATION_HEADER], notification)])
  {
    var t1, t2 := M.PartText([TEXT_HEADER], text + CRLF), M.PartText([NOTIFICATION_HEADER], notification);
    var d := M.Delimiter(boundary);
    OnePart(boundary, TEXT_HEADER, text + CRLF);
    OnePart(boundary, NOTIFICATION_HEADER, notification);
    var p1, p2 := PartOf(boundary, TEXT_HEADER, text + CRLF), PartOf(boundary, NOTIFICATION_HEADER, notification);
    var close := "--" + boundary + "--" + CRLF;
    assert CRLF + close == d + ("--" + CRLF);
    assert [t1, t2][1..] == [t2] && [t2][1..] == [];
    assert M.Encapsulated(boundary, []) == CRLF + close;
    hide M.PartText, M.Delimiter, PartOf;
    var rest := M.Encapsulated(boundary, [t2]);
    assert rest == d + (CRLF + (t2 + (CRLF + close)));
    Regroup(p2, d, t2, close);
    assert rest == CRLF + (p2 + close);
    Regroup(p1, d, t1, p2 + close);
    assert M.Encapsulated(boundary, [t1, t2]) == d + (CRLF + (t1 + rest));
    assert ReportBody(boundary, text, notification) == p1 + (p2 + close) by {
      assert p1 + p2 + "--" + boundary + "--" + CRLF == p1 + (p2 + close);
    }
  }

  lemma Regroup(p: string, d: string, t: string, more: string)
    requires CRLF + p == d + (CRLF + (t + CRLF))
    ensures CRLF + (p + more) == d + (CRLF + (t + (CRLF + more)))
  {
    assert CRLF + (p + more) == (CRLF + p) + more;
    assert d + (CRLF + (t + CRLF)) + more == d + (CRLF + (t + (CRLF + more)));
  }

  lemma OnePart(boundary: string, header: string, body: string)
    ensures CRLF + PartOf(boundary, header, body) == M.Delimiter(boundary) + (CRLF + (M.PartText([header],
                                                                                                 body) + CRLF))
  {
    assert [header][1..] == [];
    assert M.PartText([], body) == CRLF + body;
    assert M.PartText([header], body) == header + (CRLF + (CRLF + body));
  }

  // ---- The report reads back -----------------------------------------------------------------

  /** Text for people: one line that does not look like a boundary. */
  predicate Plain(text: string)
  {
    OneLine(text) && (text == "" || text[0] != '-')
  }

  lemma NothingContains(d: string)
    requires d != ""
    ensures !M.Contains("", d)
  {
  }

  /** After a line break, neither the text nor the notification holds the delimiter. */
  lemma TextAvoids(text: string, boundary: string)
    requires Plain(text)
    ensures !M.Contains(CRLF + (text + CRLF), M.Delimiter(boundary))
  {
    M.OneHeaderLine("", text + CRLF, boundary);
    assert "" + (CRLF + (text + CRLF)) == CRLF + (text + CRLF);
    M.OneHeaderLine(text, "", boundary);
    assert text + (CRLF + "") == text + CRLF;
    NothingContains(M.Delimiter(boundary));
  }

  lemma {:induction false} LinesAvoid(lines: seq<string>, boundary: string)
    requires FieldShaped(lines)
    ensures !M.Contains(LinesText(lines), M.Delimiter(boundary))
    ensures LinesText(lines) == "" || LinesText(lines)[0] != '-'
  {
    if lines == [] {
      NothingContains(M.Delimiter(boundary));
    } else {
      LinesAvoid(lines[1..], boundary);
      M.OneHeaderLine(lines[0], LinesText(lines[1..]), boundary);
    }
  }

  lemma NotificationAvoids(lines: seq<string>, boundary: string)
    requires FieldShaped(lines)
    ensures !M.Contains(CRLF + LinesText(lines), M.Delimiter(boundary))
  {
    LinesAvoid(lines, boundary);
    hide M.Contains, LinesText;
    M.OneHeaderLine("", LinesText(lines), boundary);
    assert "" + (CRLF + LinesText(lines)) == CRLF + LinesText(lines);
  }

  lemma ContentTypeIs(value: string)
    ensures MediaTypeOf(["Content-Type" + ":" + value]) == Trim(FirstPiece(value, ';'))
  {
    SplitOnceAt("Content-Type", ':', value);
    NameIsLower("Content-Type");
    hide SplitOnce, Lower;
    assert Trim("Content-Type") == "Content-Type" by { TrimKeeps("Content-Type"); }
  }

  lemma CleanJoin(a: string, b: string)
    requires !M.HasControl(a) && !M.HasControl(b)
    ensures !M.HasControl(a + b)
  {
  }

  lemma CleanHeader(value: string)
    requires !M.HasControl(value)
    ensures M.HeaderShaped(["Content-Type" + ":" + value])
  {
    assert !M.HasControl("Content-Type" + ":");
    CleanJoin("Content-Type" + ":", value);
  }

  lemma TextHeaderType()
    ensures M.HeaderShaped([TEXT_HEADER]) && MediaTypeOf([TEXT_HEADER]) == "text/plain"
  {
    var a, b := " " + "text/plain" + ";", " charset=us-ascii";
    assert !M.HasControl(a) && !M.HasControl(b);
    CleanJoin(a, b);
    CleanHeader(a + b);
    ContentTypeIs(a + b);
    SplitOnceAt(" " + "text/plain", ';', b);
    TrimKeeps("text/plain");
    TrimSpace("text/plain");
    hide Trim, SplitOnce, MediaTypeOf, M.HeaderShaped, M.HasControl;
  }

  lemma NotificationHeaderType()
    ensures M.HeaderShaped([NOTIFICATION_HEADER]) && MediaTypeOf([NOTIFICATION_HEADER]) == NOTIFICATION_TYPE
  {
    NotificationTypeIs();
    hide Trim, SplitOnce, MediaTypeOf, M.HeaderShaped, M.HasControl;
    CleanHeader(" " + NOTIFICATION_TYPE);
    ContentTypeIs(" " + NOTIFICATION_TYPE);
    TrimSpace(NOTIFICATION_TYPE);
  }

  lemma NotificationTypeIs()
    ensures !M.HasControl(" " + NOTIFICATION_TYPE) && ';' !in " " + NOTIFICATION_TYPE
    ensures Trim(NOTIFICATION_TYPE) == NOTIFICATION_TYPE
  {
    TrimKeeps(NOTIFICATION_TYPE);
    hide Trim;
  }

  /** The report splits into the text and the notification, octet for octet. */
  lemma ReportReadsBack(boundary: string, text: string, lines: seq<string>)
    requires !M.HasControl(boundary) && Plain(text) && FieldShaped(lines)
    ensures Subparts(ReportBody(boundary, text, LinesText(lines)), boundary)
         == [Subpart("text/plain", text + CRLF), Subpart(NOTIFICATION_TYPE, LinesText(lines))]
  {
    hide *;
    var notification := LinesText(lines);
    var t1, t2 := M.PartText([TEXT_HEADER], text + CRLF), M.PartText([NOTIFICATION_HEADER], notification);
    TextHeaderType();
    NotificationHeaderType();
    TextAvoids(text, boundary);
    NotificationAvoids(lines, boundary);
    M.HeadersHoldNoDelimiter([TEXT_HEADER], text + CRLF, boundary);
    M.HeadersHoldNoDelimiter([NOTIFICATION_HEADER], notification, boundary);
    M.DelimiterHeadOnce(boundary);
    M.SplitsBack(boundary, [t1, t2]);
    ReportIsPackage(boundary, text, notification);
    M.StartsAtDelimiter(ReportBody(boundary, text, notification), boundary, [t1, t2]);
    M.PartReadsBack([TEXT_HEADER], text + CRLF);
    M.PartReadsBack([NOTIFICATION_HEADER], notification);
    SubpartsOfTwo(ReportBody(boundary, text, notification), boundary, t1, t2, [TEXT_HEADER], [NOTIFICATION_HEADER],
                  text + CRLF, notification);
  }

  lemma SubpartsOfTwo(body: string, boundary: string, t1: string, t2: string,
                      h1: seq<string>, h2: seq<string>, b1: string, b2: string)
    requires M.Split(body, boundary) == Some([t1, t2])
    requires M.SplitPart(t1) == Some((h1, b1)) && M.SplitPart(t2) == Some((h2, b2))
    ensures Subparts(body, boundary) == [Subpart(MediaTypeOf(h1), b1), Subpart(MediaTypeOf(h2), b2)]
  {
    hide M.SplitPart, M.Split, MediaTypeOf;
  }
}
