/** The MIME multipart writer (src/as4/mime_packaging.rs) against the reading of a
    multipart body in section 5.1.1 of RFC 2046. Strings are octets. */
module MimePackage {
  import opened Wrappers
  import opened Text

  datatype Attachment = Attachment(
    contentId: string, contentType: string, transferEncoding: string, body: string, disposition: Option<string>)

  datatype Builder = Builder(boundary: string, soap: Option<Attachment>, attachments: seq<Attachment>)

  // ---- What is written ------------------------------------------------------------------

  predicate IsControl(c: char)
  {
    c < ' ' || c == '\U{7F}'
  }

  predicate HasControl(line: string)
  {
    exists i :: 0 <= i < |line| && IsControl(line[i])
  }

  function HeaderLines(a: Attachment): (lines: seq<string>)
    ensures forall i :: 0 <= i < |lines| ==> |lines[i]| > 0 && lines[i][0] == 'C'
  {
    ["Content-Type: " + a.contentType,
     "Content-Transfer-Encoding: " + a.transferEncoding,
     "Content-ID: <" + a.contentId + ">"]
    + if a.disposition.Some? then ["Content-Disposition: " + a.disposition.value] else []
  }

  /** Header lines, the empty line, the body. */
  function PartText(lines: seq<string>, body: string): string
  {
    if lines == [] then CRLF + body else lines[0] + (CRLF + PartText(lines[1..], body))
  }

  function TextOf(a: Attachment): string
  {
    PartText(HeaderLines(a), a.body)
  }

  /** The line break before a boundary line belongs to the delimiter. */
  function Delimiter(boundary: string): string
  {
    CRLF + ("--" + boundary)
  }

  /** The package from the line break in front of its first boundary line. */
  function Encapsulated(boundary: string, parts: seq<string>): string
  {
    if parts == [] then Delimiter(boundary) + ("--" + CRLF)
    else Delimiter(boundary) + (CRLF + (parts[0] + Encapsulated(boundary, parts[1..])))
  }

  function Texts(parts: seq<Attachment>): (ts: seq<string>)
  {
    seq(|parts|, i requires 0 <= i < |parts| => TextOf(parts[i]))
  }

  predicate CleanHeaders(a: Attachment)
  {
    forall i :: 0 <= i < |HeaderLines(a)| ==> !HasControl(HeaderLines(a)[i])
  }

  // ---- The reader of section 5.1.1 of RFC 2046 ----------------------------------------------

  predicate At(d: string, s: string, k: int)
  {
    0 <= k && k + |d| <= |s| && s[k..k + |d|] == d
  }

  lemma AtShift(d: string, prefix: string, s: string, k: nat)
    ensures At(d, prefix + s, |prefix| + k) <==> At(d, s, k)
  {
    if k + |d| <= |s| {
      assert (prefix + s)[|prefix| + k..|prefix| + k + |d|] == s[k..k + |d|];
    }
  }

  /** The first occurrence. */
  function Find(d: string, s: string): (r: Option<nat>)
    ensures r.Some? ==> r.value + |d| <= |s|
  {
    if d <= s then Some(0)
    else if s == "" then None
    else match Find(d, s[1..]) case None => None case Some(k) => Some(k + 1)
  }

  lemma {:induction false} FindIsFirst(d: string, s: string)
    ensures match Find(d, s)
            case Some(k) => At(d, s, k) && forall j :: 0 <= j < k ==> !At(d, s, j)
            case None => forall j :: 0 <= j ==> !At(d, s, j)
  {
    AtStart(d, s);
    if !(d <= s) && s != "" {
      FindIsFirst(d, s[1..]);
      hide At;
      var shorter := Find(d, s[1..]);
      if shorter.Some? {
        AtBehind(d, s, shorter.value + 1);
      }
      forall j | 0 <= j && (shorter.Some? ==> j <= shorter.value) ensures !At(d, s, j) {
        if j > 0 { AtBehind(d, s, j); }
      }
    }
  }

  lemma AtStart(d: string, s: string)
    ensures At(d, s, 0) <==> d <= s
    ensures s == "" && !(d <= s) ==> forall j :: 0 <= j ==> !At(d, s, j)
  {
    assert d <= s ==> s[0..|d|] == d;
  }

  lemma AtBehind(d: string, s: string, j: int)
    requires 1 <= j && s != ""
    ensures At(d, s, j) <==> At(d, s[1..], j - 1)
  {
    AtShift(d, s[..1], s[1..], j - 1);
    assert s == s[..1] + s[1..];
  }

  function SkipPadding(s: string): (r: string)
    ensures |r| <= |s|
  {
    if s != "" && (s[0] == ' ' || s[0] == '\t') then SkipPadding(s[1..]) else s
  }

  /** What follows the line break of a boundary line. */
  function OpenLine(s: string): (r: Option<string>)
    ensures r.Some? ==> |r.value| < |s|
  {
    var t := SkipPadding(s);
    if CRLF <= t then Some(t[2..]) else None
  }

  function Prepended(p: string, more: Option<seq<string>>): Option<seq<string>>
  {
    match more case None => None case Some(m) => Some([p] + m)
  }

  /** What makes a delimiter the close delimiter. */
  predicate Closes(s: string)
  {
    "--" <= s
  }

  /** The body parts that follow a delimiter, up to the close delimiter. */
  function PartsAfter(d: string, s: string): Option<seq<string>>
    requires d != ""
    decreases |s|
  {
    if Closes(s) then Some([])
    else
      match OpenLine(s)
      case None => None
      case Some(t) =>
        match Find(d, t)
        case None => None
        case Some(k) => Prepended(t[..k], PartsAfter(d, t[k + |d|..]))
  }

  /** The body parts of a multipart body; what stands before the first delimiter and
      after the close delimiter is ignored. A delimiter may open the body. */
  function Split(package: string, boundary: string): Option<seq<string>>
  {
    var d := Delimiter(boundary);
    var s := CRLF + package;
    match Find(d, s) case None => None case Some(k) => PartsAfter(d, s[k + |d|..])
  }

  /** Header lines and body of a body part, where it has the empty line. */
  function SplitPart(s: string): Option<(seq<string>, string)>
    decreases |s|
  {
    match Find(CRLF, s)
    case None => None
    case Some(0) => Some(([], s[2..]))
    case Some(k) =>
      match SplitPart(s[k + 2..])
      case None => None
      case Some(p) => Some(([s[..k]] + p.0, p.1))
  }

  // ---- Reading back -------------------------------------------------------------------------

  ghost predicate Contains(s: string, d: string)
  {
    exists k :: At(d, s, k)
  }

  /** The first octet does not come again. */
  predicate HeadOnce(d: string)
  {
    d != "" && forall i :: 1 <= i < |d| ==> d[i] != d[0]
  }

  /** In front of a delimiter the first occurrence is that one, unless there is one in
      the text before it. */
  lemma FirstOccurrence(d: string, p: string, rest: string)
    requires HeadOnce(d)
    ensures Find(d, p + (d + rest)).Some?
    ensures Contains(p, d) <==> Find(d, p + (d + rest)).value < |p|
    ensures !Contains(p, d) ==> Find(d, p + (d + rest)).value == |p|
  {
    var s := p + (d + rest);
    FindIsFirst(d, s);
    assert At(d, s, |p|);
    forall k | 0 <= k < |p| ensures At(d, s, k) <==> At(d, p, k) {
      if k + |d| <= |p| {
        assert s[k..k + |d|] == p[k..k + |d|];
      } else if k + |d| <= |s| {
        assert s[k..k + |d|][|p| - k] == s[|p|] == d[0] != d[|p| - k];
      }
    }
    if Contains(p, d) {
      var k :| At(d, p, k);
      assert At(d, s, k);
    }
  }

  lemma DelimiterHeadOnce(boundary: string)
    requires !HasControl(boundary)
    ensures HeadOnce(Delimiter(boundary))
  {
    var d := Delimiter(boundary);
    forall i | 1 <= i < |d| ensures d[i] != d[0] {
      assert i >= 4 ==> d[i] == boundary[i - 4] && !IsControl(boundary[i - 4]);
    }
  }

  lemma AfterDelimiter(d: string, rest: string)
    ensures (d + rest)[|d|..] == rest
    ensures (CRLF + rest)[2..] == rest
    ensures d <= d + rest
  {
  }

  lemma OpensLine(s: string)
    ensures OpenLine(CRLF + s) == Some(s) && !Closes(CRLF + s)
  {
    var t := CRLF + s;
    assert t[0] == '\r' && t[1] == '\n' && t[2..] == s;
    assert SkipPadding(t) == t && CRLF <= t;
  }

  lemma Cut(p: string, d: string, after: string)
    ensures (p + (d + after))[..|p|] == p && (p + (d + after))[|p| + |d|..] == after
  {
  }

  /** One part and the delimiter after it: the part is read back when it does not
      contain the delimiter, */
  lemma ReadsWholePart(d: string, p: string, after: string)
    requires HeadOnce(d) && !Contains(p, d)
    ensures PartsAfter(d, CRLF + (p + (d + after))) == Prepended(p, PartsAfter(d, after))
  {
    assert d != "";
    hide *;
    var s := p + (d + after);
    FoundBehind(d, p, after, s);
    ReadsSplit(d, s, p, after);
  }

  lemma FoundBehind(d: string, p: string, after: string, s: string)
    requires HeadOnce(d) && !Contains(p, d) && s == p + (d + after)
    ensures Find(d, s) == Some(|p|) && |p| + |d| <= |s| && s[..|p|] == p && s[|p| + |d|..] == after
  {
    FirstOccurrence(d, p, after);
    hide *;
    Cut(p, d, after);
  }

  lemma ReadsSplit(d: string, s: string, p: string, after: string)
    requires d != "" && Find(d, s) == Some(|p|)
    requires |p| + |d| <= |s| && s[..|p|] == p && s[|p| + |d|..] == after
    ensures PartsAfter(d, CRLF + s) == Prepended(p, PartsAfter(d, after))
  {
    hide *;
    ReadsToDelimiter(d, s, |p|);
  }

  /** and is not when it does. */
  lemma ReadsCutPart(d: string, p: string, after: string)
    requires HeadOnce(d) && Contains(p, d)
    ensures var r := PartsAfter(d, CRLF + (p + (d + after)));
            r.Some? ==> r.value != [] && r.value[0] != p
  {
    assert d != "";
    hide *;
    var s := p + (d + after);
    FirstOccurrence(d, p, after);
    var k := Find(d, s).value;
    ReadsToDelimiter(d, s, k);
    assert |s[..k]| != |p|;
    PrependedFirst(s[..k], PartsAfter(d, s[k + |d|..]));
  }

  lemma PrependedFirst(p: string, more: Option<seq<string>>)
    ensures Prepended(p, more).Some? ==> Prepended(p, more).value != [] && Prepended(p, more).value[0] == p
  {
  }

  lemma ReadsToDelimiter(d: string, s: string, k: nat)
    requires d != "" && Find(d, s) == Some(k)
    ensures PartsAfter(d, CRLF + s) == Prepended(s[..k], PartsAfter(d, s[k + |d|..]))
  {
    hide *;
    OpensLine(s);
    ReadsLine(d, CRLF + s, s, k);
  }

  lemma ReadsLine(d: string, s: string, t: string, k: nat)
    requires d != "" && !Closes(s) && OpenLine(s) == Some(t) && Find(d, t) == Some(k)
    ensures PartsAfter(d, s) == Prepended(t[..k], PartsAfter(d, t[k + |d|..]))
  {
    hide OpenLine, Find, Prepended, Closes;
  }

  /** Reading from the first delimiter gives the parts back exactly when none of them
      contains the delimiter. */
  lemma {:induction false} SplitsBack(boundary: string, parts: seq<string>)
    requires HeadOnce(Delimiter(boundary))
    ensures |Delimiter(boundary)| <= |Encapsulated(boundary, parts)|
    ensures Delimiter(boundary) <= Encapsulated(boundary, parts)
    ensures PartsAfter(Delimiter(boundary), Encapsulated(boundary, parts)[|Delimiter(boundary)|..]) == Some(parts)
       <==> forall i :: 0 <= i < |parts| ==> !Contains(parts[i], Delimiter(boundary))
    decreases |parts|
  {
    var d := Delimiter(boundary);
    if parts == [] {
      AfterDelimiter(d, "--" + CRLF);
    } else {
      var p, more := parts[0], Encapsulated(boundary, parts[1..]);
      SplitsBack(boundary, parts[1..]);
      var after := more[|d|..];
      hide Find, PartsAfter, Delimiter, Contains;
      assert more == d + after;
      AfterDelimiter(d, CRLF + (p + more));
      if Contains(p, d) { ReadsCutPart(d, p, after); } else { ReadsWholePart(d, p, after); }
      assert parts == [p] + parts[1..];
      if !Contains(p, d) && PartsAfter(d, after).Some? {
        assert ([p] + PartsAfter(d, after).value)[1..] == PartsAfter(d, after).value;
      }
    }
  }

  // ---- Headers of a part ------------------------------------------------------------------------

  predicate HeaderShaped(lines: seq<string>)
  {
    forall i :: 0 <= i < |lines| ==> |lines[i]| > 0 && lines[i][0] == 'C' && !HasControl(lines[i])
  }

  lemma PartTextStart(lines: seq<string>, body: string)
    requires HeaderShaped(lines)
    ensures |PartText(lines, body)| >= 2
    ensures PartText(lines, body)[0] != '-'
  {
  }

  /** No header line starts with a boundary line: a part contains the delimiter
      exactly when its body, after a line break, does. */
  lemma {:induction false} HeadersHoldNoDelimiter(lines: seq<string>, body: string, boundary: string)
    requires HeaderShaped(lines)
    ensures Contains(PartText(lines, body), Delimiter(boundary)) <==> Contains(CRLF + body, Delimiter(boundary))
    decreases |lines|
  {
    if lines != [] {
      var line, rest := lines[0], PartText(lines[1..], body);
      PartTextStart(lines[1..], body);
      HeadersHoldNoDelimiter(lines[1..], body, boundary);
      assert '\r' !in line by { assert IsControl('\r'); }
      OneHeaderLine(line, rest, boundary);
    }
  }

  /** Nor does any other line in front of text that does not start with a hyphen. */
  lemma OneHeaderLine(line: string, rest: string, boundary: string)
    requires '\r' !in line && (rest == "" || rest[0] != '-')
    ensures Contains(line + (CRLF + rest), Delimiter(boundary)) <==> Contains(rest, Delimiter(boundary))
  {
    var d, s, n := Delimiter(boundary), line + (CRLF + rest), |line| + 2;
    assert s == (line + CRLF) + rest;
    if Contains(rest, d) {
      var k :| At(d, rest, k);
      AtShift(d, line + CRLF, rest, k);
      assert At(d, s, n + k);
    }
    if Contains(s, d) {
      var k :| At(d, s, k);
      DelimiterBehindLine(line, rest, boundary, k);
      hide At;
      AtShift(d, line + CRLF, rest, k - n);
      assert At(d, rest, k - n);
    }
  }

  lemma DelimiterBehindLine(line: string, rest: string, boundary: string, k: int)
    requires '\r' !in line && (rest == "" || rest[0] != '-')
    requires At(Delimiter(boundary), line + (CRLF + rest), k)
    ensures k >= |line| + 2
  {
    var d, s := Delimiter(boundary), line + (CRLF + rest);
    var found := s[k..k + |d|];
    assert found[0] == '\r' && found[2] == '-' && |found| >= 4;
    assert s[k] == '\r' && s[k + 2] == '-';
    assert forall i :: 0 <= i < |line| ==> s[i] == line[i] && line[i] in line;
    assert s[|line| + 1] == '\n';
    assert rest != "" ==> s[|line| + 2] == rest[0];
  }

  /** Every part text reads back as its header lines and its body. */
  lemma {:induction false} PartReadsBack(lines: seq<string>, body: string)
    requires HeaderShaped(lines)
    ensures SplitPart(PartText(lines, body)) == Some((lines, body))
    decreases |lines|
  {
    var s := PartText(lines, body);
    if lines == [] {
      AfterDelimiter(CRLF, body);
      assert At(CRLF, s, 0);
    } else {
      var line, rest := lines[0], PartText(lines[1..], body);
      PartReadsBack(lines[1..], body);
      HeadOnceCrlf();
      NoCrlfIn(line);
      FirstOccurrence(CRLF, line, rest);
      assert s[..|line|] == line && s[|line| + 2..] == rest;
      assert [line] + lines[1..] == lines;
    }
  }

  lemma HeadOnceCrlf()
    ensures HeadOnce(CRLF)
  {
  }

  lemma NoCrlfIn(line: string)
    requires !HasControl(line)
    ensures !Contains(line, CRLF)
  {
    forall k ensures !At(CRLF, line, k) {
      if 0 <= k && k + 2 <= |line| {
        assert !IsControl(line[k]) && line[k..k + 2][0] == line[k];
      }
    }
  }

  // ---- The package as a whole ----------------------------------------------------------------------

  /** The parts in order, the SOAP part first. */
  function AllParts(b: Builder): seq<Attachment>
  {
    (if b.soap.Some? then [b.soap.value] else []) + b.attachments
  }

  /** What `build` writes: CRLF and it are the encapsulated parts. */
  ghost predicate IsPackage(out: string, boundary: string, parts: seq<Attachment>)
  {
    CRLF + out == Encapsulated(boundary, Texts(parts))
  }

  /** The writer fails exactly when there is no SOAP part, or when a boundary or header
      line holds a control octet. */
  ghost predicate Buildable(b: Builder)
  {
    && b.soap.Some?
    && !HasControl(b.boundary)
    && forall i :: 0 <= i < |AllParts(b)| ==> CleanHeaders(AllParts(b)[i])
  }

  ghost predicate BodiesAvoid(parts: seq<Attachment>, boundary: string)
  {
    forall i :: 0 <= i < |parts| ==> !Contains(CRLF + parts[i].body, Delimiter(boundary))
  }

  /** A package splits back into its parts' texts exactly when no body, after a line
      break, contains the delimiter; then each text splits into its header lines and
      body, octet for octet and in order. */
  lemma PackageSplitsBack(out: string, boundary: string, parts: seq<Attachment>)
    requires IsPackage(out, boundary, parts)
    requires !HasControl(boundary)
    requires forall i :: 0 <= i < |parts| ==> CleanHeaders(parts[i])
    ensures Split(out, boundary) == Some(Texts(parts)) <==> BodiesAvoid(parts, boundary)
    ensures forall i :: 0 <= i < |parts|
              ==> SplitPart(Texts(parts)[i]) == Some((HeaderLines(parts[i]), parts[i].body))
                  && SaysFields(HeaderLines(parts[i]), parts[i])
  {
    var d, ts := Delimiter(boundary), Texts(parts);
    forall i | 0 <= i < |parts|
      ensures SplitPart(ts[i]) == Some((HeaderLines(parts[i]), parts[i].body))
      ensures SaysFields(HeaderLines(parts[i]), parts[i])
      ensures Contains(ts[i], d) <==> Contains(CRLF + parts[i].body, d)
    {
      PartReadsBack(HeaderLines(parts[i]), parts[i].body);
      HeadersSayFields(parts[i]);
      HeadersHoldNoDelimiter(HeaderLines(parts[i]), parts[i].body, boundary);
    }
    DelimiterHeadOnce(boundary);
    SplitsBack(boundary, ts);
    StartsAtDelimiter(out, boundary, ts);
  }

  lemma StartsAtDelimiter(out: string, boundary: string, ts: seq<string>)
    requires CRLF + out == Encapsulated(boundary, ts)
    requires Delimiter(boundary) <= Encapsulated(boundary, ts)
    ensures Split(out, boundary) == PartsAfter(Delimiter(boundary), Encapsulated(boundary, ts)[|Delimiter(boundary)|..])
  {
    assert At(Delimiter(boundary), CRLF + out, 0);
  }

  // ---- The header fields of a part --------------------------------------------------------------

  /** The text behind the first line that starts with the field's name. */
  function HeaderValue(lines: seq<string>, name: string): Option<string>
  {
    if lines == [] then None
    else if name + ": " <= lines[0] then Some(lines[0][|name| + 2..])
    else HeaderValue(lines[1..], name)
  }

  const TYPE := "Content-Type"
  const ENCODING := "Content-Transfer-Encoding"
  const ID := "Content-ID"
  const DISPOSITION := "Content-Disposition"

  /** The header lines say the attachment's own type, encoding, id in angle brackets,
      and disposition where it has one. */
  predicate SaysFields(lines: seq<string>, a: Attachment)
  {
    && HeaderValue(lines, TYPE) == Some(a.contentType)
    && HeaderValue(lines, ENCODING) == Some(a.transferEncoding)
    && HeaderValue(lines, ID) == Some("<" + a.contentId + ">")
    && HeaderValue(lines, DISPOSITION) == a.disposition
  }

  lemma OwnField(name: string, value: string)
    ensures name + ": " <= name + ": " + value && (name + ": " + value)[|name| + 2..] == value
  {
  }

  lemma OtherField(name: string, other: string, value: string, i: nat)
    requires i < |name| && i < |other| && name[i] != other[i]
    ensures !(name + ": " <= other + ": " + value)
  {
    var line := other + ": " + value;
    assert line[i] == other[i] && (name + ": ")[i] == name[i];
  }

  lemma HeadersSayFields(a: Attachment)
    ensures SaysFields(HeaderLines(a), a)
  {
    var lines := HeaderLines(a);
    HeaderLinesAre(a);
    OwnField(TYPE, a.contentType);
    OwnField(ENCODING, a.transferEncoding);
    OwnField(ID, "<" + a.contentId + ">");
    FieldsApart(a.contentType, a.transferEncoding, "<" + a.contentId + ">");
    if a.disposition.Some? { OwnField(DISPOSITION, a.disposition.value); }
    assert lines[0..] == lines;
    hide HeaderLines, HeaderValue;
    HeaderAt(lines, 0, TYPE);
    HeaderAt(lines, 0, ENCODING);
    HeaderAt(lines, 1, ENCODING);
    HeaderAt(lines, 0, ID);
    HeaderAt(lines, 1, ID);
    HeaderAt(lines, 2, ID);
    HeaderAt(lines, 0, DISPOSITION);
    HeaderAt(lines, 1, DISPOSITION);
    HeaderAt(lines, 2, DISPOSITION);
    HeaderAt(lines, 3, DISPOSITION);
  }

  lemma HeaderAt(lines: seq<string>, k: nat, name: string)
    requires k <= |lines|
    ensures HeaderValue(lines[k..], name) ==
            if k == |lines| then None
            else if name + ": " <= lines[k] then Some(lines[k][|name| + 2..])
            else HeaderValue(lines[k + 1..], name)
  {
    assert k < |lines| ==> lines[k..][0] == lines[k] && lines[k..][1..] == lines[k + 1..];
  }

  lemma HeaderLinesAre(a: Attachment)
    ensures |HeaderLines(a)| == if a.disposition.Some? then 4 else 3
    ensures HeaderLines(a)[0] == TYPE + ": " + a.contentType
    ensures HeaderLines(a)[1] == ENCODING + ": " + a.transferEncoding
    ensures HeaderLines(a)[2] == ID + ": " + ("<" + a.contentId + ">")
    ensures a.disposition.Some? ==> HeaderLines(a)[3] == DISPOSITION + ": " + a.disposition.value
  {
    assert TYPE + ": " == "Content-Type: ";
    assert ENCODING + ": " == "Content-Transfer-Encoding: ";
    assert ID + ": " + ("<" + a.contentId + ">") == "Content-ID: <" + a.contentId + ">";
    assert DISPOSITION + ": " == "Content-Disposition: ";
  }

  lemma FieldsApart(x: string, y: string, z: string)
    ensures !(ENCODING + ": " <= TYPE + ": " + x)
    ensures !(ID + ": " <= TYPE + ": " + x) && !(ID + ": " <= ENCODING + ": " + y)
    ensures !(DISPOSITION + ": " <= TYPE + ": " + x) && !(DISPOSITION + ": " <= ENCODING + ": " + y)
    ensures !(DISPOSITION + ": " <= ID + ": " + z)
  {
    assert TYPE[8] == 'T' && TYPE[9] == 'y' && ENCODING[8] == 'T' && ENCODING[9] == 'r';
    assert ID[8] == 'I' && DISPOSITION[8] == 'D';
    OtherField(ENCODING, TYPE, x, 9);
    OtherField(ID, TYPE, x, 8);
    OtherField(ID, ENCODING, y, 8);
    OtherField(DISPOSITION, TYPE, x, 8);
    OtherField(DISPOSITION, ENCODING, y, 8);
    OtherField(DISPOSITION, ID, z, 8);
  }

  // ---- The writer -------------------------------------------------------------------------------

  method WriteLine(body: string, line: string) returns (r: Result<string>)
    ensures r == if HasControl(line) then Failure else Success(body + line + CRLF)
  {
    for i := 0 to |line|
      invariant forall j :: 0 <= j < i ==> !IsControl(line[j])
    {
      if IsControl(line[i]) {
        return Failure;
      }
    }
    return Success(body + line + CRLF);
  }

  lemma LineWritten(out: string, lines: seq<string>, body: string)
    requires lines != []
    ensures out + PartText(lines, body) == out + lines[0] + CRLF + PartText(lines[1..], body)
  {
  }

  lemma AllWritten(out: string, body: string)
    ensures out + PartText([], body) + CRLF == out + CRLF + body + CRLF
  {
  }

  method WriteAttachment(body: string, a: Attachment) returns (r: Result<string>)
    ensures r.Success? <==> CleanHeaders(a)
    ensures r.Success? ==> r.value == body + TextOf(a) + CRLF
  {
    ghost var lines := HeaderLines(a);
    assert lines[0] == "Content-Type: " + a.contentType;
    assert lines[1] == "Content-Transfer-Encoding: " + a.transferEncoding;
    assert lines[2] == "Content-ID: <" + a.contentId + ">";
    assert lines[1..][1..] == lines[2..] && lines[2..][1..] == lines[3..];
    assert if a.disposition.None? then lines[3..] == []
           else lines[3] == "Content-Disposition: " + a.disposition.value && lines[3..] == [lines[3]];
    hide HasControl, PartText, HeaderLines;
    r := WriteLine(body, "Content-Type: " + a.contentType);
    if r.Failure? { return; }
    LineWritten(body, lines, a.body);
    ghost var out := r.value;
    r := WriteLine(r.value, "Content-Transfer-Encoding: " + a.transferEncoding);
    if r.Failure? { return; }
    LineWritten(out, lines[1..], a.body);
    out := r.value;
    r := WriteLine(r.value, "Content-ID: <" + a.contentId + ">");
    if r.Failure? { return; }
    LineWritten(out, lines[2..], a.body);
    if a.disposition.Some? {
      out := r.value;
      r := WriteLine(r.value, "Content-Disposition: " + a.disposition.value);
      if r.Failure? { return; }
      LineWritten(out, lines[3..], a.body);
    }
    AllWritten(r.value, a.body);
    r := Success(r.value + CRLF + a.body + CRLF);
  }

  lemma {:induction false} ControlInBoundaryLine(boundary: string)
    ensures HasControl("--" + boundary) <==> HasControl(boundary)
    ensures HasControl("--" + boundary + "--") <==> HasControl(boundary)
  {
    var opening, closing := "--" + boundary, "--" + boundary + "--";
    if HasControl(boundary) {
      var i :| 0 <= i < |boundary| && IsControl(boundary[i]);
      assert IsControl(opening[i + 2]) && IsControl(closing[i + 2]);
    } else {
      assert forall i :: 0 <= i < |opening| ==> opening[i] == '-' || opening[i] == boundary[i - 2];
      assert forall i :: 0 <= i < |closing| ==> closing[i] == '-' || closing[i] == boundary[i - 2];
    }
  }

  /** A boundary line and a part. */
  method WritePart(body: string, boundary: string, a: Attachment) returns (r: Result<string>)
    ensures r.Success? <==> !HasControl(boundary) && CleanHeaders(a)
    ensures r.Success? ==> r.value == body + "--" + boundary + CRLF + TextOf(a) + CRLF
  {
    ControlInBoundaryLine(boundary);
    r := WriteLine(body, "--" + boundary);
    if r.Success? {
      r := WriteAttachment(r.value, a);
    }
  }

  /** After the parts up to `i` the output, with CRLF in front, is `done` and a CRLF,
      and `done` is the start of the encapsulated parts. */
  ghost predicate Written(out: string, boundary: string, parts: seq<Attachment>, i: nat, done: string)
    requires i <= |parts|
  {
    && CRLF + out == done + CRLF
    && done + Encapsulated(boundary, Texts(parts)[i..]) == Encapsulated(boundary, Texts(parts))
  }

  lemma OneMoreWritten(out: string, boundary: string, parts: seq<Attachment>, i: nat, done: string)
    requires i < |parts| && Written(out, boundary, parts, i, done)
    ensures Written(out + "--" + boundary + CRLF + TextOf(parts[i]) + CRLF, boundary, parts, i + 1,
                    done + (Delimiter(boundary) + (CRLF + TextOf(parts[i]))))
  {
    var t, d, ts := TextOf(parts[i]), Delimiter(boundary), Texts(parts);
    hide TextOf, Texts;
    assert ts[i] == t;
    assert ts[i..][1..] == ts[i + 1..];
    var more := Encapsulated(boundary, ts[i + 1..]);
    assert Encapsulated(boundary, ts[i..]) == d + (CRLF + (t + more));
    assert done + (d + (CRLF + t)) + more == done + (d + (CRLF + (t + more)));
    assert CRLF + (out + "--" + boundary + CRLF + t + CRLF) == (CRLF + out) + ("--" + boundary + CRLF + t + CRLF);
    assert done + CRLF + ("--" + boundary + CRLF + t + CRLF) == done + (d + (CRLF + t)) + CRLF;
  }

  lemma ClosingWritten(out: string, boundary: string, parts: seq<Attachment>, done: string)
    requires Written(out, boundary, parts, |parts|, done)
    ensures IsPackage(out + ("--" + boundary + "--") + CRLF, boundary, parts)
  {
    var ts := Texts(parts);
    assert ts[|parts|..] == [];
    assert CRLF + (out + ("--" + boundary + "--") + CRLF) == (CRLF + out) + ("--" + boundary + "--" + CRLF);
    assert done + CRLF + ("--" + boundary + "--" + CRLF) == done + (Delimiter(boundary) + ("--" + CRLF));
  }

  /** `build`: one boundary line and one part after the other, then the closing line. */
  method Build(b: Builder) returns (r: Result<string>)
    ensures r.Success? <==> Buildable(b)
    ensures r.Success? ==> IsPackage(r.value, b.boundary, AllParts(b))
  {
    if b.soap.None? {
      return Failure;
    }
    ghost var parts := AllParts(b);
    ControlInBoundaryLine(b.boundary);
    assert parts[0] == b.soap.value;
    hide TextOf, CleanHeaders, HasControl, Encapsulated, Delimiter, Texts;
    assert Texts(parts)[0..] == Texts(parts);
    ghost var done := "";
    assert Written("", b.boundary, parts, 0, done);
    r := WritePart("", b.boundary, b.soap.value);
    if r.Failure? {
      return;
    }
    OneMoreWritten("", b.boundary, parts, 0, done);
    done := done + (Delimiter(b.boundary) + (CRLF + TextOf(parts[0])));
    for i := 0 to |b.attachments|
      invariant r.Success? && Written(r.value, b.boundary, parts, i + 1, done)
      invariant !HasControl(b.boundary)
      invariant forall j :: 0 <= j <= i ==> CleanHeaders(parts[j])
    {
      assert parts[i + 1] == b.attachments[i];
      ghost var out := r.value;
      r := WritePart(r.value, b.boundary, b.attachments[i]);
      if r.Failure? {
        return;
      }
      OneMoreWritten(out, b.boundary, parts, i + 1, done);
      done := done + (Delimiter(b.boundary) + (CRLF + TextOf(parts[i + 1])));
    }
    ClosingWritten(r.value, b.boundary, parts, done);
    r := WriteLine(r.value, "--" + b.boundary + "--");
  }
}
