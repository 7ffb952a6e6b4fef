/** Media types: the AS4 and the AS2 recogniser (src/as4/mime_packaging.rs and
    src/as2/client.rs) against the grammar of section 8.3.1 of RFC 9110. They are the
    same code but for one branch: the AS2 one refuses a CR or LF that stands
    unescaped in a quoted string. Strings are octets. */
module MediaType {
  import opened Wrappers

  // ---- The grammar -------------------------------------------------------------------

  predicate IsTchar(c: char)
  {
    'a' <= c <= 'z' || 'A' <= c <= 'Z' || '0' <= c <= '9' || c in "!#$%&'*+-.^_`|~"
  }

  predicate IsToken(t: string)
  {
    t != "" && forall i :: 0 <= i < |t| ==> IsTchar(t[i])
  }

  predicate IsBreak(c: char)
  {
    c == '\r' || c == '\n'
  }

  datatype Item = Plain(c: char) | Escaped(c: char)
  datatype Value = Token(token: string) | Quoted(items: seq<Item>)
  datatype Parameter = Parameter(lead: nat, gap: nat, name: string, value: Value)
  datatype MediaType = MediaType(main: string, sub: string, parameters: seq<Parameter>)

  function Spaces(n: nat): (s: string)
    ensures |s| == n && forall i :: 0 <= i < n ==> s[i] == ' '
  {
    seq(n, _ => ' ')
  }

  // Each part is printed in front of the text that follows it.

  function PrintItems(items: seq<Item>, rest: string): string
  {
    if items == [] then rest
    else match items[0]
      case Plain(c) => [c] + PrintItems(items[1..], rest)
      case Escaped(c) => ['\\', c] + PrintItems(items[1..], rest)
  }

  function PrintValue(v: Value, rest: string): string
  {
    match v
    case Token(t) => t + rest
    case Quoted(items) => "\"" + PrintItems(items, "\"" + rest)
  }

  function PrintParameter(p: Parameter, rest: string): string
  {
    Spaces(p.lead) + (";" + (Spaces(p.gap) + (p.name + ("=" + PrintValue(p.value, rest)))))
  }

  function PrintParameters(ps: seq<Parameter>): string
  {
    if ps == [] then "" else PrintParameter(ps[0], PrintParameters(ps[1..]))
  }

  function Print(m: MediaType): string
  {
    m.main + ("/" + (m.sub + PrintParameters(m.parameters)))
  }

  /** `breaks`: a quoted string may hold an unescaped CR or LF. */
  predicate LegalItems(items: seq<Item>, breaks: bool)
  {
    forall i :: 0 <= i < |items| && items[i].Plain?
      ==> items[i].c != '"' && items[i].c != '\\' && (breaks || !IsBreak(items[i].c))
  }

  predicate LegalValue(v: Value, breaks: bool)
  {
    match v
    case Token(t) => IsToken(t)
    case Quoted(items) => LegalItems(items, breaks)
  }

  predicate LegalParameter(p: Parameter, breaks: bool)
  {
    IsToken(p.name) && LegalValue(p.value, breaks)
  }

  predicate LegalParameters(ps: seq<Parameter>, breaks: bool)
  {
    forall i :: 0 <= i < |ps| ==> LegalParameter(ps[i], breaks)
  }

  predicate Legal(m: MediaType, breaks: bool)
  {
    IsToken(m.main) && IsToken(m.sub) && LegalParameters(m.parameters, breaks)
  }

  ghost predicate InGrammar(s: string, breaks: bool)
  {
    exists m: MediaType :: Legal(m, breaks) && Print(m) == s
  }

  // ---- The recogniser on suffixes -------------------------------------------------------

  /** The length of the longest prefix of token characters. */
  function TokenRun(s: string): (n: nat)
    ensures n <= |s|
    ensures forall i :: 0 <= i < n ==> IsTchar(s[i])
    ensures n < |s| ==> !IsTchar(s[n])
  {
    if s == "" || !IsTchar(s[0]) then 0 else 1 + TokenRun(s[1..])
  }

  function SpaceRun(s: string): (n: nat)
    ensures n <= |s|
    ensures forall i :: 0 <= i < n ==> s[i] == ' '
    ensures n < |s| ==> s[n] != ' '
  {
    if s == "" || s[0] != ' ' then 0 else 1 + SpaceRun(s[1..])
  }

  /** What follows a token, greedily. */
  function AfterToken(s: string): (r: Option<string>)
    ensures r.Some? ==> |r.value| < |s|
  {
    if TokenRun(s) == 0 then None else Some(s[TokenRun(s)..])
  }

  function SkipSpaces(s: string): (r: string)
    ensures |r| <= |s|
  {
    s[SpaceRun(s)..]
  }

  /** What follows a literal character. */
  function After(c: char, s: string): (r: Option<string>)
    ensures r.Some? ==> |r.value| < |s|
  {
    if s == "" || s[0] != c then None else Some(s[1..])
  }

  /** What follows the closing quote, from inside the quotes. */
  function AfterItems(s: string, breaks: bool): (r: Option<string>)
    ensures r.Some? ==> |r.value| < |s|
  {
    if s == "" then None
    else if s[0] == '"' then Some(s[1..])
    else if s[0] == '\\' then if |s| < 2 then None else AfterItems(s[2..], breaks)
    else if !breaks && IsBreak(s[0]) then None
    else AfterItems(s[1..], breaks)
  }

  function AfterQuoted(s: string, breaks: bool): (r: Option<string>)
    ensures r.Some? ==> |r.value| < |s|
  {
    match After('"', s) case None => None case Some(t) => AfterItems(t, breaks)
  }

  function AfterValue(s: string, breaks: bool): (r: Option<string>)
    ensures r.Some? ==> |r.value| < |s|
  {
    match AfterToken(s) case Some(t) => Some(t) case None => AfterQuoted(s, breaks)
  }

  function AfterParameter(s: string, breaks: bool): (r: Option<string>)
    ensures r.Some? ==> |r.value| < |s|
  {
    match After(';', SkipSpaces(s))
    case None => None
    case Some(t) =>
      match AfterToken(SkipSpaces(t))
      case None => None
      case Some(u) =>
        match After('=', u)
        case None => None
        case Some(v) => AfterValue(v, breaks)
  }

  predicate AcceptsParameters(s: string, breaks: bool)
    decreases |s|
  {
    s == "" || (match AfterParameter(s, breaks) case None => false case Some(t) => AcceptsParameters(t, breaks))
  }

  predicate Accepts(s: string, breaks: bool)
  {
    match AfterToken(s)
    case None => false
    case Some(t) =>
      match After('/', t)
      case None => false
      case Some(u) =>
        match AfterToken(u)
        case None => false
        case Some(v) => AcceptsParameters(v, breaks)
  }

  // ---- Every printed media type is accepted ----------------------------------------------

  predicate StopsToken(s: string)
  {
    s == "" || !IsTchar(s[0])
  }

  lemma TokenThen(t: string, rest: string)
    requires IsToken(t) && StopsToken(rest)
    ensures AfterToken(t + rest) == Some(rest)
  {
    var s := t + rest;
    assert forall i :: 0 <= i < |t| ==> IsTchar(s[i]);
    assert rest != "" ==> s[|t|] == rest[0];
    assert s[|t|..] == rest;
  }

  lemma SpacesThen(n: nat, rest: string)
    requires rest != "" && rest[0] != ' '
    ensures SkipSpaces(Spaces(n) + rest) == rest
  {
    var s := Spaces(n) + rest;
    assert forall i :: 0 <= i < n ==> s[i] == ' ';
    assert s[n] == rest[0];
    assert s[n..] == rest;
  }

  lemma CharThen(c: char, rest: string)
    ensures After(c, [c] + rest) == Some(rest)
  {
    assert ([c] + rest)[1..] == rest;
  }

  lemma {:induction false} ItemsThen(items: seq<Item>, rest: string, breaks: bool)
    requires LegalItems(items, breaks)
    ensures AfterItems(PrintItems(items, "\"" + rest), breaks) == Some(rest)
  {
    var s := PrintItems(items, "\"" + rest);
    if items == [] {
      assert s[1..] == rest;
    } else {
      ItemsThen(items[1..], rest, breaks);
      var tail := PrintItems(items[1..], "\"" + rest);
      match items[0]
      case Plain(c) => assert s[1..] == tail;
      case Escaped(c) => assert s[2..] == tail;
    }
  }

  lemma ValueThen(v: Value, rest: string, breaks: bool)
    requires LegalValue(v, breaks) && StopsToken(rest)
    ensures AfterValue(PrintValue(v, rest), breaks) == Some(rest)
  {
    match v
    case Token(t) => TokenThen(t, rest);
    case Quoted(items) =>
      ItemsThen(items, rest, breaks);
      CharThen('"', PrintItems(items, "\"" + rest));
      assert TokenRun(PrintValue(v, rest)) == 0;
  }

  lemma ParameterThen(p: Parameter, rest: string, breaks: bool)
    requires LegalParameter(p, breaks) && StopsToken(rest)
    ensures AfterParameter(PrintParameter(p, rest), breaks) == Some(rest)
  {
    var v := PrintValue(p.value, rest);
    var named := p.name + ("=" + v);
    assert named[0] == p.name[0] != ' ' by { assert IsTchar(p.name[0]); }
    hide IsTchar, SpaceRun, TokenRun, AfterItems, PrintValue, AfterValue;
    SpacesThen(p.lead, ";" + (Spaces(p.gap) + named));
    CharThen(';', Spaces(p.gap) + named);
    SpacesThen(p.gap, named);
    assert StopsToken("=" + v) by { EqualsStops(v); }
    TokenThen(p.name, "=" + v);
    CharThen('=', v);
    ValueThen(p.value, rest, breaks);
  }

  lemma EqualsStops(v: string)
    ensures StopsToken("=" + v) && StopsToken("/" + v)
  {
  }

  lemma {:induction false} ParametersStop(ps: seq<Parameter>)
    ensures StopsToken(PrintParameters(ps))
  {
    if ps != [] {
      assert PrintParameters(ps)[0] in " ;";
    }
  }

  lemma {:induction false} PrintedParametersAccepted(ps: seq<Parameter>, breaks: bool)
    requires LegalParameters(ps, breaks)
    ensures AcceptsParameters(PrintParameters(ps), breaks)
  {
    if ps != [] {
      ParametersStop(ps[1..]);
      ParameterThen(ps[0], PrintParameters(ps[1..]), breaks);
      PrintedParametersAccepted(ps[1..], breaks);
    }
  }

  // ---- Everything accepted is printed --------------------------------------------------------

  lemma TokenOf(s: string) returns (t: string)
    requires AfterToken(s).Some?
    ensures IsToken(t) && s == t + AfterToken(s).value
  {
    t := s[..TokenRun(s)];
  }

  lemma SpacesOf(s: string) returns (n: nat)
    ensures s == Spaces(n) + SkipSpaces(s)
  {
    n := SpaceRun(s);
    assert s[..n] == Spaces(n);
  }

  lemma CharOf(c: char, s: string)
    requires After(c, s).Some?
    ensures s == [c] + After(c, s).value
  {
  }

  lemma {:induction false} ItemsOf(s: string, breaks: bool) returns (items: seq<Item>)
    requires AfterItems(s, breaks).Some?
    ensures LegalItems(items, breaks)
    ensures s == PrintItems(items, "\"" + AfterItems(s, breaks).value)
    decreases |s|
  {
    if s[0] == '"' {
      items := [];
    } else if s[0] == '\\' {
      var more := ItemsOf(s[2..], breaks);
      items := [Escaped(s[1])] + more;
      assert items[1..] == more;
    } else {
      var more := ItemsOf(s[1..], breaks);
      items := [Plain(s[0])] + more;
      assert items[1..] == more;
    }
  }

  lemma ValueOf(s: string, breaks: bool) returns (v: Value)
    requires AfterValue(s, breaks).Some?
    ensures LegalValue(v, breaks) && s == PrintValue(v, AfterValue(s, breaks).value)
  {
    if AfterToken(s).Some? {
      var t := TokenOf(s);
      v := Token(t);
    } else {
      CharOf('"', s);
      var items := ItemsOf(s[1..], breaks);
      v := Quoted(items);
    }
  }

  lemma ParameterOf(s: string, breaks: bool) returns (p: Parameter)
    requires AfterParameter(s, breaks).Some?
    ensures LegalParameter(p, breaks)
    ensures s == PrintParameter(p, AfterParameter(s, breaks).value)
  {
    hide IsTchar, SpaceRun, TokenRun, AfterItems, PrintValue, AfterValue, SkipSpaces, AfterToken, After, Spaces;
    var lead := SpacesOf(s);
    CharOf(';', SkipSpaces(s));
    var t := After(';', SkipSpaces(s)).value;
    var gap := SpacesOf(t);
    var name := TokenOf(SkipSpaces(t));
    var u := AfterToken(SkipSpaces(t)).value;
    CharOf('=', u);
    var value := ValueOf(After('=', u).value, breaks);
    p := Parameter(lead, gap, name, value);
  }

  lemma {:induction false} ParametersOf(s: string, breaks: bool) returns (ps: seq<Parameter>)
    requires AcceptsParameters(s, breaks)
    ensures LegalParameters(ps, breaks) && s == PrintParameters(ps)
    decreases |s|
  {
    if s == "" {
      ps := [];
    } else {
      var p := ParameterOf(s, breaks);
      var more := ParametersOf(AfterParameter(s, breaks).value, breaks);
      ps := [p] + more;
      assert ps[1..] == more;
    }
  }

  /** The greedy recogniser accepts exactly the strings of the grammar. */
  lemma AcceptsIffInGrammar(s: string, breaks: bool)
    ensures Accepts(s, breaks) <==> InGrammar(s, breaks)
  {
    if Accepts(s, breaks) {
      AcceptedIsInGrammar(s, breaks);
    }
    if InGrammar(s, breaks) {
      var m: MediaType :| Legal(m, breaks) && Print(m) == s;
      PrintedIsAccepted(m, breaks);
    }
  }

  lemma AcceptedIsInGrammar(s: string, breaks: bool)
    requires Accepts(s, breaks)
    ensures InGrammar(s, breaks)
  {
    hide IsTchar, TokenRun, AfterToken, After;
    var main := TokenOf(s);
    var t := AfterToken(s).value;
    CharOf('/', t);
    var u := After('/', t).value;
    var sub := TokenOf(u);
    var ps := ParametersOf(AfterToken(u).value, breaks);
    var m := MediaType(main, sub, ps);
    assert Legal(m, breaks) && Print(m) == s;
  }

  lemma PrintedIsAccepted(m: MediaType, breaks: bool)
    requires Legal(m, breaks)
    ensures Accepts(Print(m), breaks)
  {
    hide IsTchar, TokenRun, AfterToken, After, StopsToken;
    var ps := PrintParameters(m.parameters);
    ParametersStop(m.parameters);
    PrintedParametersAccepted(m.parameters, breaks);
    TokenThen(m.sub, ps);
    EqualsStops(m.sub + ps);
    TokenThen(m.main, "/" + (m.sub + ps));
    CharThen('/', m.sub + ps);
  }

  // ---- The recognisers as written --------------------------------------------------------

  /** The scan from index `i` ends at `r` where the suffix function leaves `r..`. */
  ghost predicate Reaches(s: string, end: Option<nat>, rest: Option<string>)
  {
    match end
    case None => rest.None?
    case Some(r) => r <= |s| && rest == Some(s[r..])
  }

  method ScanToken(s: string, start: nat) returns (end: Option<nat>)
    requires start <= |s|
    ensures Reaches(s, end, AfterToken(s[start..]))
  {
    var i := start;
    while i < |s| && IsTchar(s[i])
      invariant start <= i <= |s|
      invariant TokenRun(s[start..]) == i - start + TokenRun(s[i..])
    {
      assert s[i..][1..] == s[i + 1..];
      i := i + 1;
    }
    assert s[start..][i - start..] == s[i..];
    end := if i > start then Some(i) else None;
  }

  method ScanSpaces(s: string, start: nat) returns (end: nat)
    requires start <= |s|
    ensures start <= end <= |s| && SkipSpaces(s[start..]) == s[end..]
    ensures end < |s| ==> s[end] != ' '
  {
    end := start;
    while end < |s| && s[end] == ' '
      invariant start <= end <= |s|
      invariant SpaceRun(s[start..]) == end - start + SpaceRun(s[end..])
    {
      assert s[end..][1..] == s[end + 1..];
      end := end + 1;
    }
    assert s[start..][end - start..] == s[end..];
  }

  method ScanQuoted(s: string, start: nat, breaks: bool) returns (end: Option<nat>)
    requires start <= |s|
    ensures Reaches(s, end, AfterQuoted(s[start..], breaks))
  {
    if start == |s| || s[start] != '"' {
      return None;
    }
    var i := start + 1;
    assert s[start..][1..] == s[i..];
    while i < |s|
      invariant start < i <= |s| + 1
      invariant AfterQuoted(s[start..], breaks) == if i <= |s| then AfterItems(s[i..], breaks) else None
    {
      assert s[i..][1..] == s[i + 1..];
      assert i + 2 <= |s| ==> s[i..][2..] == s[i + 2..];
      if s[i] == '"' {
        return Some(i + 1);
      } else if s[i] == '\\' {
        i := i + 2;
      } else if !breaks && IsBreak(s[i]) {
        return None;
      } else {
        i := i + 1;
      }
    }
    return None;
  }

  /** One parameter, from the spaces in front of its semicolon. */
  method ScanParameter(s: string, start: nat, breaks: bool) returns (end: Option<nat>)
    requires start <= |s|
    ensures Reaches(s, end, AfterParameter(s[start..], breaks))
    ensures end.Some? ==> end.value > start
  {
    hide IsTchar, TokenRun, SpaceRun, SkipSpaces, AfterToken, AfterQuoted;
    var j := ScanSpaces(s, start);
    if j == |s| || s[j] != ';' {
      return None;
    }
    assert s[j..][1..] == s[j + 1..];
    var k := ScanSpaces(s, j + 1);
    var name := ScanToken(s, k);
    if name.None? || name.value == |s| || s[name.value] != '=' {
      return None;
    }
    var v := name.value + 1;
    assert s[name.value..][1..] == s[v..];
    end := ScanToken(s, v);
    if end.None? {
      end := ScanQuoted(s, v, breaks);
    }
  }

  /** `parse` of both recognisers: its index grows with every parameter. */
  method Recognise(s: string, breaks: bool) returns (ok: bool)
    ensures ok <==> InGrammar(s, breaks)
  {
    AcceptsIffInGrammar(s, breaks);
    hide IsTchar, TokenRun, AfterToken, AfterParameter, InGrammar;
    assert s[0..] == s;
    var end := ScanToken(s, 0);
    if end.None? || end.value == |s| || s[end.value] != '/' {
      return false;
    }
    var i := end.value + 1;
    assert s[end.value..][1..] == s[i..];
    end := ScanToken(s, i);
    if end.None? {
      return false;
    }
    i := end.value;
    while i < |s|
      invariant i <= |s|
      invariant Accepts(s, breaks) <==> AcceptsParameters(s[i..], breaks)
    {
      end := ScanParameter(s, i, breaks);
      if end.None? {
        return false;
      }
      i := end.value;
    }
    return true;
  }

  predicate Printable(s: string)
  {
    forall i :: 0 <= i < |s| ==> ' ' <= s[i] <= '~'
  }

  /** AS4: `validate_media_type`. */
  method ValidateMediaType(s: string) returns (ok: bool)
    ensures ok <==> Printable(s) && InGrammar(s, true)
  {
    hide InGrammar;
    for i := 0 to |s|
      invariant Printable(s[..i])
    {
      if !(' ' <= s[i] <= '~') {
        return false;
      }
    }
    ok := Recognise(s, true);
  }

  /** AS2: `valid_media_type`. */
  method ValidMediaType(s: string) returns (ok: bool)
    ensures ok <==> |s| <= 255 && InGrammar(s, false)
  {
    if |s| > 255 {
      return false;
    }
    ok := Recognise(s, false);
  }

  // ---- The two recognisers against each other -----------------------------------------------

  predicate NoBreaks(s: string)
  {
    forall i :: 0 <= i < |s| ==> !IsBreak(s[i])
  }

  lemma {:induction false} SameItems(s: string)
    requires NoBreaks(s)
    ensures AfterItems(s, true) == AfterItems(s, false)
    ensures AfterItems(s, true).Some? ==> NoBreaks(AfterItems(s, true).value)
    decreases |s|
  {
    if s != "" {
      if s[0] == '\\' {
        if |s| >= 2 { SameItems(s[2..]); }
      } else {
        SameItems(s[1..]);
      }
    }
  }

  lemma SameParameter(s: string)
    requires NoBreaks(s)
    ensures AfterParameter(s, true) == AfterParameter(s, false)
    ensures AfterParameter(s, true).Some? ==> NoBreaks(AfterParameter(s, true).value)
  {
    var t := SkipSpaces(s);
    if After(';', t).Some? {
      var u := SkipSpaces(t[1..]);
      if AfterToken(u).Some? && After('=', AfterToken(u).value).Some? {
        var v := AfterToken(u).value[1..];
        assert NoBreaks(v);
        if After('"', v).Some? { SameItems(v[1..]); }
      }
    }
  }

  lemma {:induction false} SameParameters(s: string)
    requires NoBreaks(s)
    ensures AcceptsParameters(s, true) == AcceptsParameters(s, false)
    decreases |s|
  {
    SameParameter(s);
    if AfterParameter(s, true).Some? {
      SameParameters(AfterParameter(s, true).value);
    }
  }

  /** On every value without CR and LF, so on every printable one, the two grammars
      agree: for values of at most 255 bytes, so do the recognisers. */
  lemma RecognisersAgree(s: string)
    ensures Printable(s) ==> NoBreaks(s)
    ensures NoBreaks(s) ==> (InGrammar(s, true) <==> InGrammar(s, false))
  {
    if NoBreaks(s) {
      AcceptsIffInGrammar(s, true);
      AcceptsIffInGrammar(s, false);
      if AfterToken(s).Some? && After('/', AfterToken(s).value).Some? {
        var u := AfterToken(s).value[1..];
        if AfterToken(u).Some? {
          SameParameters(AfterToken(u).value);
        }
      }
    }
  }

  /** Every CR or LF of the text follows a backslash. */
  predicate BreaksEscaped(s: string)
  {
    forall i :: 0 <= i < |s| && IsBreak(s[i]) ==> i > 0 && s[i - 1] == '\\'
  }

  lemma BreaksEscapedJoin(s: string, t: string)
    requires NoBreaks(s) && BreaksEscaped(t)
    ensures BreaksEscaped(s + t)
  {
    var u := s + t;
    assert forall i :: 0 <= i < |s| ==> u[i] == s[i];
    forall i | 0 <= i < |u| && IsBreak(u[i]) ensures i > 0 && u[i - 1] == '\\' {
      assert u[i] == t[i - |s|];
    }
  }

  lemma NoBreaksIn(t: string, n: nat)
    ensures IsToken(t) ==> NoBreaks(t)
    ensures NoBreaks(Spaces(n)) && NoBreaks("\"") && NoBreaks("=") && NoBreaks(";") && NoBreaks("/")
  {
  }

  lemma ValueBreaksEscaped(v: Value, rest: string)
    requires LegalValue(v, false) && BreaksEscaped(rest)
    ensures BreaksEscaped(PrintValue(v, rest))
  {
    hide IsTchar, IsToken, BreaksEscaped, NoBreaks, PrintItems;
    NoBreaksIn("", 0);
    match v {
      case Token(t) => NoBreaksIn(t, 0); BreaksEscapedJoin(t, rest);
      case Quoted(items) =>
        BreaksEscapedJoin("\"", rest);
        ItemBreaksEscaped(items, "\"" + rest);
        BreaksEscapedJoin("\"", PrintItems(items, "\"" + rest));
    }
  }

  lemma {:induction false} ItemBreaksEscaped(items: seq<Item>, rest: string)
    requires LegalItems(items, false) && BreaksEscaped(rest)
    ensures BreaksEscaped(PrintItems(items, rest))
  {
    if items != [] {
      ItemBreaksEscaped(items[1..], rest);
      var tail := PrintItems(items[1..], rest);
      match items[0]
      case Plain(c) => BreaksEscapedJoin([c], tail);
      case Escaped(c) =>
        var u := ['\\', c] + tail;
        forall i | 0 <= i < |u| && IsBreak(u[i]) ensures i > 0 && u[i - 1] == '\\' {
          assert i >= 2 ==> u[i] == tail[i - 2];
        }
    }
  }

  lemma {:induction false} ParameterBreaksEscaped(ps: seq<Parameter>)
    requires LegalParameters(ps, false)
    ensures BreaksEscaped(PrintParameters(ps))
  {
    if ps != [] {
      ParameterBreaksEscaped(ps[1..]);
      var p, rest := ps[0], PrintParameters(ps[1..]);
      ValueBreaksEscaped(p.value, rest);
      hide IsTchar, IsToken, BreaksEscaped, NoBreaks, PrintValue, Spaces;
      NoBreaksIn(p.name, p.gap);
      NoBreaksIn(p.name, p.lead);
      var v := PrintValue(p.value, rest);
      BreaksEscapedJoin("=", v);
      BreaksEscapedJoin(p.name, "=" + v);
      BreaksEscapedJoin(Spaces(p.gap), p.name + ("=" + v));
      BreaksEscapedJoin(";", Spaces(p.gap) + (p.name + ("=" + v)));
      BreaksEscapedJoin(Spaces(p.lead), ";" + (Spaces(p.gap) + (p.name + ("=" + v))));
    }
  }

  /** The AS2 recogniser lets a CR or LF in, but only behind a backslash: an accepted
      value is free of them exactly when no backslash precedes one. */
  lemma AcceptedBreaksAreEscaped(s: string)
    requires InGrammar(s, false)
    ensures BreaksEscaped(s)
    ensures NoBreaks(s) <==> forall i :: 0 < i < |s| && IsBreak(s[i]) ==> s[i - 1] != '\\'
  {
    EscapedMeans(s);
    hide IsTchar, IsToken, IsBreak, LegalParameters, PrintParameters, BreaksEscaped, NoBreaks;
    var m: MediaType :| Legal(m, false) && Print(m) == s;
    PrintedBreaksAreEscaped(m);
  }

  lemma EscapedMeans(s: string)
    ensures BreaksEscaped(s) ==>
              (NoBreaks(s) <==> forall i :: 0 < i < |s| && IsBreak(s[i]) ==> s[i - 1] != '\\')
  {
    if BreaksEscaped(s) && !NoBreaks(s) {
      var i :| 0 <= i < |s| && IsBreak(s[i]);
      assert 0 < i && s[i - 1] == '\\';
    }
  }

  lemma PrintedBreaksAreEscaped(m: MediaType)
    requires Legal(m, false)
    ensures BreaksEscaped(Print(m))
  {
    hide IsTchar, IsToken, BreaksEscaped, NoBreaks, PrintParameters;
    ParameterBreaksEscaped(m.parameters);
    NoBreaksIn(m.sub, 0);
    NoBreaksIn(m.main, 0);
    BreaksEscapedJoin(m.sub, PrintParameters(m.parameters));
    BreaksEscapedJoin("/", m.sub + PrintParameters(m.parameters));
    BreaksEscapedJoin(m.main, "/" + (m.sub + PrintParameters(m.parameters)));
  }

  lemma NoBreaksTail(s: string, t: string)
    ensures NoBreaks(s + t) ==> NoBreaks(t)
  {
    var u := s + t;
    assert forall i :: 0 <= i < |t| ==> t[i] == u[|s| + i];
  }

  lemma EscapedBreakPrinted(p: Parameter, rest: string)
    requires p.value == Quoted([Escaped('\r')])
    ensures !NoBreaks(PrintParameter(p, rest))
  {
    var inside := PrintItems(p.value.items, "\"" + rest);
    BreakAt(inside, 1);
    var v := PrintValue(p.value, rest);
    hide PrintItems, Spaces, NoBreaks;
    NoBreaksTail("\"", inside);
    NoBreaksTail("=", v);
    NoBreaksTail(p.name, "=" + v);
    NoBreaksTail(Spaces(p.gap), p.name + ("=" + v));
    NoBreaksTail(";", Spaces(p.gap) + (p.name + ("=" + v)));
    NoBreaksTail(Spaces(p.lead), ";" + (Spaces(p.gap) + (p.name + ("=" + v))));
  }

  lemma EscapedBreakLength(p: Parameter)
    requires p.value == Quoted([Escaped('\r')]) && p.lead == 0 == p.gap
    ensures |PrintParameter(p, "")| == |p.name| + 6
  {
    var items := p.value.items;
    assert items[1..] == [] && PrintItems(items, "\"" + "") == ['\\', '\r'] + ("\"" + "");
  }

  /** So the documented absence of CR and LF fails, as for a/b;c="\CR": a value of at
      most 255 octets that the recogniser accepts. */
  lemma EscapedBreakIsAccepted(main: string, sub: string, name: string)
    requires IsToken(main) && IsToken(sub) && IsToken(name) && |main| + |sub| + |name| <= 248
    ensures var m := MediaType(main, sub, [Parameter(0, 0, name, Quoted([Escaped('\r')]))]);
            |Print(m)| <= 255 && InGrammar(Print(m), false) && !NoBreaks(Print(m))
  {
    var p := Parameter(0, 0, name, Quoted([Escaped('\r')]));
    var m := MediaType(main, sub, [p]);
    EscapedBreakPrinted(p, "");
    EscapedBreakLength(p);
    assert Legal(m, false) && InGrammar(Print(m), false);
    assert [p][1..] == [];
    hide IsToken, PrintParameter, NoBreaks, InGrammar;
    var ps := PrintParameters(m.parameters);
    assert PrintParameters([]) == "" && ps == PrintParameter(p, "");
    NoBreaksTail(sub, ps);
    NoBreaksTail("/", sub + ps);
    NoBreaksTail(main, "/" + (sub + ps));
  }

  lemma BreakAt(s: string, i: nat)
    requires i < |s| && IsBreak(s[i])
    ensures !NoBreaks(s)
  {
  }
}
