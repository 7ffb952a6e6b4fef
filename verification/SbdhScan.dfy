/** The start-tag scanners of payload extraction (src/sbdh.rs) against start tags as
    they are written. */
module SbdhScan {
  import opened Wrappers
  import opened Text

  // ---- Start tags ---------------------------------------------------------------------------

  /** An attribute as written: white space, name, `=` between optional white space, and
      a value in its quotes. */
  datatype Written = Written(lead: string, name: string, before: string, after: string, quote: char, value: string)

  predicate IsBlank(s: string)
  {
    forall i :: 0 <= i < |s| ==> IsSpace(s[i])
  }

  /** Text of names and punctuation: no white space, quote, `=` or `>`. */
  predicate IsNameText(s: string)
  {
    forall i :: 0 <= i < |s| ==> !IsSpace(s[i]) && s[i] !in "\"'=>"
  }

  predicate WellWritten(a: Written)
  {
    && a.lead != "" && IsBlank(a.lead) && IsBlank(a.before) && IsBlank(a.after)
    && a.name != "" && IsNameText(a.name)
    && (a.quote == '"' || a.quote == '\'') && a.quote !in a.value
  }

  predicate AllWritten(attrs: seq<Written>)
  {
    forall i :: 0 <= i < |attrs| ==> WellWritten(attrs[i])
  }

  /** An attribute in front of the text that follows. */
  function PrintAttr(a: Written, rest: string): string
  {
    a.lead + (a.name + (a.before + ("=" + (a.after + ([a.quote] + (a.value + ([a.quote] + rest)))))))
  }

  function PrintAttrs(attrs: seq<Written>, rest: string): string
  {
    if attrs == [] then rest else PrintAttr(attrs[0], PrintAttrs(attrs[1..], rest))
  }

  /** A start tag up to its end: name, attributes, and white space or `/`. */
  function Tag(name: string, attrs: seq<Written>, tail: string): string
  {
    "<" + (name + PrintAttrs(attrs, tail))
  }

  predicate IsTail(tail: string)
  {
    forall i :: 0 <= i < |tail| ==> IsSpace(tail[i]) || tail[i] == '/'
  }

  // ---- The end of the tag -------------------------------------------------------------------------

  /** How far the unquoted `>` is, inside the quote or outside. */
  function EndFrom(quote: Option<char>, s: string): (r: nat)
    ensures r <= |s|
    decreases |s|
  {
    if s == "" then 0
    else if quote.None? && s[0] == '>' then 0
    else 1 + EndFrom(QuoteAfter(quote, s[0]), s[1..])
  }

  function QuoteAfter(quote: Option<char>, c: char): Option<char>
  {
    match quote
    case Some(q) => if c == q then None else quote
    case None => if c == '"' || c == '\'' then Some(c) else None
  }

  /** `start_tag_end`. */
  method StartTagEnd(element: string) returns (end: nat)
    ensures end == EndFrom(None, element)
  {
    var quote: Option<char> := None;
    for i := 0 to |element|
      invariant EndFrom(None, element) == i + EndFrom(quote, element[i..])
    {
      var c := element[i];
      assert element[i..][1..] == element[i + 1..];
      if quote.Some? {
        if c == quote.value { quote := None; }
      } else if c == '"' || c == '\'' {
        quote := Some(c);
      } else if c == '>' {
        return i;
      }
    }
    return |element|;
  }

  predicate Unquoted(w: string)
  {
    forall i :: 0 <= i < |w| ==> w[i] !in "\"'>"
  }

  lemma {:induction false} EndAfter(w: string, rest: string)
    requires Unquoted(w)
    ensures EndFrom(None, w + rest) == |w| + EndFrom(None, rest)
  {
    if w == "" {
      assert w + rest == rest;
    } else {
      EndAfter(w[1..], rest);
      assert (w + rest)[1..] == w[1..] + rest;
    }
  }

  lemma {:induction false} EndAfterValue(q: char, value: string, rest: string)
    requires q !in value
    ensures EndFrom(Some(q), value + ([q] + rest)) == |value| + 1 + EndFrom(None, rest)
  {
    var s := value + ([q] + rest);
    if value == "" {
      assert s == [q] + rest && s[1..] == rest;
    } else {
      EndAfterValue(q, value[1..], rest);
      assert s[1..] == value[1..] + ([q] + rest);
    }
  }

  lemma BlankIsUnquoted(w: string)
    ensures IsBlank(w) || IsNameText(w) || IsTail(w) ==> Unquoted(w)
  {
  }

  lemma EndAfterAttr(a: Written, rest: string)
    requires WellWritten(a)
    ensures EndFrom(None, PrintAttr(a, rest)) == |PrintAttr(a, rest)| - |rest| + EndFrom(None, rest)
  {
    var quoted := a.value + ([a.quote] + rest);
    BlankIsUnquoted(a.lead);
    BlankIsUnquoted(a.name);
    BlankIsUnquoted(a.before);
    BlankIsUnquoted(a.after);
    EndAfterValue(a.quote, a.value, rest);
    assert ([a.quote] + quoted)[1..] == quoted;
    assert EndFrom(None, [a.quote] + quoted) == 1 + EndFrom(Some(a.quote), quoted);
    assert Unquoted("=");
    hide EndFrom, Unquoted, IsBlank, IsNameText;
    EndAfter(a.after, [a.quote] + quoted);
    EndAfter("=", a.after + ([a.quote] + quoted));
    EndAfter(a.before, "=" + (a.after + ([a.quote] + quoted)));
    EndAfter(a.name, a.before + ("=" + (a.after + ([a.quote] + quoted))));
    EndAfter(a.lead, a.name + (a.before + ("=" + (a.after + ([a.quote] + quoted)))));
  }

  lemma {:induction false} EndAfterAttrs(attrs: seq<Written>, rest: string)
    requires AllWritten(attrs)
    ensures EndFrom(None, PrintAttrs(attrs, rest)) == |PrintAttrs(attrs, rest)| - |rest| + EndFrom(None, rest)
  {
    if attrs != [] {
      EndAfterAttrs(attrs[1..], rest);
      EndAfterAttr(attrs[0], PrintAttrs(attrs[1..], rest));
    }
  }

  /** The scan stops at the tag's own `>`, whatever the values hold. */
  lemma TagEndIsFound(name: string, attrs: seq<Written>, tail: string, content: string)
    requires IsNameText(name) && AllWritten(attrs) && IsTail(tail)
    ensures EndFrom(None, Tag(name, attrs, tail + (">" + content))) == |Tag(name, attrs, tail)|
    ensures Tag(name, attrs, tail + (">" + content)) == Tag(name, attrs, tail) + (">" + content)
  {
    var end := tail + (">" + content);
    assert EndFrom(None, ">" + content) == 0;
    BlankIsUnquoted(tail);
    BlankIsUnquoted(name);
    assert Unquoted("<");
    hide EndFrom, Unquoted, IsNameText, IsTail;
    EndAfter(tail, ">" + content);
    EndAfterAttrs(attrs, end);
    EndAfter(name, PrintAttrs(attrs, end));
    EndAfter("<", name + PrintAttrs(attrs, end));
    PrintAttrsJoin(attrs, tail, ">" + content);
    assert "<" + (name + (PrintAttrs(attrs, tail) + (">" + content))) == "<" + (name + PrintAttrs(attrs,
        tail)) + (">" + content);
  }

  lemma {:induction false} PrintAttrsJoin(attrs: seq<Written>, a: string, b: string)
    ensures PrintAttrs(attrs, a + b) == PrintAttrs(attrs, a) + b
  {
    if attrs != [] {
      PrintAttrsJoin(attrs[1..], a, b);
      PrintAttrJoin(attrs[0], PrintAttrs(attrs[1..], a), b);
    }
  }

  lemma PrintAttrJoin(w: Written, a: string, b: string)
    ensures PrintAttr(w, a + b) == PrintAttr(w, a) + b
  {
    assert [w.quote] + (a + b) == [w.quote] + a + b;
    assert w.value + ([w.quote] + a + b) == w.value + ([w.quote] + a) + b;
  }

  // ---- The declarations on the tag ---------------------------------------------------------------

  const XMLNS := "xmlns"

  /** The length of a prefix: up to `=` or white space. */
  function PrefixRun(s: string): (n: nat)
    ensures n <= |s|
  {
    if s == "" || s[0] == '=' || IsSpace(s[0]) then 0 else 1 + PrefixRun(s[1..])
  }

  /** What text behind `xmlns` declares, `None` being the default namespace. */
  function Declared(after: string): set<Option<string>>
  {
    if after != "" && after[0] == ':' then {Some(after[1..][..PrefixRun(after[1..])])}
    else var t := TrimStart(after);
      if t != "" && t[0] == '=' then {None} else {}
  }

  /** What is declared by every `xmlns` that white space precedes; `spaced` says
      whether it precedes the text. */
  function Scan(spaced: bool, s: string): set<Option<string>>
    decreases |s|
  {
    if s == "" then {}
    else (if spaced && XMLNS <= s then Declared(s[5..]) else {}) + Scan(IsSpace(s[0]), s[1..])
  }

  function FindXmlns(s: string): (r: Option<nat>)
    ensures r.Some? ==> r.value + 5 <= |s| && XMLNS <= s[r.value..]
  {
    if XMLNS <= s then Some(0)
    else if s == "" then None
    else match FindXmlns(s[1..]) case None => None case Some(k) => assert s[1..][k..] == s[k + 1..]; Some(k + 1)
  }

  /** Up to the first `xmlns` nothing is declared. */
  lemma {:induction false} ScanToXmlns(spaced: bool, s: string)
    ensures FindXmlns(s).None? ==> Scan(spaced, s) == {}
    ensures FindXmlns(s).Some? ==>
              var k := FindXmlns(s).value;
              Scan(spaced, s) == Scan(if k == 0 then spaced else IsSpace(s[k - 1]), s[k..])
    decreases |s|
  {
    if XMLNS <= s {
      assert s[0..] == s;
    } else if s != "" {
      ScanToXmlns(IsSpace(s[0]), s[1..]);
      OneQuiet(spaced, s);
      hide Scan, IsSpace;
      if FindXmlns(s[1..]).Some? {
        var k := FindXmlns(s[1..]).value;
        assert s[1..][k..] == s[k + 1..];
        assert k > 0 ==> s[1..][k - 1] == s[k];
      }
    }
  }

  /** The word itself holds no other. */
  lemma ScanPastXmlns(spaced: bool, s: string)
    requires XMLNS <= s
    ensures Scan(spaced, s) == (if spaced then Declared(s[5..]) else {}) + Scan(false, s[5..])
  {
    assert s[0] == 'x' && s[1] == 'm' && s[2] == 'l' && s[3] == 'n' && s[4] == 's';
    assert s[1..][1..] == s[2..] && s[2..][1..] == s[3..] && s[3..][1..] == s[4..] && s[4..][1..] == s[5..];
    hide Declared;
    OneQuiet(false, s[4..]);
    OneQuiet(false, s[3..]);
    OneQuiet(false, s[2..]);
    OneQuiet(false, s[1..]);
  }

  lemma OneQuiet(spaced: bool, s: string)
    requires s != "" && !(spaced && XMLNS <= s)
    ensures Scan(spaced, s) == Scan(IsSpace(s[0]), s[1..])
  {
  }

  ghost predicate Lists(own: seq<Option<string>>, ps: set<Option<string>>)
  {
    forall p :: p in own <==> p in ps
  }

  /** `own_namespace_declarations`. */
  method OwnDeclarations(tag: string) returns (own: seq<Option<string>>)
    ensures Lists(own, Scan(false, tag))
  {
    own := [];
    var rest := tag;
    ghost var found: set<Option<string>> := {};
    var at := FindXmlns(rest);
    hide Scan, Declared;
    while at.Some?
      invariant at == FindXmlns(rest)
      invariant Lists(own, found) && found + Scan(false, rest) == Scan(false, tag)
      decreases |rest|
    {
      var k := at.value;
      var after := rest[k + 5..];
      ScanToXmlns(false, rest);
      var spaced := k > 0 && IsSpace(rest[k - 1]);
      ScanPastXmlns(spaced, rest[k..]);
      assert rest[k..][5..] == after;
      if spaced {
        ghost var one := Declared(after);
        var more := DeclaredOf(after);
        own := own + more;
        assert Lists(own, found + one);
        found := found + one;
      }
      rest := after;
      at := FindXmlns(rest);
    }
    ScanToXmlns(false, rest);
  }

  method DeclaredOf(after: string) returns (own: seq<Option<string>>)
    ensures Lists(own, Declared(after))
  {
    own := [];
    if after != "" && after[0] == ':' {
      var end := 0;
      var tail := after[1..];
      while end < |tail| && tail[end] != '=' && !IsSpace(tail[end])
        invariant end <= |tail| && PrefixRun(tail) == end + PrefixRun(tail[end..])
      {
        assert tail[end..][1..] == tail[end + 1..];
        end := end + 1;
      }
      own := [Some(tail[..end])];
    } else {
      var t := TrimStart(after);
      if t != "" && t[0] == '=' { own := [None]; }
    }
  }

  // ---- The scan of a written tag -------------------------------------------------------------------

  /** What an attribute of this name declares. */
  function DeclaredBy(name: string): set<Option<string>>
  {
    if name == XMLNS then {None}
    else if XMLNS + ":" <= name then {Some(name[6..])}
    else {}
  }

  function DeclaredByAll(attrs: seq<Written>): set<Option<string>>
  {
    if attrs == [] then {} else DeclaredBy(attrs[0].name) + DeclaredByAll(attrs[1..])
  }

  /** No white space and `xmlns` inside. */
  predicate Quiet(value: string)
  {
    forall k :: 0 < k <= |value| && IsSpace(value[k - 1]) ==> !(XMLNS <= value[k..])
  }

  /** Whether white space precedes what follows `w`. */
  function SpacedAfter(spaced: bool, w: string): bool
  {
    if w == "" then spaced else IsSpace(w[|w| - 1])
  }

  /** Text before the rest only adds to what is found. */
  lemma {:induction false} ScanKeeps(spaced: bool, w: string, rest: string)
    ensures Scan(SpacedAfter(spaced, w), rest) <= Scan(spaced, w + rest)
    decreases |w|
  {
    if w == "" {
      assert w + rest == rest;
    } else {
      ScanKeeps(IsSpace(w[0]), w[1..], rest);
      assert (w + rest)[1..] == w[1..] + rest;
    }
  }

  /** Where no position of `w` is a declaration it adds nothing. */
  lemma {:induction false} ScanSkips(spaced: bool, w: string, rest: string)
    requires spaced ==> !(XMLNS <= w + rest)
    requires forall k :: 0 < k < |w| && IsSpace(w[k - 1]) ==> !(XMLNS <= w[k..] + rest)
    ensures Scan(spaced, w + rest) == Scan(SpacedAfter(spaced, w), rest)
    decreases |w|
  {
    if w == "" {
      assert w + rest == rest;
    } else {
      var s := w + rest;
      assert s[1..] == w[1..] + rest && s[0] == w[0];
      assert forall k :: 0 < k < |w[1..]| ==> w[1..][k..] == w[k + 1..] && w[1..][k - 1] == w[k];
      assert w[1..] == w[1..][0..];
      OneQuiet(spaced, s);
      if |w| > 1 {
        ScanSkips(IsSpace(w[0]), w[1..], rest);
      } else {
        assert w[1..] + rest == rest;
      }
    }
  }

  predicate NoX(w: string)
  {
    forall i :: 0 <= i < |w| ==> w[i] != 'x'
  }

  lemma ScanNoX(spaced: bool, w: string, rest: string)
    requires NoX(w)
    ensures w != "" || !spaced ==> Scan(spaced, w + rest) == Scan(SpacedAfter(spaced, w), rest)
    ensures w == "" ==> w + rest == rest
  {
    if w != "" {
      assert (w + rest)[0] == w[0];
      forall k | 0 < k < |w| ensures !(XMLNS <= w[k..] + rest) {
        assert (w[k..] + rest)[0] == w[k];
      }
      ScanSkips(spaced, w, rest);
    } else {
      assert w + rest == rest;
    }
  }

  /** White space and `=` behind a name, and white space before the quote. */
  lemma ScanToQuote(before: string, after: string, q: char, rest: string)
    requires IsBlank(before) && IsBlank(after) && (q == '"' || q == '\'')
    ensures Scan(false, before + ("=" + (after + ([q] + rest)))) == Scan(false, rest)
  {
    assert NoX(before) && NoX(after) && NoX("=") && NoX([q]);
    hide Scan, IsBlank, NoX;
    ScanNoX(false, before, "=" + (after + ([q] + rest)));
    ScanNoX(SpacedAfter(false, before), "=", after + ([q] + rest));
    ScanNoX(false, after, [q] + rest);
    ScanNoX(SpacedAfter(false, after), [q], rest);
  }

  /** A value, from its opening to its closing quote. */
  lemma ScanValue(value: string, q: char, rest: string)
    requires (q == '"' || q == '\'') && q !in value
    ensures Scan(false, rest) <= Scan(false, value + ([q] + rest))
    ensures Quiet(value) ==> Scan(false, value + ([q] + rest)) == Scan(false, rest)
  {
    assert NoX([q]);
    ScanNoX(SpacedAfter(false, value), [q], rest);
    ScanKeeps(false, value, [q] + rest);
    if Quiet(value) {
      forall k | 0 < k < |value| && IsSpace(value[k - 1]) ensures !(XMLNS <= value[k..] + ([q] + rest)) {
        var s := value[k..] + ([q] + rest);
        var n := |value| - k;
        if n >= 5 {
          assert s[..5] == value[k..][..5];
        } else {
          assert s[n] == q != XMLNS[n];
        }
      }
      ScanSkips(false, value, [q] + rest);
    }
  }

  predicate EndsName(s: string)
  {
    s != "" && (s[0] == '=' || IsSpace(s[0]))
  }

  lemma {:induction false} PrefixThen(p: string, rest: string)
    requires IsNameText(p) && EndsName(rest)
    ensures PrefixRun(p + rest) == |p|
  {
    if p == "" {
      assert p + rest == rest;
    } else {
      PrefixThen(p[1..], rest);
      assert (p + rest)[1..] == p[1..] + rest;
    }
  }

  lemma {:induction false} TrimBlank(before: string, rest: string)
    requires IsBlank(before) && rest != "" && !IsSpace(rest[0])
    ensures TrimStart(before + rest) == rest
  {
    if before == "" {
      assert before + rest == rest;
    } else {
      TrimBlank(before[1..], rest);
      assert (before + rest)[1..] == before[1..] + rest;
    }
  }

  lemma DeclaredPrefix(p: string, rest: string)
    requires IsNameText(p) && EndsName(rest)
    ensures Declared(":" + (p + rest)) == {Some(p)}
  {
    var s := ":" + (p + rest);
    assert s[1..] == p + rest;
    PrefixThen(p, rest);
    assert (p + rest)[..|p|] == p;
  }

  lemma DeclaredDefault(before: string, rest: string)
    requires IsBlank(before)
    ensures Declared(before + ("=" + rest)) == {None}
  {
    TrimBlank(before, "=" + rest);
    assert before != "" ==> (before + ("=" + rest))[0] == before[0];
  }

  lemma DeclaredNothing(w: string, rest: string)
    requires w != "" && IsNameText(w) && w[0] != ':'
    ensures Declared(w + rest) == {}
  {
    var s := w + rest;
    assert s[0] == w[0] && TrimStart(s) == s;
  }

  /** Whether a name starts with `xmlns` shows in front of any text that ends it. */
  lemma NameStarts(name: string, behind: string)
    requires IsNameText(name) && EndsName(behind)
    ensures XMLNS <= name + behind <==> XMLNS <= name
    ensures XMLNS <= name ==> (name + behind)[5..] == name[5..] + behind
  {
    var s := name + behind;
    if |name| < 5 {
      assert s[|name|] == behind[0] != XMLNS[|name|];
    } else {
      assert s[..5] == name[..5];
    }
  }

  /** The name of an attribute declares what it should. */
  lemma NameDeclares(name: string, before: string, rest: string)
    requires name != "" && IsNameText(name) && IsBlank(before)
    ensures var s := name + (before + ("=" + rest));
            (if XMLNS <= s then Declared(s[5..]) else {}) == DeclaredBy(name)
  {
    var behind := before + ("=" + rest);
    assert EndsName(behind) by { assert before != "" ==> behind[0] == before[0]; }
    NameStarts(name, behind);
    if XMLNS <= name {
      var w := name[5..];
      assert name == XMLNS + w && IsNameText(w);
      hide Declared, IsSpace, IsBlank, EndsName;
      if w == "" {
        assert w + behind == behind && name == XMLNS;
        DeclaredDefault(before, rest);
      } else if w[0] == ':' {
        var p := w[1..];
        assert w + behind == ":" + (p + behind) && name[6..] == p && XMLNS + ":" <= name;
        DeclaredPrefix(p, behind);
      } else {
        assert name[5] != ':' && (XMLNS + ":")[5] == ':';
        DeclaredNothing(w, behind);
      }
    }
  }

  lemma ScanName(name: string, before: string, rest: string)
    requires name != "" && IsNameText(name) && IsBlank(before)
    ensures var behind := before + ("=" + rest);
            Scan(true, name + behind) == DeclaredBy(name) + Scan(false, behind)
  {
    var behind := before + ("=" + rest);
    var s := name + behind;
    NameDeclares(name, before, rest);
    assert s[1..] == name[1..] + behind && s[0] == name[0];
    assert forall k :: 0 <= k < |name| ==> !IsSpace(name[k]);
    hide DeclaredBy, Declared, IsSpace, IsBlank, IsNameText;
    ScanSkips(false, name[1..], behind);
  }

  lemma ScanToValue(spaced: bool, a: Written, rest: string)
    requires WellWritten(a)
    ensures Scan(spaced, PrintAttr(a, rest)) == DeclaredBy(a.name) + Scan(false, a.value + ([a.quote] + rest))
  {
    var quoted := a.value + ([a.quote] + rest);
    assert NoX(a.lead) && SpacedAfter(spaced, a.lead);
    hide Scan, IsBlank, IsNameText, DeclaredBy, NoX, SpacedAfter;
    ScanNoX(spaced, a.lead, a.name + (a.before + ("=" + (a.after + ([a.quote] + quoted)))));
    ScanName(a.name, a.before, a.after + ([a.quote] + quoted));
    ScanToQuote(a.before, a.after, a.quote, quoted);
  }

  lemma ScanAttr(spaced: bool, a: Written, rest: string)
    requires WellWritten(a)
    ensures DeclaredBy(a.name) + Scan(false, rest) <= Scan(spaced, PrintAttr(a, rest))
    ensures Quiet(a.value) ==> Scan(spaced, PrintAttr(a, rest)) == DeclaredBy(a.name) + Scan(false, rest)
  {
    hide Scan, PrintAttr, DeclaredBy, Quiet;
    ScanToValue(spaced, a, rest);
    ScanValue(a.value, a.quote, rest);
  }

  lemma {:induction false} ScanAttrs(spaced: bool, attrs: seq<Written>, rest: string)
    requires AllWritten(attrs) && attrs != []
    ensures DeclaredByAll(attrs) + Scan(false, rest) <= Scan(spaced, PrintAttrs(attrs, rest))
    ensures (forall i :: 0 <= i < |attrs| ==> Quiet(attrs[i].value)) ==>
              Scan(spaced, PrintAttrs(attrs, rest)) == DeclaredByAll(attrs) + Scan(false, rest)
  {
    var more := PrintAttrs(attrs[1..], rest);
    ScanAttr(spaced, attrs[0], more);
    if |attrs| == 1 {
      assert attrs[1..] == [] && DeclaredByAll(attrs[1..]) == {};
    } else {
      ScanAttrs(false, attrs[1..], rest);
    }
    hide Scan, DeclaredBy, Quiet, PrintAttr;
  }

  lemma ScanOpening(name: string, body: string)
    requires IsNameText(name) && name != ""
    ensures Scan(false, "<" + (name + body)) == Scan(false, body)
  {
    assert NoX("<");
    ScanNoX(false, "<", name + body);
    ScanSkips(false, name, body);
  }

  lemma ScanTail(tail: string)
    requires IsTail(tail)
    ensures Scan(false, tail) == {}
  {
    assert NoX(tail);
    ScanNoX(false, tail, "");
    assert tail + "" == tail;
  }

  /** The scan of a written start tag finds every prefix declared on it, and exactly
      those when no attribute value holds white space followed by `xmlns`. */
  lemma DeclarationsAreFound(name: string, attrs: seq<Written>, tail: string)
    requires name != "" && IsNameText(name) && AllWritten(attrs) && IsTail(tail)
    ensures DeclaredByAll(attrs) <= Scan(false, Tag(name, attrs, tail))
    ensures (forall i :: 0 <= i < |attrs| ==> Quiet(attrs[i].value)) ==>
              Scan(false, Tag(name, attrs, tail)) == DeclaredByAll(attrs)
  {
    hide Quiet, PrintAttr, IsNameText, Scan, IsTail, AllWritten, DeclaredBy;
    ScanOpening(name, PrintAttrs(attrs, tail));
    ScanTail(tail);
    if attrs != [] { ScanAttrs(false, attrs, tail); }
  }

  /** A value that may look like a declaration, as in `<x a=" xmlns:p=">`. */
  function Decoy(p: string): Written
  {
    Written(" ", "a", "", "", '"', " " + (XMLNS + (":" + (p + "="))))
  }

  lemma DecoyWritten(p: string)
    requires IsNameText(p)
    ensures WellWritten(Decoy(p)) && DeclaredBy(Decoy(p).name) == {}
  {
    assert '"' !in " " && '"' !in XMLNS && '"' !in ":" && '"' !in p && '"' !in "=";
  }

  lemma DecoyScanned(p: string, end: string)
    requires IsNameText(p)
    ensures Some(p) in Scan(false, Decoy(p).value + end)
  {
    var s := XMLNS + (":" + (p + ("=" + end)));
    assert Decoy(p).value + end == " " + s;
    assert XMLNS <= s && s[5..] == ":" + (p + ("=" + end));
    DeclaredPrefix(p, "=" + end);
    hide Declared, IsNameText;
    assert Some(p) in Scan(true, s);
    hide Scan;
    ScanKeeps(false, " ", s);
  }

  /** The scan then finds a prefix that is not declared. */
  lemma ValueIsTakenForDeclaration(spaced: bool, p: string, rest: string)
    requires IsNameText(p)
    ensures WellWritten(Decoy(p)) && DeclaredBy(Decoy(p).name) == {}
    ensures Some(p) in Scan(spaced, PrintAttr(Decoy(p), rest))
  {
    DecoyWritten(p);
    DecoyScanned(p, [Decoy(p).quote] + rest);
    hide *;
    ScanToValue(spaced, Decoy(p), rest);
  }
}
