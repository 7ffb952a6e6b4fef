/** Payload extraction on the text of the document (src/sbdh.rs): the scan of the
    payload's start tag, the recorded prefixes, and the declarations spliced in. */
module SbdhText {
  import opened Wrappers
  import opened Text
  import opened Sbdh
  import opened SbdhScan

  // ---- What a written start tag means ----------------------------------------------------

  type Coding = string -> string

  function NameOf(s: string): QName
  {
    match SplitOnce(s, ':') case None => QName(None, s) case Some(p) => QName(Some(p.0), p.1)
  }

  /** The declaration an attribute is, if it is one. */
  function DeclOf(a: Written, unescape: Coding): seq<Binding>
  {
    if a.name == XMLNS then [Binding(None, unescape(a.value))]
    else if XMLNS + ":" <= a.name then [Binding(Some(a.name[6..]), unescape(a.value))]
    else []
  }

  function AttrOf(a: Written, unescape: Coding): seq<Attr>
  {
    if DeclOf(a, unescape) == [] then [Attr(NameOf(a.name), unescape(a.value))] else []
  }

  function DeclsOf(attrs: seq<Written>, unescape: Coding): seq<Binding>
  {
    if attrs == [] then [] else DeclOf(attrs[0], unescape) + DeclsOf(attrs[1..], unescape)
  }

  function AttrsOf(attrs: seq<Written>, unescape: Coding): seq<Attr>
  {
    if attrs == [] then [] else AttrOf(attrs[0], unescape) + AttrsOf(attrs[1..], unescape)
  }

  /** The element a start tag opens. */
  function ElementOf(name: string, attrs: seq<Written>, children: seq<Node>, unescape: Coding): Node
  {
    Element(NameOf(name), DeclsOf(attrs, unescape), AttrsOf(attrs, unescape), children)
  }

  lemma {:induction false} DeclaresWhatIsWritten(attrs: seq<Written>, unescape: Coding, p: Prefix)
    ensures Declares(DeclsOf(attrs, unescape), p) <==> p in DeclaredByAll(attrs)
  {
    if attrs != [] {
      DeclaresWhatIsWritten(attrs[1..], unescape, p);
      DeclaresJoin(DeclOf(attrs[0], unescape), DeclsOf(attrs[1..], unescape), p);
      assert Declares(DeclOf(attrs[0], unescape), p) <==> p in DeclaredBy(attrs[0].name) by {
        if p in DeclaredBy(attrs[0].name) {
          assert DeclOf(attrs[0], unescape)[0].prefix == p;
        }
      }
    }
  }

  // ---- Splicing declarations in ---------------------------------------------------------------

  /** A binding written as a declaration. */
  function WrittenDecl(b: Binding, escape: Coding): Written
  {
    Written(" ", if b.prefix.Some? then XMLNS + ":" + b.prefix.value else XMLNS, "", "", '"', escape(b.uri))
  }

  function WrittenDecls(bs: seq<Binding>, escape: Coding): (r: seq<Written>)
    ensures |r| == |bs|
  {
    if bs == [] then [] else [WrittenDecl(bs[0], escape)] + WrittenDecls(bs[1..], escape)
  }

  function ExtraText(extra: seq<Binding>, escape: Coding): string
  {
    PrintAttrs(WrittenDecls(extra, escape), "")
  }

  /** The end of the tag's name: white space, `/` or `>`. */
  function NameRun(s: string): (n: nat)
    ensures n <= |s|
  {
    if s == "" || IsSpace(s[0]) || s[0] == '/' || s[0] == '>' then 0 else 1 + NameRun(s[1..])
  }

  /** Text inserted behind the name of the tag. */
  function Splice(element: string, extra: string): string
    requires element != ""
  {
    var n := 1 + NameRun(element[1..]);
    element[..n] + extra + element[n..]
  }

  predicate IsTagName(s: string)
  {
    s != "" && IsNameText(s) && '/' !in s
  }

  predicate EndsTagName(s: string)
  {
    s != "" && (IsSpace(s[0]) || s[0] == '/' || s[0] == '>')
  }

  lemma {:induction false} NameRunThen(name: string, rest: string)
    requires IsNameText(name) && '/' !in name && EndsTagName(rest)
    ensures NameRun(name + rest) == |name|
  {
    if name == "" {
      assert name + rest == rest;
    } else {
      NameRunThen(name[1..], rest);
      assert (name + rest)[1..] == name[1..] + rest;
      assert name[0] in name;
    }
  }

  lemma AttrsEndName(attrs: seq<Written>, rest: string)
    requires AllWritten(attrs) && EndsTagName(rest)
    ensures EndsTagName(PrintAttrs(attrs, rest))
  {
    if attrs != [] {
      assert PrintAttrs(attrs, rest)[0] == attrs[0].lead[0];
    }
  }

  lemma {:induction false} PrintAttrsConcat(xs: seq<Written>, ys: seq<Written>, rest: string)
    ensures PrintAttrs(xs + ys, rest) == PrintAttrs(xs, PrintAttrs(ys, rest))
  {
    if xs == [] {
      assert xs + ys == ys;
    } else {
      PrintAttrsConcat(xs[1..], ys, rest);
      assert (xs + ys)[1..] == xs[1..] + ys && (xs + ys)[0] == xs[0];
    }
  }

  /** Splicing written attributes into a tag writes the tag with them in front. */
  lemma SpliceWrites(name: string, xs: seq<Written>, attrs: seq<Written>, rest: string)
    requires IsTagName(name) && AllWritten(attrs) && EndsTagName(rest)
    ensures Splice(Tag(name, attrs, rest), PrintAttrs(xs, "")) == Tag(name, xs + attrs, rest)
  {
    var body, front := PrintAttrs(attrs, rest), PrintAttrs(xs, "");
    AttrsEndName(attrs, rest);
    PrintAttrsConcat(xs, attrs, rest);
    PrintAttrsJoin(xs, "", body);
    assert "" + body == body;
    hide PrintAttrs, EndsTagName, IsNameText;
    SpliceBehind(name, body, front);
  }

  lemma SpliceBehind(name: string, body: string, front: string)
    requires IsNameText(name) && '/' !in name && EndsTagName(body)
    ensures Splice("<" + (name + body), front) == "<" + (name + (front + body))
  {
    var element, n := "<" + (name + body), 1 + |name|;
    NameRunThen(name, body);
    hide NameRun, IsNameText, EndsTagName;
    assert element[1..] == name + body;
    assert element[..n] == "<" + name && element[n..] == body;
    assert "<" + name + front + body == "<" + (name + (front + body));
  }

  /** Attribute values are escaped so that the quote does not end them, and read back. */
  ghost predicate Escaping(escape: Coding, unescape: Coding)
  {
    forall u :: '"' !in escape(u) && unescape(escape(u)) == u
  }

  /** Prefixes as names can have them. */
  predicate NamedScope(bs: seq<Binding>)
  {
    forall i :: 0 <= i < |bs| && bs[i].prefix.Some? ==> IsNameText(bs[i].prefix.value)
  }

  lemma DeclReadsBack(b: Binding, escape: Coding, unescape: Coding)
    requires Escaping(escape, unescape) && (b.prefix.Some? ==> IsNameText(b.prefix.value))
    ensures WellWritten(WrittenDecl(b, escape))
    ensures DeclOf(WrittenDecl(b, escape), unescape) == [b] && AttrOf(WrittenDecl(b, escape), unescape) == []
  {
    var a := WrittenDecl(b, escape);
    assert '"' !in escape(b.uri) && unescape(escape(b.uri)) == b.uri;
    if b.prefix.Some? {
      assert |a.name| >= 6 && a.name[..6] == XMLNS + ":" && a.name[6..] == b.prefix.value;
      assert IsNameText(XMLNS) && IsNameText(":");
    }
  }

  lemma {:induction false} TagPartsJoin(xs: seq<Written>, ys: seq<Written>, unescape: Coding)
    ensures DeclsOf(xs + ys, unescape) == DeclsOf(xs, unescape) + DeclsOf(ys, unescape)
    ensures AttrsOf(xs + ys, unescape) == AttrsOf(xs, unescape) + AttrsOf(ys, unescape)
  {
    hide DeclOf, AttrOf;
    if xs == [] {
      assert xs + ys == ys;
    } else {
      TagPartsJoin(xs[1..], ys, unescape);
      assert (xs + ys)[1..] == xs[1..] + ys && (xs + ys)[0] == xs[0];
    }
  }

  lemma {:induction false} DeclsReadBack(bs: seq<Binding>, escape: Coding, unescape: Coding)
    requires Escaping(escape, unescape) && NamedScope(bs)
    ensures AllWritten(WrittenDecls(bs, escape))
    ensures DeclsOf(WrittenDecls(bs, escape), unescape) == bs
    ensures AttrsOf(WrittenDecls(bs, escape), unescape) == []
  {
    var ws := WrittenDecls(bs, escape);
    if bs != [] {
      DeclReadsBack(bs[0], escape, unescape);
      DeclsReadBack(bs[1..], escape, unescape);
      hide Escaping, WellWritten, DeclOf, AttrOf, WrittenDecl, NamedScope;
      assert ws[1..] == WrittenDecls(bs[1..], escape);
      assert forall i :: 1 <= i < |ws| ==> ws[i] == ws[1..][i - 1];
      assert [bs[0]] + bs[1..] == bs;
    }
  }

  /** The spliced text is a start tag that opens the payload with these declarations
      added. */
  lemma SplicedTagMeans(name: string, attrs: seq<Written>, rest: string, children: seq<Node>, extra: seq<Binding>,
                        escape: Coding, unescape: Coding)
    requires IsTagName(name) && AllWritten(attrs) && EndsTagName(rest)
    requires Escaping(escape, unescape) && NamedScope(extra)
    ensures var ws := WrittenDecls(extra, escape);
            && AllWritten(ws + attrs)
            && Splice(Tag(name, attrs, rest), ExtraText(extra, escape)) == Tag(name, ws + attrs, rest)
            && ElementOf(name, ws + attrs, children, unescape)
               == Redeclared(ElementOf(name, attrs, children, unescape), extra)
  {
    SpliceWrites(name, WrittenDecls(extra, escape), attrs, rest);
    DeclsReadBack(extra, escape, unescape);
    TagPartsJoin(WrittenDecls(extra, escape), attrs, unescape);
    assert [] + AttrsOf(attrs, unescape) == AttrsOf(attrs, unescape);
    hide Splice, Tag, Escaping, WellWritten, DeclsOf, AttrsOf, WrittenDecls, PrintAttrs;
  }

  // ---- Extraction from a written document --------------------------------------------------------

  /** The prefixes the scan of the payload's start tag finds. */
  ghost predicate IsOwn(own: seq<Prefix>, element: string)
  {
    Lists(own, Scan(false, element[..EndFrom(None, element)]))
  }

  /** On a written payload they are those the scan of its tag finds: all it declares, and
      only those when its attribute values are quiet. */
  lemma OwnOfTag(name: string, attrs: seq<Written>, tail: string, content: string, own: seq<Prefix>, unescape: Coding)
    requires IsTagName(name) && AllWritten(attrs) && IsTail(tail)
    requires IsOwn(own, Tag(name, attrs, tail + (">" + content)))
    ensures Lists(own, Scan(false, Tag(name, attrs, tail)))
    ensures forall q :: Declares(DeclsOf(attrs, unescape), q) ==> q in own
    ensures (forall i :: 0 <= i < |attrs| ==> Quiet(attrs[i].value)) ==>
              forall q :: q in own <==> Declares(DeclsOf(attrs, unescape), q)
  {
    var element := Tag(name, attrs, tail + (">" + content));
    TagEndIsFound(name, attrs, tail, content);
    assert element[..|Tag(name, attrs, tail)|] == Tag(name, attrs, tail);
    DeclarationsAreFound(name, attrs, tail);
    hide Scan, Tag, EndFrom, DeclsOf, DeclaredByAll, Declares, Quiet, AllWritten;
    forall q ensures Declares(DeclsOf(attrs, unescape), q) <==> q in DeclaredByAll(attrs) {
      DeclaresWhatIsWritten(attrs, unescape, q);
    }
  }

  /** Extraction of a written payload preserves meaning: where no namespace has two
      prefixes in scope and no value on the start tag looks like a declaration, the
      extracted text opens with a start tag whose element, on its own, resolves every
      name as the payload did inside the envelope. */
  lemma WrittenExtractionPreservesMeaning(name: string, attrs: seq<Written>, tail: string, content: string,
                                          children: seq<Node>, scope: Scope, own: seq<Prefix>, used: seq<Prefix>,
                                          escape: Coding, unescape: Coding)
    requires IsTagName(name) && AllWritten(attrs) && IsTail(tail)
    requires forall i :: 0 <= i < |attrs| ==> Quiet(attrs[i].value)
    requires IsOwn(own, Tag(name, attrs, tail + (">" + content)))
    requires var payload := ElementOf(name, attrs, children, unescape);
             && IsUsed(used, payload, scope) && PlainlyBound(payload, scope)
             && NamedScope(Extend(scope, payload.decls))
    requires Lookup(scope, XML) == Some(XML_URI) && Escaping(escape, unescape)
    ensures var payload := ElementOf(name, attrs, children, unescape);
            var extra := Extra(Extend(scope, payload.decls), own, used);
            var ws := WrittenDecls(extra, escape);
            && Splice(Tag(name, attrs, tail + (">" + content)), ExtraText(extra, escape))
               == Tag(name, ws + attrs, tail + (">" + content))
            && AllWritten(ws + attrs)
            && Meaning(ElementOf(name, ws + attrs, children, unescape), BASE) == Meaning(payload, scope)
  {
    var payload := ElementOf(name, attrs, children, unescape);
    var extra := Extra(Extend(scope, payload.decls), own, used);
    var rest := tail + (">" + content);
    assert EndsTagName(rest) by { assert tail != "" ==> rest[0] == tail[0]; }
    ExtraNamed(Extend(scope, payload.decls), own, used);
    OwnOfTag(name, attrs, tail, content, own, unescape);
    hide *;
    ExtractionPreservesMeaning(payload, scope, own, used);
    SplicedTagMeans(name, attrs, rest, children, extra, escape, unescape);
  }

  /** Extraction of a written payload preserves meaning exactly when every prefix that
      the payload leaves free and the envelope binds, `xml` apart, is recorded as used
      and not among those the scan of the start tag finds. */
  lemma WrittenExtractionPreservesMeaningIff(name: string, attrs: seq<Written>, tail: string, content: string,
                                             children: seq<Node>, scope: Scope, own: seq<Prefix>, used: seq<Prefix>,
                                             escape: Coding, unescape: Coding)
    requires IsTagName(name) && AllWritten(attrs) && IsTail(tail)
    requires IsOwn(own, Tag(name, attrs, tail + (">" + content)))
    requires var payload := ElementOf(name, attrs, children, unescape);
             IsUsed(used, payload, scope) && NamedScope(Extend(scope, payload.decls))
    requires Lookup(scope, XML) == Some(XML_URI) && Escaping(escape, unescape)
    ensures var payload := ElementOf(name, attrs, children, unescape);
            var extra := Extra(Extend(scope, payload.decls), own, used);
            var ws := WrittenDecls(extra, escape);
            && Splice(Tag(name, attrs, tail + (">" + content)), ExtraText(extra, escape))
               == Tag(name, ws + attrs, tail + (">" + content))
            && (Meaning(ElementOf(name, ws + attrs, children, unescape), BASE) == Meaning(payload, scope) <==>
                  FreeAreDeclared(payload, scope, Scan(false, Tag(name, attrs, tail))))
  {
    var payload := ElementOf(name, attrs, children, unescape);
    var extra := Extra(Extend(scope, payload.decls), own, used);
    var rest := tail + (">" + content);
    assert EndsTagName(rest) by { assert tail != "" ==> rest[0] == tail[0]; }
    ExtraNamed(Extend(scope, payload.decls), own, used);
    OwnOfTag(name, attrs, tail, content, own, unescape);
    FreeAreDeclaredMeans(payload, scope, own, used, Scan(false, Tag(name, attrs, tail)));
    hide *;
    ExtractionPreservesMeaningIff(payload, scope, own, used);
    SplicedTagMeans(name, attrs, rest, children, extra, escape, unescape);
  }

  ghost predicate FreeAreDeclared(payload: Node, scope: Scope, found: set<Prefix>)
  {
    forall p :: Free(payload, p) && p != XML && Lookup(scope, p).Some? ==> Used(payload, scope, p) && p !in found
  }

  lemma FreeAreDeclaredMeans(payload: Node, scope: Scope, own: seq<Prefix>, used: seq<Prefix>, found: set<Prefix>)
    requires Lists(own, found) && IsUsed(used, payload, scope)
    ensures FreeAreDeclared(payload, scope, found) <==>
              forall p :: Free(payload, p) && p != XML && Lookup(scope, p).Some? ==> p in used && p !in own
  {
    hide Free, Used, Lookup;
  }

  /** Extracting the extracted text again, on its own, returns it octet for octet. */
  lemma WrittenExtractionIsIdempotent(name: string, attrs: seq<Written>, tail: string, content: string,
                                      children: seq<Node>, extra: seq<Binding>, own: seq<Prefix>, used: seq<Prefix>,
                                      escape: Coding, unescape: Coding)
    requires IsTagName(name) && AllWritten(attrs) && IsTail(tail)
    requires NamedScope(extra) && Escaping(escape, unescape)
    requires IsOwn(own, Splice(Tag(name, attrs, tail + (">" + content)), ExtraText(extra, escape)))
    ensures var once := Splice(Tag(name, attrs, tail + (">" + content)), ExtraText(extra, escape));
            var payload := ElementOf(name, WrittenDecls(extra, escape) + attrs, children, unescape);
            && once != ""
            && Splice(once, ExtraText(Extra(Extend(BASE, payload.decls), own, used), escape)) == once
  {
    var rest := tail + (">" + content);
    assert EndsTagName(rest) by { assert tail != "" ==> rest[0] == tail[0]; }
    var ws := WrittenDecls(extra, escape);
    SplicedTagMeans(name, attrs, rest, children, extra, escape, unescape);
    var once := Tag(name, ws + attrs, rest);
    var payload := ElementOf(name, ws + attrs, children, unescape);
    assert once != "" && payload.decls == DeclsOf(ws + attrs, unescape);
    hide *;
    OwnOfTag(name, ws + attrs, tail, content, own, unescape);
    AloneSkips(payload.decls, own, used);
    ReturnedUnchangedIff(once, Extend(BASE, payload.decls), own, used, escape);
  }

  lemma {:induction false} ExtraNamed(scope: Scope, own: seq<Prefix>, used: seq<Prefix>)
    requires NamedScope(scope)
    ensures NamedScope(Extra(scope, own, used))
  {
    if scope != [] { ExtraNamed(scope[1..], own, used); }
  }

  /** A value that looks like a declaration loses the namespace of an attribute: in
      `<x a=" xmlns:p=" p:b="v"/>` under an envelope that binds p, the scan takes p for
      declared, so it is not declared again and p:b is in no namespace afterwards. */
  lemma DecoyLosesMeaning(name: string, p: string, value: string, tail: string, content: string, u: string,
                          own: seq<Prefix>, used: seq<Prefix>, unescape: Coding)
    requires IsTagName(name) && IsTail(tail) && '"' !in value
    requires p != "" && IsNameText(p) && ':' !in p && p != "xml" && p != XMLNS
    requires var attrs := [Decoy(p), Written(" ", p + ":b", "", "", '"', value)];
             IsOwn(own, Tag(name, attrs, tail + (">" + content)))
    ensures var attrs := [Decoy(p), Written(" ", p + ":b", "", "", '"', value)];
            var payload := ElementOf(name, attrs, [], unescape);
            var scope := [Binding(Some(p), u)] + BASE;
            && Lookup(scope, Some(p)) == Some(u)
            && Meaning(Redeclared(payload, Extra(Extend(scope, payload.decls), own, used)), BASE)
               != Meaning(payload, scope)
  {
    var named := Written(" ", p + ":b", "", "", '"', value);
    var attrs := [Decoy(p), named];
    var payload := ElementOf(name, attrs, [], unescape);
    var scope: Scope := [Binding(Some(p), u)] + BASE;
    DecoyAttrs(p, value, unescape);
    DecoyIsOwn(name, p, named, tail, content, own, unescape);
    BoundInEnvelope(p, u);
    assert Free(payload, Some(p)) by {
      assert payload.attrs[1].name.prefix == Some(p);
      assert Names(payload, Some(p));
    }
    hide *;
    ExtractionPreservesMeaningIff(payload, scope, own, used);
  }

  lemma BoundInEnvelope(p: string, u: string)
    requires p != "xml"
    ensures Lookup([Binding(Some(p), u)] + BASE, XML) == Some(XML_URI)
    ensures Lookup([Binding(Some(p), u)] + BASE, Some(p)) == Some(u)
  {
    var one: Scope := [Binding(Some(p), u)];
    LookupJoin(one, BASE, XML);
    LookupJoin(one, BASE, Some(p));
    assert one[0].prefix == Some(p) && !Declares(one, XML);
    assert Lookup(BASE, XML) == Some(XML_URI);
  }

  lemma DecoyIsOwn(name: string, p: string, named: Written, tail: string, content: string, own: seq<Prefix>,
                   unescape: Coding)
    requires IsTagName(name) && IsTail(tail) && IsNameText(p) && AllWritten([Decoy(p), named])
    requires IsOwn(own, Tag(name, [Decoy(p), named], tail + (">" + content)))
    ensures Some(p) in own && forall q :: Declares(DeclsOf([Decoy(p), named], unescape), q) ==> q in own
  {
    var attrs := [Decoy(p), named];
    assert attrs[0] == Decoy(p) && attrs[1..] == [named];
    assert IsNameText(name) && name != "";
    assert PrintAttrs(attrs, tail) == PrintAttr(Decoy(p), PrintAttrs([named], tail));
    hide PrintAttr, PrintAttrs, Scan, Decoy, IsNameText, AllWritten, IsTail, DeclsOf, IsOwn;
    ValueIsTakenForDeclaration(false, p, PrintAttrs([named], tail));
    ScanOpening(name, PrintAttrs(attrs, tail));
    OwnOfTag(name, attrs, tail, content, own, unescape);
  }

  lemma NotDeclared(p: string, unescape: Coding, a: Written)
    requires ':' !in p && p != XMLNS && a.name == p + ":b"
    ensures DeclOf(a, unescape) == [] && NameOf(a.name) == QName(Some(p), "b")
  {
    SplitOnceAt(p, ':', "b");
    assert a.name == p + [':'] + "b" && ':' in a.name;
    assert ':' !in XMLNS;
    if XMLNS + ":" <= a.name {
      assert a.name == XMLNS + [':'] + a.name[6..];
      SplitOnceAt(XMLNS, ':', a.name[6..]);
    }
  }

  lemma NameJoins(a: string, b: string)
    requires IsNameText(a) && IsNameText(b)
    ensures IsNameText(a + b)
  {
  }

  lemma DecoyAttrs(p: string, value: string, unescape: Coding)
    requires p != "" && IsNameText(p) && ':' !in p && p != XMLNS && '"' !in value
    ensures var named := Written(" ", p + ":b", "", "", '"', value);
            && AllWritten([Decoy(p), named])
            && DeclsOf([Decoy(p), named], unescape) == []
            && |AttrsOf([Decoy(p), named], unescape)| == 2
            && AttrsOf([Decoy(p), named], unescape)[1].name == QName(Some(p), "b")
  {
    hide *;
    var named := Written(" ", p + ":b", "", "", '"', value);
    DecoyIsNone(p, unescape);
    NotDeclared(p, unescape, named);
    NamedWritten(p, named);
    TwoAttrs(Decoy(p), named, unescape);
    TwoWritten(Decoy(p), named);
  }

  lemma DecoyIsNone(p: string, unescape: Coding)
    requires IsNameText(p)
    ensures WellWritten(Decoy(p)) && DeclOf(Decoy(p), unescape) == []
  {
    DecoyWritten(p);
    assert Decoy(p).name == "a" && |"a"| == 1;
    hide WellWritten;
  }

  lemma NamedWritten(p: string, a: Written)
    requires p != "" && IsNameText(p) && a.name == p + ":b" && '"' !in a.value
    requires a.lead == " " && a.before == "" && a.after == "" && a.quote == '"'
    ensures WellWritten(a)
  {
    assert IsNameText(":b");
    NameJoins(p, ":b");
    hide IsNameText;
  }

  lemma TwoWritten(a: Written, b: Written)
    requires WellWritten(a) && WellWritten(b)
    ensures AllWritten([a, b])
  {
    hide WellWritten;
  }

  lemma TwoAttrs(a: Written, b: Written, unescape: Coding)
    requires DeclOf(a, unescape) == [] && DeclOf(b, unescape) == []
    ensures DeclsOf([a, b], unescape) == []
    ensures AttrsOf([a, b], unescape) == [Attr(NameOf(a.name), unescape(a.value)),
                                          Attr(NameOf(b.name), unescape(b.value))]
  {
    hide DeclOf, NameOf;
    assert [a, b][1..] == [b] && [b][1..] == [];
    assert DeclsOf([], unescape) == [] && AttrsOf([], unescape) == [];
    assert DeclsOf([b], unescape) == [];
    assert AttrsOf([b], unescape) == AttrOf(b, unescape);
  }

  // ---- The extraction as it is written ------------------------------------------------------------

  /** Text is unchanged by an extraction exactly when nothing is declared again: every
      prefix in scope is `xml`, found on the start tag, or not recorded. */
  lemma ReturnedUnchangedIff(element: string, inside: Scope, own: seq<Prefix>, used: seq<Prefix>, escape: Coding)
    requires element != ""
    ensures Splice(element, ExtraText(Extra(inside, own, used), escape)) == element <==>
              forall i :: 0 <= i < |inside| ==> Skipped(inside[i].prefix, own, used)
  {
    var extra := Extra(inside, own, used);
    NothingToDeclareIff(inside, own, used);
    ExtraTextEmptyIff(extra, escape);
    SpliceLength(element, ExtraText(extra, escape));
  }

  lemma ExtraTextEmptyIff(extra: seq<Binding>, escape: Coding)
    ensures ExtraText(extra, escape) == "" <==> extra == []
  {
    if extra != [] {
      var ws := WrittenDecls(extra, escape);
      assert ws[0].lead == " ";
      assert |PrintAttr(ws[0], PrintAttrs(ws[1..], ""))| > 0;
    }
  }

  lemma SpliceLength(element: string, extra: string)
    requires element != ""
    ensures |Splice(element, extra)| == |element| + |extra|
    ensures extra == "" ==> Splice(element, extra) == element
  {
  }

  /** The loop over the namespaces in scope. */
  method BuildExtra(inside: Scope, own: seq<Prefix>, used: seq<Prefix>, escape: Coding) returns (extra: string)
    ensures extra == ExtraText(Extra(inside, own, used), escape)
  {
    extra := "";
    ghost var done: seq<Binding> := [];
    StartsExtra(inside, own, used, escape);
    hide *;
    for i := 0 to |inside|
      invariant Building(done, inside, i, own, used)
      invariant extra == ExtraText(done, escape)
    {
      ExtraStep(done, inside, i, own, used);
      if !Skipped(inside[i].prefix, own, used) {
        ExtraTextGrows(done, inside[i], escape);
        extra := extra + PrintAttr(WrittenDecl(inside[i], escape), "");
        done := done + [inside[i]];
      }
    }
    EndsExtra(done, inside, own, used);
  }

  /** What was built, then what is still to come. */
  ghost predicate Building(done: seq<Binding>, inside: Scope, i: nat, own: seq<Prefix>, used: seq<Prefix>)
    requires i <= |inside|
  {
    done + Extra(inside[i..], own, used) == Extra(inside, own, used)
  }

  lemma StartsExtra(inside: Scope, own: seq<Prefix>, used: seq<Prefix>, escape: Coding)
    ensures Building([], inside, 0, own, used) && ExtraText([], escape) == ""
  {
    assert inside[0..] == inside;
  }

  lemma ExtraStep(done: seq<Binding>, inside: Scope, i: nat, own: seq<Prefix>, used: seq<Prefix>)
    requires i < |inside| && Building(done, inside, i, own, used)
    ensures if Skipped(inside[i].prefix, own, used) then Building(done, inside, i + 1, own, used)
            else Building(done + [inside[i]], inside, i + 1, own, used)
  {
    hide Skipped;
    var now := inside[i..];
    assert now[1..] == inside[i + 1..] && now[0] == inside[i];
    var more := Extra(inside[i + 1..], own, used);
    assert done + ([inside[i]] + more) == done + [inside[i]] + more;
  }

  lemma EndsExtra(done: seq<Binding>, inside: Scope, own: seq<Prefix>, used: seq<Prefix>)
    requires Building(done, inside, |inside|, own, used)
    ensures done == Extra(inside, own, used)
  {
    assert inside[|inside|..] == [];
  }

  /** The text behind the name of the tag. */
  method InsertBehindName(element: string, extra: string) returns (r: string)
    requires element != ""
    ensures r == Splice(element, extra)
  {
    var n := 1;
    while n < |element| && !IsSpace(element[n]) && element[n] != '/' && element[n] != '>'
      invariant 1 <= n <= |element|
      invariant 1 + NameRun(element[1..]) == n + NameRun(element[n..])
    {
      assert element[n..][1..] == element[n + 1..];
      n := n + 1;
    }
    r := element[..n] + extra + element[n..];
  }

  /** `payload_with_inherited_namespaces`: `element` is the text of the payload and
      `payload` what the XML parser made of it. */
  method ExtractPayload(element: string, payload: Node, scope: Scope, escape: Coding) returns (r: string)
    requires payload.Element? && element != ""
    ensures exists own, used ::
              && IsOwn(own, element) && IsUsed(used, payload, scope)
              && r == Splice(element, ExtraText(Extra(Extend(scope, payload.decls), own, used), escape))
  {
    hide *;
    var end := StartTagEnd(element);
    var own := OwnDeclarations(element[..end]);
    OwnIs(own, element);
    var used := CollectUsed(payload, scope);
    var extra := BuildExtra(Extend(scope, payload.decls), own, used, escape);
    SpliceLength(element, extra);
    if extra == "" {
      return element;
    }
    r := InsertBehindName(element, extra);
  }

  lemma OwnIs(own: seq<Prefix>, element: string)
    requires Lists(own, Scan(false, element[..EndFrom(None, element)]))
    ensures IsOwn(own, element)
  {
  }

  lemma {:induction false} ExtraTextGrows(done: seq<Binding>, b: Binding, escape: Coding)
    ensures ExtraText(done + [b], escape) == ExtraText(done, escape) + PrintAttr(WrittenDecl(b, escape), "")
  {
    WrittenDeclsGrow(done, b, escape);
    var ws, w := WrittenDecls(done, escape), WrittenDecl(b, escape);
    hide WrittenDecls, WrittenDecl, PrintAttr;
    PrintAttrsConcat(ws, [w], "");
    assert [w][1..] == [] && PrintAttrs([w], "") == PrintAttr(w, "");
    PrintAttrsJoin(ws, "", PrintAttr(w, ""));
    assert "" + PrintAttr(w, "") == PrintAttr(w, "");
  }

  lemma {:induction false} WrittenDeclsGrow(done: seq<Binding>, b: Binding, escape: Coding)
    ensures WrittenDecls(done + [b], escape) == WrittenDecls(done, escape) + [WrittenDecl(b, escape)]
  {
    if done == [] {
      assert done + [b] == [b] && [b][1..] == [];
    } else {
      WrittenDeclsGrow(done[1..], b, escape);
      assert (done + [b])[1..] == done[1..] + [b] && (done + [b])[0] == done[0];
    }
  }
}
