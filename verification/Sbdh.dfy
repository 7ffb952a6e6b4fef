/** Extraction of the payload from a standard business document (src/sbdh.rs): every
    namespace the payload uses but inherits is declared again on its start tag, so
    that its names keep their meaning when it stands alone. */
module Sbdh {
  import opened Wrappers

  // ---- Documents as written, and what their names mean ------------------------------------

  /** `None` is the default namespace. */
  type Prefix = Option<string>

  datatype Binding = Binding(prefix: Prefix, uri: string)

  /** Namespaces in scope, a node's own declarations first. */
  type Scope = seq<Binding>

  datatype QName = QName(prefix: Prefix, local: string)
  datatype Attr = Attr(name: QName, value: string)

  datatype Node =
    | Element(name: QName, decls: seq<Binding>, attrs: seq<Attr>, children: seq<Node>)
    | Chars(text: string)

  const XML: Prefix := Some("xml")
  const XML_URI := "http://www.w3.org/XML/1998/namespace"

  /** What is in scope outside every document. */
  const BASE: Scope := [Binding(XML, XML_URI)]

  function Lookup(s: Scope, p: Prefix): Option<string>
  {
    if s == [] then None else if s[0].prefix == p then Some(s[0].uri) else Lookup(s[1..], p)
  }

  predicate Declares(decls: seq<Binding>, p: Prefix)
  {
    exists i :: 0 <= i < |decls| && decls[i].prefix == p
  }

  /** The bindings of a scope that the declarations leave alone. */
  function Inherited(s: Scope, decls: seq<Binding>): Scope
  {
    if s == [] then []
    else (if Declares(decls, s[0].prefix) then [] else [s[0]]) + Inherited(s[1..], decls)
  }

  function Extend(s: Scope, decls: seq<Binding>): Scope
  {
    decls + Inherited(s, decls)
  }

  /** A tree whose names are resolved: a namespace, or none. */
  datatype Resolved =
    | Item(ns: Option<string>, local: string, attrs: seq<ResolvedAttr>, children: seq<Resolved>)
    | Content(text: string)

  datatype ResolvedAttr = ResolvedAttr(ns: Option<string>, local: string, value: string)

  /** An attribute without a prefix is in no namespace. */
  function AttrNs(a: Attr, s: Scope): Option<string>
  {
    if a.name.prefix.None? then None else Lookup(s, a.name.prefix)
  }

  function AttrMeanings(attrs: seq<Attr>, s: Scope): (r: seq<ResolvedAttr>)
    ensures |r| == |attrs|
    ensures forall i :: 0 <= i < |attrs| ==> r[i] == ResolvedAttr(AttrNs(attrs[i], s), attrs[i].name.local,
                                                                  attrs[i].value)
  {
    seq(|attrs|, i requires 0 <= i < |attrs| => ResolvedAttr(AttrNs(attrs[i], s), attrs[i].name.local, attrs[i].value))
  }

  /** The meaning of a node in the scope of its parent. */
  function Meaning(n: Node, s: Scope): Resolved
    decreases n, 1
  {
    if n.Chars? then Content(n.text) else MeaningIn(n, Extend(s, n.decls))
  }

  /** The meaning of an element in its own scope. */
  function MeaningIn(n: Node, s: Scope): Resolved
    requires n.Element?
    decreases n, 0
  {
    Item(Lookup(s, n.name.prefix), n.name.local, AttrMeanings(n.attrs, s), Meanings(n.children, s))
  }

  function Meanings(ns: seq<Node>, s: Scope): (r: seq<Resolved>)
    ensures |r| == |ns|
    decreases ns, 2
  {
    if ns == [] then [] else [Meaning(ns[0], s)] + Meanings(ns[1..], s)
  }

  // ---- The prefixes a meaning rests on ---------------------------------------------------------

  /** The prefixes of an element's own names. */
  ghost predicate Names(n: Node, p: Prefix)
  {
    n.Element? && (n.name.prefix == p || (p.Some? && exists i :: 0 <= i < |n.attrs| && n.attrs[i].name.prefix == p))
  }

  /** Used in a node and not declared there: its meaning is inherited. */
  ghost predicate Free(n: Node, p: Prefix)
    decreases n, 1
  {
    n.Element? && !Declares(n.decls, p) && Exposed(n, p)
  }

  ghost predicate Exposed(n: Node, p: Prefix)
    decreases n, 0
  {
    n.Element? && (Names(n, p) || FreeBelow(n.children, p))
  }

  ghost predicate FreeBelow(ns: seq<Node>, p: Prefix)
    decreases ns, 2
  {
    ns != [] && (Free(ns[0], p) || FreeBelow(ns[1..], p))
  }

  lemma {:induction false} LookupInherited(s: Scope, decls: seq<Binding>, p: Prefix)
    ensures Lookup(Inherited(s, decls), p) == if Declares(decls, p) then None else Lookup(s, p)
  {
    if s != [] {
      LookupInherited(s[1..], decls, p);
      var rest := Inherited(s[1..], decls);
      assert ([s[0]] + rest)[1..] == rest;
      assert [] + rest == rest;
    }
  }

  lemma {:induction false} LookupJoin(a: Scope, b: Scope, p: Prefix)
    ensures Lookup(a + b, p) == if Declares(a, p) then Lookup(a, p) else Lookup(b, p)
  {
    if a == [] {
      assert a + b == b;
    } else {
      LookupJoin(a[1..], b, p);
      assert (a + b)[1..] == a[1..] + b;
      assert Declares(a, p) <==> a[0].prefix == p || Declares(a[1..], p) by {
        if Declares(a, p) && a[0].prefix != p {
          var i :| 0 <= i < |a| && a[i].prefix == p;
          assert a[1..][i - 1].prefix == p;
        }
        if Declares(a[1..], p) {
          var i :| 0 <= i < |a[1..]| && a[1..][i].prefix == p;
          assert a[i + 1].prefix == p;
        }
      }
    }
  }

  /** A declaration hides what the scope says of its prefix, and of no other. */
  lemma LookupExtend(s: Scope, decls: seq<Binding>, p: Prefix)
    ensures Lookup(Extend(s, decls), p) == if Declares(decls, p) then Lookup(decls, p) else Lookup(s, p)
  {
    LookupJoin(decls, Inherited(s, decls), p);
    LookupInherited(s, decls, p);
  }

  ghost predicate AgreeOn(s: Scope, t: Scope, n: Node)
    requires n.Element?
  {
    forall p :: Exposed(n, p) ==> Lookup(s, p) == Lookup(t, p)
  }

  ghost predicate AgreeOnFree(s: Scope, t: Scope, n: Node)
  {
    forall p :: Free(n, p) ==> Lookup(s, p) == Lookup(t, p)
  }

  ghost predicate AgreeBelow(s: Scope, t: Scope, ns: seq<Node>)
  {
    forall p :: FreeBelow(ns, p) ==> Lookup(s, p) == Lookup(t, p)
  }

  ghost predicate AgreeOnNames(s: Scope, t: Scope, n: Node)
  {
    forall p :: Names(n, p) ==> Lookup(s, p) == Lookup(t, p)
  }

  lemma ExtendAgrees(n: Node, s: Scope, t: Scope)
    requires n.Element?
    ensures AgreeOn(Extend(s, n.decls), Extend(t, n.decls), n)
       <==> AgreeOnFree(s, t, n)
  {
    var s', t' := Extend(s, n.decls), Extend(t, n.decls);
    hide Lookup, Extend, FreeBelow, Names;
    if AgreeOn(s', t', n) {
      forall p | Free(n, p) ensures Lookup(s, p) == Lookup(t, p) {
        assert Exposed(n, p);
        LookupExtend(s, n.decls, p);
        LookupExtend(t, n.decls, p);
      }
    }
    if AgreeOnFree(s, t, n) {
      forall p | Exposed(n, p) ensures Lookup(s', p) == Lookup(t', p) {
        LookupExtend(s, n.decls, p);
        LookupExtend(t, n.decls, p);
        assert Declares(n.decls, p) || Free(n, p);
      }
    }
  }

  /** Two scopes give a tree the same meaning exactly when they agree on the prefixes
      it leaves free. */
  lemma {:induction false} SameMeaningIff(n: Node, s: Scope, t: Scope)
    ensures Meaning(n, s) == Meaning(n, t) <==> AgreeOnFree(s, t, n)
    decreases n, 1
  {
    if n.Element? {
      SameMeaningInIff(n, Extend(s, n.decls), Extend(t, n.decls));
      ExtendAgrees(n, s, t);
      hide Lookup, Extend, MeaningIn, AgreeOn, AgreeOnFree;
    }
  }

  lemma {:induction false} SameMeaningInIff(n: Node, s: Scope, t: Scope)
    requires n.Element?
    ensures MeaningIn(n, s) == MeaningIn(n, t) <==> AgreeOn(s, t, n)
    decreases n, 0
  {
    SameMeaningsIff(n.children, s, t);
    SameNamesIff(n, s, t);
    AgreeOnParts(n, s, t);
    hide Meanings, Lookup, AttrMeanings, AgreeOn, AgreeOnNames, AgreeBelow;
  }

  lemma AgreeOnParts(n: Node, s: Scope, t: Scope)
    requires n.Element?
    ensures AgreeOn(s, t, n) <==> AgreeOnNames(s, t, n) && AgreeBelow(s, t, n.children)
  {
    hide Names, FreeBelow, Lookup;
    if AgreeOn(s, t, n) {
      assert forall p :: Names(n, p) ==> Exposed(n, p);
      assert forall p :: FreeBelow(n.children, p) ==> Exposed(n, p);
    }
  }

  lemma SameNamesIff(n: Node, s: Scope, t: Scope)
    requires n.Element?
    ensures (Lookup(s, n.name.prefix) == Lookup(t, n.name.prefix) && AttrMeanings(n.attrs, s) == AttrMeanings(n.attrs,
                                                                                                              t))
       <==> AgreeOnNames(s, t, n)
  {
    hide Lookup;
    if AttrMeanings(n.attrs, s) == AttrMeanings(n.attrs, t) {
      forall i | 0 <= i < |n.attrs| ensures AttrNs(n.attrs[i], s) == AttrNs(n.attrs[i], t) {
        assert AttrMeanings(n.attrs, s)[i] == AttrMeanings(n.attrs, t)[i];
      }
    }
    if AgreeOnNames(s, t, n) {
      assert Names(n, n.name.prefix);
      forall i | 0 <= i < |n.attrs| ensures AttrNs(n.attrs[i], s) == AttrNs(n.attrs[i], t) {
        assert n.attrs[i].name.prefix.Some? ==> Names(n, n.attrs[i].name.prefix);
      }
    }
  }

  lemma {:induction false} SameMeaningsIff(ns: seq<Node>, s: Scope, t: Scope)
    ensures Meanings(ns, s) == Meanings(ns, t) <==> AgreeBelow(s, t, ns)
    decreases ns, 2
  {
    if ns != [] {
      SameMeaningIff(ns[0], s, t);
      SameMeaningsIff(ns[1..], s, t);
      AgreeBelowParts(ns, s, t);
      hide Meaning, AgreeBelow, AgreeOnFree;
      var a, b := Meanings(ns, s), Meanings(ns, t);
      assert a[1..] == Meanings(ns[1..], s) && b[1..] == Meanings(ns[1..], t);
    }
  }

  lemma AgreeBelowParts(ns: seq<Node>, s: Scope, t: Scope)
    requires ns != []
    ensures AgreeBelow(s, t, ns) <==> AgreeOnFree(s, t, ns[0]) && AgreeBelow(s, t, ns[1..])
  {
    hide Lookup, Free;
    if AgreeBelow(s, t, ns) {
      assert forall p :: Free(ns[0], p) ==> FreeBelow(ns, p);
      assert forall p :: FreeBelow(ns[1..], p) ==> FreeBelow(ns, p);
    }
  }

  // ---- The extraction ---------------------------------------------------------------------------

  /** `lookup_prefix`: the first prefix in scope for a namespace. */
  function PrefixFor(s: Scope, uri: string): Prefix
  {
    if uri == XML_URI then XML else FirstFor(s, uri)
  }

  function FirstFor(s: Scope, uri: string): Prefix
  {
    if s == [] then None else if s[0].uri == uri then s[0].prefix else FirstFor(s[1..], uri)
  }

  /** The prefixes recorded for one element: its own as written, and for each
      namespaced attribute the first in scope for its namespace. */
  ghost predicate Records(n: Node, s: Scope, p: Prefix)
    requires n.Element?
  {
    || n.name.prefix == p
    || (p.Some? && exists i :: 0 <= i < |n.attrs| && RecordsAttr(n.attrs[i], s, p))
  }

  predicate RecordsAttr(a: Attr, s: Scope, p: Prefix)
  {
    AttrNs(a, s).Some? && PrefixFor(s, AttrNs(a, s).value) == p
  }

  /** The prefixes recorded for a node and everything below it. */
  ghost predicate Used(n: Node, s: Scope, p: Prefix)
    decreases n, 1
  {
    n.Element? && UsedIn(n, Extend(s, n.decls), p)
  }

  ghost predicate UsedIn(n: Node, s: Scope, p: Prefix)
    decreases n, 0
  {
    n.Element? && (Records(n, s, p) || UsedBelow(n.children, s, p))
  }

  ghost predicate UsedBelow(ns: seq<Node>, s: Scope, p: Prefix)
    decreases ns, 2
  {
    ns != [] && (Used(ns[0], s, p) || UsedBelow(ns[1..], s, p))
  }

  predicate Skipped(p: Prefix, own: seq<Prefix>, used: seq<Prefix>)
  {
    p == XML || p in own || p !in used
  }

  /** The bindings in scope to declare again: used, not found on the start tag and
      not `xml`. */
  function Extra(scope: Scope, own: seq<Prefix>, used: seq<Prefix>): seq<Binding>
  {
    if scope == [] then []
    else if Skipped(scope[0].prefix, own, used) then Extra(scope[1..], own, used)
    else [scope[0]] + Extra(scope[1..], own, used)
  }

  /** The payload with these declarations added to its start tag. */
  function Redeclared(payload: Node, extra: seq<Binding>): Node
    requires payload.Element?
  {
    payload.(decls := extra + payload.decls)
  }

  /** The recorded prefixes, each once. */
  ghost predicate IsUsed(used: seq<Prefix>, payload: Node, scope: Scope)
  {
    forall p :: p in used <==> Used(payload, scope, p)
  }

  lemma {:induction false} LookupExtra(scope: Scope, own: seq<Prefix>, used: seq<Prefix>, p: Prefix)
    ensures Lookup(Extra(scope, own, used), p)
         == if Skipped(p, own, used) then None else Lookup(scope, p)
    ensures Declares(Extra(scope, own, used), p) <==> Lookup(Extra(scope, own, used), p).Some?
  {
    DeclaresIffBound(Extra(scope, own, used), p);
    if scope != [] {
      LookupExtra(scope[1..], own, used, p);
      var rest := Extra(scope[1..], own, used);
      assert ([scope[0]] + rest)[1..] == rest;
    }
  }

  lemma {:induction false} DeclaresIffBound(s: Scope, p: Prefix)
    ensures Declares(s, p) <==> Lookup(s, p).Some?
  {
    LookupJoin(s, [], p);
    assert s + [] == s;
    if s != [] && s[0].prefix != p {
      DeclaresIffBound(s[1..], p);
      if Declares(s[1..], p) {
        var i :| 0 <= i < |s[1..]| && s[1..][i].prefix == p;
        assert s[i + 1].prefix == p;
      }
    }
  }

  /** What the re-declared payload's own scope says when it stands alone. */
  lemma AloneScope(payload: Node, scope: Scope, own: seq<Prefix>, used: seq<Prefix>, p: Prefix)
    requires payload.Element? && forall q :: Declares(payload.decls, q) ==> q in own
    requires Lookup(scope, XML) == Some(XML_URI)
    ensures var extra := Extra(Extend(scope, payload.decls), own, used);
            var alone := Extend(BASE, extra + payload.decls);
            Lookup(alone, p) == Lookup(Extend(scope, payload.decls), p) <==>
              || Declares(payload.decls, p) || p == XML || Lookup(scope, p).None?
              || (p in used && p !in own)
  {
    var inside := Extend(scope, payload.decls);
    var extra := Extra(inside, own, used);
    LookupExtend(BASE, extra + payload.decls, p);
    LookupJoin(extra, payload.decls, p);
    LookupExtend(scope, payload.decls, p);
    LookupExtra(inside, own, used, p);
    DeclaresJoin(extra, payload.decls, p);
    DeclaresIffBound(payload.decls, p);
    assert Lookup(BASE, p) == if p == XML then Some(XML_URI) else None;
    hide Extend, Extra, Lookup, Declares;
  }

  lemma DeclaresJoin(a: seq<Binding>, b: seq<Binding>, p: Prefix)
    ensures Declares(a + b, p) <==> Declares(a, p) || Declares(b, p)
  {
    if Declares(b, p) {
      var i :| 0 <= i < |b| && b[i].prefix == p;
      assert (a + b)[|a| + i].prefix == p;
    }
    if Declares(a, p) {
      var i :| 0 <= i < |a| && a[i].prefix == p;
      assert (a + b)[i].prefix == p;
    }
  }

  /** The extracted payload means what it meant in its envelope exactly when every
      prefix it leaves free and the envelope binds was recorded as used and was not
      taken for one of its own declarations. */
  lemma ExtractionPreservesMeaningIff(payload: Node, scope: Scope, own: seq<Prefix>, used: seq<Prefix>)
    requires payload.Element? && forall q :: Declares(payload.decls, q) ==> q in own
    requires Lookup(scope, XML) == Some(XML_URI)
    ensures var extra := Extra(Extend(scope, payload.decls), own, used);
            Meaning(Redeclared(payload, extra), BASE) == Meaning(payload, scope) <==>
              forall p :: Free(payload, p) && p != XML && Lookup(scope, p).Some? ==> p in used && p !in own
  {
    var inside := Extend(scope, payload.decls);
    var extra := Extra(inside, own, used);
    var alone := Extend(BASE, extra + payload.decls);
    assert Meaning(Redeclared(payload, extra), BASE) == MeaningIn(payload, alone) by {
      assert Meanings(Redeclared(payload, extra).children, alone) == Meanings(payload.children, alone);
    }
    SameMeaningInIff(payload, alone, inside);
    forall p | Exposed(payload, p)
      ensures Lookup(alone, p) == Lookup(inside, p)
         <==> (Free(payload, p) && p != XML && Lookup(scope, p).Some? ==> p in used && p !in own)
    {
      AloneScope(payload, scope, own, used, p);
    }
    hide Lookup, Extend, Extra, Meanings;
    if AgreeOn(alone, inside, payload) {
      assert forall p :: Free(payload, p) ==> Exposed(payload, p);
    } else {
      var p :| Exposed(payload, p) && Lookup(alone, p) != Lookup(inside, p);
    }
  }

  // ---- When every used prefix is recorded ------------------------------------------------------

  /** In every element's scope each prefix of an attribute is bound, and its namespace
      to this prefix only. */
  ghost predicate PlainlyBound(n: Node, s: Scope)
    decreases n, 1
  {
    n.Element? ==> PlainlyBoundIn(n, Extend(s, n.decls))
  }

  ghost predicate PlainlyBoundIn(n: Node, s: Scope)
    requires n.Element?
    decreases n, 0
  {
    && (forall i :: 0 <= i < |n.attrs| ==> OnlyPrefix(n.attrs[i].name.prefix, s))
    && PlainlyBoundBelow(n.children, s)
  }

  ghost predicate PlainlyBoundBelow(ns: seq<Node>, s: Scope)
    decreases ns, 2
  {
    ns == [] || (PlainlyBound(ns[0], s) && PlainlyBoundBelow(ns[1..], s))
  }

  /** No other prefix in scope has the same namespace, `xml` and its namespace apart. */
  ghost predicate OnlyPrefix(p: Prefix, s: Scope)
  {
    p.Some? && p != XML ==>
      && Lookup(s, p).Some? && Lookup(s, p).value != XML_URI
      && forall i :: 0 <= i < |s| && s[i].uri == Lookup(s, p).value ==> s[i].prefix == p
  }

  lemma {:induction false} FirstForOnly(s: Scope, uri: string, p: Prefix)
    requires Lookup(s, p) == Some(uri) && forall i :: 0 <= i < |s| && s[i].uri == uri ==> s[i].prefix == p
    ensures FirstFor(s, uri) == p
  {
    if s[0].uri != uri {
      FirstForOnly(s[1..], uri, p);
    }
  }

  /** Then every prefix the payload leaves free is recorded, `xml` apart. */
  lemma {:induction false} FreeIsUsed(n: Node, s: Scope, p: Prefix)
    requires PlainlyBound(n, s) && p != XML && Free(n, p)
    ensures Used(n, s, p)
    decreases n, 1
  {
    ExposedIsUsed(n, Extend(s, n.decls), p);
  }

  lemma {:induction false} ExposedIsUsed(n: Node, s: Scope, p: Prefix)
    requires n.Element? && PlainlyBoundIn(n, s) && p != XML && Exposed(n, p)
    ensures UsedIn(n, s, p)
    decreases n, 0
  {
    if FreeBelow(n.children, p) {
      FreeBelowIsUsed(n.children, s, p);
    } else if n.name.prefix != p {
      var i :| 0 <= i < |n.attrs| && n.attrs[i].name.prefix == p;
      assert OnlyPrefix(p, s);
      FirstForOnly(s, Lookup(s, p).value, p);
      assert RecordsAttr(n.attrs[i], s, p);
    }
  }

  lemma {:induction false} FreeBelowIsUsed(ns: seq<Node>, s: Scope, p: Prefix)
    requires PlainlyBoundBelow(ns, s) && p != XML && FreeBelow(ns, p)
    ensures UsedBelow(ns, s, p)
    decreases ns, 2
  {
    if Free(ns[0], p) { FreeIsUsed(ns[0], s, p); } else { FreeBelowIsUsed(ns[1..], s, p); }
  }

  /** Payload extraction preserves meaning: where no namespace has two prefixes in
      scope and the start-tag scan finds exactly the declared prefixes, every element
      and attribute name resolves as it did inside the envelope. */
  lemma ExtractionPreservesMeaning(payload: Node, scope: Scope, own: seq<Prefix>, used: seq<Prefix>)
    requires payload.Element? && Lookup(scope, XML) == Some(XML_URI)
    requires PlainlyBound(payload, scope)
    requires forall q :: q in own <==> Declares(payload.decls, q)
    requires IsUsed(used, payload, scope)
    ensures Meaning(Redeclared(payload, Extra(Extend(scope, payload.decls), own, used)), BASE) == Meaning(payload,
                                                                                                          scope)
  {
    ExtractionPreservesMeaningIff(payload, scope, own, used);
    forall p | Free(payload, p) && p != XML ensures p in used {
      FreeIsUsed(payload, scope, p);
    }
  }

  /** Nothing is declared again exactly when every prefix in scope is `xml`, found on
      the start tag, or not recorded. */
  lemma {:induction false} NothingToDeclareIff(scope: Scope, own: seq<Prefix>, used: seq<Prefix>)
    ensures Extra(scope, own, used) == [] <==>
              forall i :: 0 <= i < |scope| ==> Skipped(scope[i].prefix, own, used)
  {
    if scope != [] {
      NothingToDeclareIff(scope[1..], own, used);
      if forall i :: 0 <= i < |scope[1..]| ==> Skipped(scope[1..][i].prefix, own, used) {
        forall i | 1 <= i < |scope| ensures Skipped(scope[i].prefix, own, used) {
          assert scope[i] == scope[1..][i - 1];
        }
      }
    }
  }

  /** A payload that depends on nothing outside can still be changed: here an inner
      element declares the default namespace it uses, the record of used prefixes does
      not see that, and the envelope's default namespace is declared on the payload. */
  lemma SelfContainedIsChanged(u: string, v: string, e: string, used: seq<Prefix>)
    requires var inner := Element(QName(None, "y"), [Binding(None, v)], [], []);
             var payload := Element(QName(Some("p"), "x"), [Binding(Some("p"), u)], [], [inner]);
             IsUsed(used, payload, [Binding(None, e)] + BASE)
    ensures var inner := Element(QName(None, "y"), [Binding(None, v)], [], []);
            var payload := Element(QName(Some("p"), "x"), [Binding(Some("p"), u)], [], [inner]);
            && (forall p :: !Free(payload, p))
            && Extra(Extend([Binding(None, e)] + BASE, payload.decls), [Some("p")], used) != []
  {
    var inner := Element(QName(None, "y"), [Binding(None, v)], [], []);
    var payload := Element(QName(Some("p"), "x"), [Binding(Some("p"), u)], [], [inner]);
    var scope: Scope := [Binding(None, e)] + BASE;
    assert [inner][1..] == [];
    assert inner.decls[0].prefix == None && payload.decls[0].prefix == Some("p");
    forall p ensures !Free(payload, p) {
      assert Declares(inner.decls, None) && Declares(payload.decls, Some("p"));
      assert !FreeBelow(inner.children, p) && (Names(inner, p) ==> p == None);
      assert !Free(inner, p);
      assert !FreeBelow([inner], p) by { assert !FreeBelow([inner][1..], p); }
    }
    var inside := Extend(scope, payload.decls);
    assert Records(inner, Extend(inside, inner.decls), None);
    assert Used(inner, inside, None) && UsedBelow([inner], inside, None);
    assert payload.children == [inner] && UsedIn(payload, inside, None);
    assert Used(payload, scope, None);
    assert !Declares(payload.decls, None) && scope[0] == Binding(None, e);
    assert inside[1] == Binding(None, e);
    NothingToDeclareIff(inside, [Some("p")], used);
    assert !Skipped(inside[1].prefix, [Some("p")], used);
  }

  /** Extracting again changes nothing. */
  lemma ExtractionIsIdempotent(payload: Node, scope: Scope, own: seq<Prefix>, used: seq<Prefix>,
                               own': seq<Prefix>, used': seq<Prefix>)
    requires payload.Element?
    requires var once := Redeclared(payload, Extra(Extend(scope, payload.decls), own, used));
             forall q :: Declares(once.decls, q) ==> q in own'
    ensures var once := Redeclared(payload, Extra(Extend(scope, payload.decls), own, used));
            Redeclared(once, Extra(Extend(BASE, once.decls), own', used')) == once
  {
    var once := Redeclared(payload, Extra(Extend(scope, payload.decls), own, used));
    AloneSkips(once.decls, own', used');
    NothingToDeclareIff(Extend(BASE, once.decls), own', used');
    assert [] + once.decls == once.decls;
  }

  /** On its own, everything in scope of an element is `xml` or on its start tag. */
  lemma AloneSkips(decls: seq<Binding>, own: seq<Prefix>, used: seq<Prefix>)
    requires forall q :: Declares(decls, q) ==> q in own
    ensures forall i :: 0 <= i < |Extend(BASE, decls)| ==> Skipped(Extend(BASE, decls)[i].prefix, own, used)
  {
    var alone := Extend(BASE, decls);
    forall i | 0 <= i < |alone| ensures Skipped(alone[i].prefix, own, used) {
      if i < |decls| {
        assert Declares(decls, alone[i].prefix);
      } else {
        assert alone[i] in Inherited(BASE, decls);
      }
    }
  }

  /** With two prefixes for one namespace it can fail: the attribute's prefix is not
      the first in scope, is not recorded, and is unbound in the extracted payload. */
  lemma TwoPrefixesLoseMeaning(u: string, used: seq<Prefix>)
    requires u != XML_URI
    requires var payload := Element(QName(None, "x"), [], [Attr(QName(Some("p"), "a"), "v")], []);
             IsUsed(used, payload, [Binding(None, u), Binding(Some("p"), u)] + BASE)
    ensures var payload := Element(QName(None, "x"), [], [Attr(QName(Some("p"), "a"), "v")], []);
            var scope := [Binding(None, u), Binding(Some("p"), u)] + BASE;
            Meaning(Redeclared(payload, Extra(Extend(scope, []), [], used)), BASE) != Meaning(payload, scope)
  {
    var p: Prefix := Some("p");
    var payload := Element(QName(None, "x"), [], [Attr(QName(p, "a"), "v")], []);
    var scope: Scope := [Binding(None, u), Binding(p, u)] + BASE;
    assert |"p"| != |"xml"|;
    assert scope[1..][1..] == BASE && scope[1..][0] == Binding(p, u);
    assert Lookup(scope[1..], p) == Some(u) && Lookup(scope, p) == Some(u);
    var two: Scope := [Binding(None, u), Binding(p, u)];
    LookupJoin(two, BASE, XML);
    assert !Declares(two, XML) && Lookup(BASE, XML) == Some(XML_URI);
    LookupExtend(scope, [], p);
    assert Extend(scope, [])[0] == Binding(None, u) by {
      assert Inherited(scope, [])[0] == scope[0];
    }
    assert payload.attrs[0].name.prefix == p && Names(payload, p) && Free(payload, p);
    assert !Used(payload, scope, p);
    ExtractionPreservesMeaningIff(payload, scope, [], used);
  }

  // ---- The loops of the extraction -----------------------------------------------------------------

  /** The elements of a subtree in document order, each with its scope. */
  function Elements(n: Node, s: Scope): (r: seq<(Node, Scope)>)
    ensures forall i :: 0 <= i < |r| ==> r[i].0.Element?
    decreases n, 0
  {
    if n.Chars? then []
    else [(n, Extend(s, n.decls))] + ElementsBelow(n.children, Extend(s, n.decls))
  }

  function ElementsBelow(ns: seq<Node>, s: Scope): (r: seq<(Node, Scope)>)
    ensures forall i :: 0 <= i < |r| ==> r[i].0.Element?
    decreases ns, 1
  {
    if ns == [] then [] else Elements(ns[0], s) + ElementsBelow(ns[1..], s)
  }

  ghost predicate RecordedIn(es: seq<(Node, Scope)>, p: Prefix)
    requires forall i :: 0 <= i < |es| ==> es[i].0.Element?
  {
    exists i :: 0 <= i < |es| && Records(es[i].0, es[i].1, p)
  }

  lemma RecordedJoin(a: seq<(Node, Scope)>, b: seq<(Node, Scope)>, p: Prefix)
    requires (forall i :: 0 <= i < |a| ==> a[i].0.Element?) && forall i :: 0 <= i < |b| ==> b[i].0.Element?
    ensures forall i :: 0 <= i < |a + b| ==> (a + b)[i].0.Element?
    ensures RecordedIn(a + b, p) <==> RecordedIn(a, p) || RecordedIn(b, p)
  {
    hide Records;
    if RecordedIn(b, p) {
      var i :| 0 <= i < |b| && Records(b[i].0, b[i].1, p);
      assert Records((a + b)[|a| + i].0, (a + b)[|a| + i].1, p);
    }
    if RecordedIn(a, p) {
      var i :| 0 <= i < |a| && Records(a[i].0, a[i].1, p);
      assert Records((a + b)[i].0, (a + b)[i].1, p);
    }
  }

  lemma {:induction false} UsedIsRecorded(n: Node, s: Scope, p: Prefix)
    ensures Used(n, s, p) <==> RecordedIn(Elements(n, s), p)
    decreases n, 0
  {
    if n.Element? {
      var s' := Extend(s, n.decls);
      UsedBelowIsRecorded(n.children, s', p);
      RecordedJoin([(n, s')], ElementsBelow(n.children, s'), p);
      assert RecordedIn([(n, s')], p) <==> Records(n, s', p) by {
        hide Records;
        assert [(n, s')][0] == (n, s');
      }
    }
  }

  lemma {:induction false} UsedBelowIsRecorded(ns: seq<Node>, s: Scope, p: Prefix)
    ensures UsedBelow(ns, s, p) <==> RecordedIn(ElementsBelow(ns, s), p)
    decreases ns, 1
  {
    if ns != [] {
      UsedIsRecorded(ns[0], s, p);
      UsedBelowIsRecorded(ns[1..], s, p);
      RecordedJoin(Elements(ns[0], s), ElementsBelow(ns[1..], s), p);
    }
  }

  /** One element: its prefix, then those of its namespaced attributes. */
  method RecordElement(used: seq<Prefix>, n: Node, s: Scope) returns (r: seq<Prefix>)
    requires n.Element?
    ensures forall p :: p in r <==> p in used || Records(n, s, p)
  {
    r := used;
    if n.name.prefix !in r { r := r + [n.name.prefix]; }
    for i := 0 to |n.attrs|
      invariant forall p :: p in r <==>
                  || p in used || n.name.prefix == p
                  || (p.Some? && exists j :: 0 <= j < i && RecordsAttr(n.attrs[j], s, p))
    {
      var ns := AttrNs(n.attrs[i], s);
      if ns.Some? {
        var prefix := PrefixFor(s, ns.value);
        assert RecordsAttr(n.attrs[i], s, prefix);
        if prefix.Some? && prefix !in r { r := r + [prefix]; }
      }
    }
  }

  /** The first loop: the prefixes the payload uses. */
  method CollectUsed(payload: Node, scope: Scope) returns (used: seq<Prefix>)
    ensures IsUsed(used, payload, scope)
  {
    var es := Elements(payload, scope);
    used := [];
    hide Records;
    for i := 0 to |es|
      invariant forall p :: p in used <==> RecordedIn(es[..i], p)
    {
      ghost var before := used;
      used := RecordElement(used, es[i].0, es[i].1);
      forall p ensures p in used <==> RecordedIn(es[..i + 1], p) {
        RecordedOneMore(es, i, p);
      }
    }
    assert es[..|es|] == es;
    forall p ensures p in used <==> Used(payload, scope, p) { UsedIsRecorded(payload, scope, p); }
  }

  lemma RecordedOneMore(es: seq<(Node, Scope)>, i: nat, p: Prefix)
    requires i < |es| && forall j :: 0 <= j < |es| ==> es[j].0.Element?
    ensures RecordedIn(es[..i + 1], p) <==> RecordedIn(es[..i], p) || Records(es[i].0, es[i].1, p)
  {
    hide Records;
    assert es[..i + 1] == es[..i] + [es[i]];
    RecordedJoin(es[..i], [es[i]], p);
    assert [es[i]][0] == es[i];
  }
}
