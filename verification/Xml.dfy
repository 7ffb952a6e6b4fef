/** Namespace-resolved XML trees, as the parsed document offers them: attributes
    are unordered, prefixes are resolved, comments are gone. */
module Xml {
  import opened Wrappers
  import opened Text

  /** The namespaces the protocol names, by their role; any other by its URI. */
  datatype Namespace =
    | Absent
    | Ebms3        // http://docs.oasis-open.org/ebxml-msg/ebms/v3.0/ns/core/200704/
    | EbbpSignals  // http://docs.oasis-open.org/ebxml-bp/ebbp-signals-2.0
    | XmlDsig      // http://www.w3.org/2000/09/xmldsig#
    | WsUtility    // oasis-200401-wss-wssecurity-utility-1.0.xsd
    | XmlItself    // http://www.w3.org/XML/1998/namespace
    | Other(uri: string)

  datatype Name = Name(ns: Namespace, local: string)

  datatype Node =
    | Element(name: Name, attrs: map<Name, string>, children: seq<Node>)
    | Chars(text: string)

  predicate IsElement(n: Node, name: Name)
  {
    n.Element? && n.name == name
  }

  /** The node and everything below it, in document order. */
  function Descendants(n: Node): seq<Node>
    decreases n, 0
  {
    [n] + if n.Element? then Below(n.children) else []
  }

  function Below(ns: seq<Node>): seq<Node>
    decreases ns, 1
  {
    if ns == [] then [] else Descendants(ns[0]) + Below(ns[1..])
  }

  /** The elements of one name, in order. */
  function Select(ns: seq<Node>, name: Name): (r: seq<Node>)
    ensures forall n :: n in r <==> n in ns && IsElement(n, name)
  {
    if ns == [] then []
    else (if IsElement(ns[0], name) then [ns[0]] else []) + Select(ns[1..], name)
  }

  function Find(ns: seq<Node>, name: Name): Option<Node>
  {
    if ns == [] then None else if IsElement(ns[0], name) then Some(ns[0]) else Find(ns[1..], name)
  }

  function Characters(ns: seq<Node>): string
  {
    if ns == [] then ""
    else (if ns[0].Chars? then ns[0].text else "") + Characters(ns[1..])
  }

  function NonEmpty(s: string): Option<string>
  {
    if s == "" then None else Some(s)
  }

  /** `element_text`: all text inside, trimmed. */
  function ElementText(n: Node): Option<string>
  {
    NonEmpty(Trim(Characters(Descendants(n))))
  }

  function Attribute(n: Node, name: Name): Option<string>
  {
    if n.Element? && name in n.attrs then Some(n.attrs[name]) else None
  }

  /** `signal_attribute`: an unprefixed attribute, trimmed. */
  function PlainAttribute(n: Node, local: string): Option<string>
  {
    match Attribute(n, Name(Absent, local))
    case Some(v) => NonEmpty(Trim(v))
    case None => None
  }

  // ---- Ancestors -------------------------------------------------------------

  /** For every node of a tree, in document order, the node, its parent, and so on
      up to the root, followed by `above`. */
  function Lines(n: Node, above: seq<Node>): seq<seq<Node>>
    decreases n, 0
  {
    [[n] + above] + if n.Element? then LinesBelow(n.children, [n] + above) else []
  }

  function LinesBelow(ns: seq<Node>, above: seq<Node>): seq<seq<Node>>
    decreases ns, 1
  {
    if ns == [] then [] else Lines(ns[0], above) + LinesBelow(ns[1..], above)
  }

  lemma {:induction false} SelfDescends(n: Node)
    ensures n in Descendants(n)
  {
    assert Descendants(n)[0] == n;
  }

  lemma {:induction false} ChildBelow(ns: seq<Node>, c: Node, x: Node)
    requires c in ns && x in Descendants(c)
    ensures x in Below(ns)
    decreases |ns|
  {
    if ns[0] != c {
      ChildBelow(ns[1..], c, x);
    }
  }

  lemma {:induction false} BelowChild(ns: seq<Node>, x: Node) returns (c: Node)
    requires x in Below(ns)
    ensures c in ns && x in Descendants(c)
    decreases |ns|
  {
    if x in Descendants(ns[0]) {
      c := ns[0];
    } else {
      c := BelowChild(ns[1..], x);
    }
  }

  /** What is inside a part is inside the whole. */
  lemma {:induction false} DescendsThrough(n: Node, m: Node, x: Node)
    requires m in Descendants(n) && x in Descendants(m)
    ensures x in Descendants(n)
    decreases n
  {
    if m != n {
      var c := BelowChild(n.children, m);
      DescendsThrough(c, m, x);
      ChildBelow(n.children, c, x);
    }
  }

  /** Every ancestor on a line is in the tree and contains the line's node. */
  lemma {:induction false} LineContains(n: Node, above: seq<Node>, line: seq<Node>, j: nat)
    requires line in Lines(n, above) && j < |line|
    ensures |line| > |above|
    ensures j < |line| - |above| ==> line[j] in Descendants(n) && line[0] in Descendants(line[j])
    ensures line[|line| - |above|..] == above && line[|line| - |above| - 1] == n
    decreases n, 0
  {
    SelfDescends(n);
    if line == [n] + above {
      SelfDescends(line[0]);
    } else {
      LineBelowContains(n.children, [n] + above, line, n, above, j);
    }
  }

  lemma {:induction false} LineBelowContains(ns: seq<Node>, over: seq<Node>, line: seq<Node>,
                                             n: Node, above: seq<Node>, j: nat)
    requires n.Element? && over == [n] + above && line in LinesBelow(ns, over) && j < |line|
    requires forall c :: c in ns ==> c in n.children
    ensures |line| > |above| + 1
    ensures j < |line| - |above| ==> line[j] in Descendants(n) && line[0] in Descendants(line[j])
    ensures line[|line| - |above|..] == above && line[|line| - |above| - 1] == n
    decreases ns, 1
  {
    if line in Lines(ns[0], over) {
      LineContains(ns[0], over, line, j);
      LineContains(ns[0], over, line, 0);
      var k := |line| - |over|;
      assert line[k..] == over;
      assert line[k] == line[k..][0] && line[k + 1..] == line[k..][1..];
      ChildBelow(n.children, ns[0], line[0]);
      SelfDescends(n);
      if j < k {
        ChildBelow(n.children, ns[0], line[j]);
      }
    } else {
      LineBelowContains(ns[1..], over, line, n, above, j);
    }
  }

  /** The lines that lead to elements of one name. */
  function SelectLines(lines: seq<seq<Node>>, name: Name): (r: seq<seq<Node>>)
    ensures forall l :: l in r <==> l in lines && l != [] && IsElement(l[0], name)
  {
    if lines == [] then []
    else
      (if lines[0] != [] && IsElement(lines[0][0], name) then [lines[0]] else []) + SelectLines(lines[1..], name)
  }
}
