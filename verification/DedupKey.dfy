/** The key of a message in the dedup store (src/dedup.rs): a hash over its protocol,
    sender and message id, each part behind a NUL octet. */
module DedupKey {
  import opened Text
  import opened Delivery

  function ProtocolName(p: Protocol): string
  {
    match p case As4 => "as4" case As2 => "as2"
  }

  /** What is hashed. */
  function Preimage(p: Protocol, senderType: string, sender: string, messageId: string): string
  {
    "asx-dedup-v1" + ("\0" + (ProtocolName(p) + ("\0" + (senderType + ("\0" + (sender + ("\0" + messageId)))))))
  }

  lemma CutAtNul(a: string, x: string, b: string, y: string)
    requires '\0' !in a && '\0' !in b && a + ("\0" + x) == b + ("\0" + y)
    ensures a == b && x == y
  {
    hide SplitOnce;
    assert a + ['\0'] + x == a + ("\0" + x);
    assert b + ['\0'] + y == b + ("\0" + y);
    SplitOnceAt(a, '\0', x);
    SplitOnceAt(b, '\0', y);
  }

  lemma ProtocolNames(p: Protocol, q: Protocol)
    ensures '\0' !in ProtocolName(p) && (ProtocolName(p) == ProtocolName(q) ==> p == q)
  {
    assert ProtocolName(As4)[2] == '4' && ProtocolName(As2)[2] == '2';
  }

  /** Two messages with one preimage are the same message where neither the sender's type
      nor its id holds a NUL; neither XML text nor an AS2 identifier can. */
  lemma PreimageIsUnambiguous(p: Protocol, t: string, s: string, m: string, p': Protocol, t': string, s': string,
                              m': string)
    requires '\0' !in t && '\0' !in s && '\0' !in t' && '\0' !in s'
    ensures Preimage(p, t, s, m) == Preimage(p', t', s', m') <==> p == p' && t == t' && s == s' && m == m'
  {
    if Preimage(p, t, s, m) == Preimage(p', t', s', m') {
      var x, x' := s + ("\0" + m), s' + ("\0" + m');
      var y, y' := t + ("\0" + x), t' + ("\0" + x');
      ProtocolNames(p, p');
      ProtocolNames(p', p);
      assert '\0' !in "asx-dedup-v1";
      hide ProtocolName;
      CutAtNul("asx-dedup-v1", ProtocolName(p) + ("\0" + y), "asx-dedup-v1", ProtocolName(p') + ("\0" + y'));
      CutAtNul(ProtocolName(p), y, ProtocolName(p'), y');
      CutAtNul(t, x, t', x');
      CutAtNul(s, m, s', m');
    }
  }

  /** A message, as far as its key tells it from others. */
  datatype Message = Message(protocol: Protocol, senderType: string, sender: string, id: string)
  {
    predicate NoNul()
    {
      '\0' !in senderType && '\0' !in sender
    }

    /** What `dedup_key` hashes with SHA-256. */
    function Hashed(): string
    {
      Preimage(protocol, senderType, sender, id)
    }
  }

  /** One key, one message, unless the hash collides on the two. */
  lemma SameKeySameMessage(m: Message, n: Message, hash: string -> string)
    requires m.NoNul() && n.NoNul() && hash(m.Hashed()) == hash(n.Hashed())
    ensures m == n || m.Hashed() != n.Hashed()
  {
    PreimageIsUnambiguous(m.protocol, m.senderType, m.sender, m.id, n.protocol, n.senderType, n.sender, n.id);
  }

  function Nuls(s: string): nat
  {
    multiset(s)['\0']
  }

  lemma NulsJoin(a: string, b: string)
    ensures Nuls(a + b) == Nuls(a) + Nuls(b) && Nuls("\0") == 1
    ensures Nuls(a) == 0 <==> '\0' !in a
  {
  }

  /** The part of the preimage behind the protocol. */
  function Tail(m: Message): string
  {
    m.senderType + ("\0" + (m.sender + ("\0" + m.id)))
  }

  lemma TailNuls(m: Message)
    ensures Nuls(Tail(m)) == 2 + Nuls(m.senderType) + Nuls(m.sender) + Nuls(m.id)
  {
    hide Nuls;
    NulsJoin(m.senderType, "\0" + (m.sender + ("\0" + m.id)));
    NulsJoin("\0", m.sender + ("\0" + m.id));
    NulsJoin(m.sender, "\0" + m.id);
    NulsJoin("\0", m.id);
  }

  lemma TailDecides(m: Message, n: Message)
    ensures m.Hashed() == n.Hashed() <==> m.protocol == n.protocol && Tail(m) == Tail(n)
  {
    if m.Hashed() == n.Hashed() {
      ProtocolNames(m.protocol, n.protocol);
      ProtocolNames(n.protocol, m.protocol);
      assert '\0' !in "asx-dedup-v1";
      hide ProtocolName;
      CutAtNul("asx-dedup-v1", ProtocolName(m.protocol) + ("\0" + Tail(m)),
               "asx-dedup-v1", ProtocolName(n.protocol) + ("\0" + Tail(n)));
      CutAtNul(ProtocolName(m.protocol), Tail(m), ProtocolName(n.protocol), Tail(n));
    }
  }

  /** A message that differs and has the same preimage. */
  ghost predicate Confused(m: Message)
  {
    exists n: Message :: n != m && n.Hashed() == m.Hashed()
  }

  /** A message shares its preimage with another exactly when one of its parts holds a
      NUL, which no part of a received message does. */
  lemma ConfusedIff(m: Message)
    ensures Confused(m) <==> '\0' in m.senderType || '\0' in m.sender || '\0' in m.id
  {
    hide *;
    if '\0' in m.senderType {
      TypeMoves(m);
    } else if '\0' in m.sender {
      SenderMoves(m);
    } else if '\0' in m.id {
      IdMoves(m);
    } else {
      NotConfused(m);
    }
  }

  lemma NotConfused(m: Message)
    requires '\0' !in m.senderType && '\0' !in m.sender && '\0' !in m.id
    ensures !Confused(m)
  {
    forall n: Message | n.Hashed() == m.Hashed() ensures n == m {
      OnlyItself(m, n);
    }
  }

  lemma TypeMoves(m: Message)
    requires '\0' in m.senderType
    ensures Confused(m)
  {
    var p := SplitOnce(m.senderType, '\0').value;
    var x := m.sender + ("\0" + m.id);
    assert m.senderType + ("\0" + x) == p.0 + ("\0" + (p.1 + "\0" + x));
    assert p.1 + "\0" + x == (p.1 + "\0" + m.sender) + ("\0" + m.id);
    Moved(m, Message(m.protocol, p.0, p.1 + "\0" + m.sender, m.id));
  }

  lemma SenderMoves(m: Message)
    requires '\0' in m.sender
    ensures Confused(m)
  {
    var p := SplitOnce(m.sender, '\0').value;
    var x := "\0" + m.id;
    assert m.senderType + ("\0" + (m.sender + x)) == (m.senderType + "\0" + p.0) + ("\0" + (p.1 + x));
    Moved(m, Message(m.protocol, m.senderType + "\0" + p.0, p.1, m.id));
  }

  lemma IdMoves(m: Message)
    requires '\0' in m.id
    ensures Confused(m)
  {
    var p := SplitOnce(m.id, '\0').value;
    assert m.sender + ("\0" + m.id) == (m.sender + "\0" + p.0) + ("\0" + p.1);
    Moved(m, Message(m.protocol, m.senderType, m.sender + "\0" + p.0, p.1));
  }

  lemma Moved(m: Message, n: Message)
    requires m.protocol == n.protocol && Tail(m) == Tail(n) && m != n
    ensures Confused(m)
  {
    TailDecides(n, m);
  }

  lemma OnlyItself(m: Message, n: Message)
    requires '\0' !in m.senderType && '\0' !in m.sender && '\0' !in m.id && n.Hashed() == m.Hashed()
    ensures n == m
  {
    TailDecides(n, m);
    TailNuls(m);
    TailNuls(n);
    NulsJoin(m.senderType, "");
    NulsJoin(m.sender, "");
    NulsJoin(m.id, "");
    NulsJoin(n.senderType, "");
    NulsJoin(n.sender, "");
    hide Nuls, Tail;
    PreimageIsUnambiguous(m.protocol, m.senderType, m.sender, m.id, n.protocol, n.senderType, n.sender, n.id);
  }
}
