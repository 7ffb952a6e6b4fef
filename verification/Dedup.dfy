/** Two-phase replay protection (src/dedup.rs): a mutex-guarded map from message
    keys to leases, with an eviction of everything expired on every claim.

    The clock is read before the lock is taken, so each operation carries its
    own reading `now`; the lock order is the order of the calls. */
module Dedup {
  import opened Wrappers

  /** A reading of the monotonic clock, in nanoseconds. */
  type Instant = int

  const SECOND: int := 1_000_000_000
  const LEASE: int := 5 * 60 * SECOND
  const RETENTION: int := 7 * 24 * 60 * 60 * SECOND

  type Key = string
  type Token = string

  datatype Entry = Held(token: Token, until: Instant) | Accepted(until: Instant)

  datatype Claim = Claimed(token: Token) | Duplicate | InFlight

  type Store = map<Key, Entry>

  /** The entries that a claim at `now` retains. */
  function Purge(s: Store, now: Instant): (r: Store)
  {
    map k | k in s && s[k].until > now :: s[k]
  }

  /** The answer to a claim and the store it leaves. `drawn` is the random token
      drawn for it; `None` when no randomness is available. */
  function ClaimAt(s: Store, key: Key, now: Instant, drawn: Option<Token>): (Result<Claim>, Store)
  {
    var live := Purge(s, now);
    if key in live then
      (Success(if live[key].Accepted? then Duplicate else InFlight), live)
    else match drawn
      case None => (Failure, live)
      case Some(token) => (Success(Claimed(token)), live[key := Held(token, now + LEASE)])
  }

  /** Whether `token` is the key's current, unexpired lease. */
  predicate Current(s: Store, key: Key, token: Token, now: Instant)
  {
    key in s && s[key].Held? && s[key].token == token && s[key].until > now
  }

  /** Accept or abandon under `token`: success, and the store it leaves. */
  function SettleAt(s: Store, key: Key, token: Token, accept: bool, now: Instant): (bool, Store)
  {
    if !Current(s, key, token, now) then (false, s)
    else if accept then (true, s[key := Accepted(now + RETENTION)])
    else (true, s - {key})
  }

  /** The in-process store. */
  class MemoryDedup {
    var entries: Store

    constructor ()
      ensures entries == map[]
    {
      entries := map[];
    }

    method ClaimNow(key: Key, now: Instant, drawn: Option<Token>) returns (answer: Result<Claim>)
      modifies this
      ensures (answer, entries) == ClaimAt(old(entries), key, now, drawn)
    {
      entries := map k | k in entries && entries[k].until > now :: entries[k];
      if key in entries {
        match entries[key]
        case Accepted(_) => return Success(Duplicate);
        case Held(_, _) => return Success(InFlight);
      }
      match drawn
      case None => return Failure;
      case Some(token) =>
        entries := entries[key := Held(token, now + LEASE)];
        return Success(Claimed(token));
    }

    method Settle(key: Key, token: Token, accept: bool, now: Instant) returns (ok: bool)
      modifies this
      ensures (ok, entries) == SettleAt(old(entries), key, token, accept, now)
      ensures !ok ==> entries == old(entries)
      ensures forall k :: k in old(entries)
                && (k != key || old(entries)[k].Accepted? || old(entries)[k].token != token)
                ==> k in entries && entries[k] == old(entries)[k]
    {
      if key in entries {
        match entries[key]
        case Held(held, until) =>
          if held == token && until > now {
            if accept {
              entries := entries[key := Accepted(now + RETENTION)];
            } else {
              entries := entries - {key};
            }
            return true;
          }
        case Accepted(_) =>
      }
      return false;
    }
  }

  // ---- The store that never evicts --------------------------------------

  /** A claim on a store that keeps expired entries and only compares times. */
  function LazyClaimAt(s: Store, key: Key, now: Instant, drawn: Option<Token>): (Result<Claim>, Store)
  {
    if key in s && s[key].until > now then
      (Success(if s[key].Accepted? then Duplicate else InFlight), s)
    else match drawn
      case None => (Failure, s)
      case Some(token) => (Success(Claimed(token)), s[key := Held(token, now + LEASE)])
  }

  datatype Op =
    | OpClaim(key: Key, now: Instant, drawn: Option<Token>)
    | OpSettle(key: Key, token: Token, accept: bool, now: Instant)

  datatype Answer = ClaimAnswer(claim: Result<Claim>) | SettleAnswer(ok: bool)

  function Apply(s: Store, op: Op): (Answer, Store)
  {
    match op
    case OpClaim(key, now, drawn) =>
      var (r, s') := ClaimAt(s, key, now, drawn);
      (ClaimAnswer(r), s')
    case OpSettle(key, token, accept, now) =>
      var (ok, s') := SettleAt(s, key, token, accept, now);
      (SettleAnswer(ok), s')
  }

  function LazyApply(s: Store, op: Op): (Answer, Store)
  {
    match op
    case OpClaim(key, now, drawn) =>
      var (r, s') := LazyClaimAt(s, key, now, drawn);
      (ClaimAnswer(r), s')
    case OpSettle(key, token, accept, now) =>
      var (ok, s') := SettleAt(s, key, token, accept, now);
      (SettleAnswer(ok), s')
  }

  function Answers(s: Store, ops: seq<Op>): (r: seq<Answer>)
    ensures |r| == |ops|
    decreases |ops|
  {
    if ops == [] then []
    else
      var (a, s') := Apply(s, ops[0]);
      [a] + Answers(s', ops[1..])
  }

  function LazyAnswers(s: Store, ops: seq<Op>): (r: seq<Answer>)
    ensures |r| == |ops|
    decreases |ops|
  {
    if ops == [] then []
    else
      var (a, s') := LazyApply(s, ops[0]);
      [a] + LazyAnswers(s', ops[1..])
  }

  /** Readings applied in nondecreasing order, none before `since`. */
  predicate Chronological(since: Instant, ops: seq<Op>)
    decreases |ops|
  {
    ops == [] || (since <= ops[0].now && Chronological(ops[0].now, ops[1..]))
  }

  /** What links the two stores once every reading so far is at most `t`: the
      evicting store is part of the other and lacks only what expired by `t`. */
  ghost predicate Linked(s: Store, lazy: Store, t: Instant)
  {
    && (forall k :: k in s ==> k in lazy && lazy[k] == s[k])
    && (forall k :: k in lazy && lazy[k].until > t ==> k in s)
  }

  lemma LinkedStep(s: Store, lazy: Store, t: Instant, op: Op)
    requires Linked(s, lazy, t) && t <= op.now
    ensures Apply(s, op).0 == LazyApply(lazy, op).0
    ensures Linked(Apply(s, op).1, LazyApply(lazy, op).1, op.now)
  {
  }

  lemma {:induction false} LinkedRun(s: Store, lazy: Store, t: Instant, ops: seq<Op>)
    requires Linked(s, lazy, t) && Chronological(t, ops)
    ensures Answers(s, ops) == LazyAnswers(lazy, ops)
    decreases |ops|
  {
    if ops != [] {
      LinkedStep(s, lazy, t, ops[0]);
      LinkedRun(Apply(s, ops[0]).1, LazyApply(lazy, ops[0]).1, ops[0].now, ops[1..]);
    }
  }

  /** Eviction is invisible: with readings applied in order, every claim, accept
      and abandon of every run gets the answer of the store that never evicts. */
  lemma EvictionIsInvisible(s: Store, t: Instant, ops: seq<Op>)
    requires Chronological(t, ops)
    ensures Answers(s, ops) == LazyAnswers(s, ops)
  {
    LinkedRun(s, s, t, ops);
  }

  // ---- When eviction shows ------------------------------------------------

  /** The stores after some operations. */
  function After(s: Store, ops: seq<Op>): Store
  {
    if ops == [] then s else Apply(After(s, ops[..|ops| - 1]), ops[|ops| - 1]).1
  }

  function LazyAfter(s: Store, ops: seq<Op>): Store
  {
    if ops == [] then s else LazyApply(LazyAfter(s, ops[..|ops| - 1]), ops[|ops| - 1]).1
  }

  /** The operation wrote or removed its key's entry. */
  predicate Succeeds(a: Answer)
  {
    match a
    case ClaimAnswer(c) => c.Success? && c.value.Claimed?
    case SettleAnswer(ok) => ok
  }

  /** The `i`-th operation, a claim of any key, evicts the entry that `key` has in the
      never-evicting store, and no operation up to the `j`-th writes the key again. */
  ghost predicate Evicts(s: Store, ops: seq<Op>, i: int, j: int, key: Key)
  {
    && 0 <= i < j <= |ops| && ops[i].OpClaim?
    && key in LazyAfter(s, ops[..i]) && LazyAfter(s, ops[..i])[key].until <= ops[i].now
    && forall m :: i <= m < j && ops[m].key == key ==> !Succeeds(LazyApply(LazyAfter(s, ops[..m]), ops[m]).0)
  }

  ghost predicate Evicted(s: Store, ops: seq<Op>, j: int, key: Key)
  {
    exists i :: Evicts(s, ops, i, j, key)
  }

  /** An operation whose answer turns on the entry being there: its reading, taken
      before the lock, lies before the entry's end, and a settle has its token. */
  predicate Reaches(op: Op, e: Entry)
  {
    op.now < e.until && (op.OpSettle? ==> e.Held? && e.token == op.token)
  }

  /** Eviction shows at operation `j`: an earlier claim with a later reading evicted
      the entry that `j` still reaches. */
  ghost predicate ShowsAt(s: Store, ops: seq<Op>, i: int, j: int)
  {
    && 0 <= i < j < |ops| && Evicts(s, ops, i, j, ops[j].key)
    && Reaches(ops[j], LazyAfter(s, ops[..i])[ops[j].key])
  }

  predicate SameAnswer(s: Store, ops: seq<Op>, m: nat)
    requires m < |ops|
  {
    Apply(After(s, ops[..m]), ops[m]).0 == LazyApply(LazyAfter(s, ops[..m]), ops[m]).0
  }

  ghost predicate SameUpTo(s: Store, ops: seq<Op>, j: nat)
    requires j <= |ops|
  {
    forall m :: 0 <= m < j ==> SameAnswer(s, ops, m)
  }

  lemma {:induction false} AfterHead(s: Store, ops: seq<Op>)
    requires ops != []
    ensures After(s, ops) == After(Apply(s, ops[0]).1, ops[1..])
    ensures LazyAfter(s, ops) == LazyAfter(LazyApply(s, ops[0]).1, ops[1..])
    decreases |ops|
  {
    var n := |ops| - 1;
    if n > 0 {
      AfterHead(s, ops[..n]);
      assert ops[..n][1..] == ops[1..][..n - 1];
    } else {
      assert ops[..0] == [] && ops[1..] == [];
    }
  }

  lemma {:induction false} AnswerAt(s: Store, lazy: Store, ops: seq<Op>, m: nat)
    requires m < |ops|
    ensures Answers(s, ops)[m] == Apply(After(s, ops[..m]), ops[m]).0
    ensures LazyAnswers(lazy, ops)[m] == LazyApply(LazyAfter(lazy, ops[..m]), ops[m]).0
    decreases |ops|
  {
    if m > 0 {
      AnswerAt(Apply(s, ops[0]).1, LazyApply(lazy, ops[0]).1, ops[1..], m - 1);
      AfterHead(s, ops[..m]);
      AfterHead(lazy, ops[..m]);
      assert ops[..m][1..] == ops[1..][..m - 1];
    } else {
      assert ops[..0] == [];
    }
  }

  lemma SameAnswersIff(s: Store, ops: seq<Op>)
    ensures Answers(s, ops) == LazyAnswers(s, ops) <==> SameUpTo(s, ops, |ops|)
  {
    forall m: nat | m < |ops| ensures Answers(s, ops)[m] == LazyAnswers(s, ops)[m] <==> SameAnswer(s, ops, m) {
      AnswerAt(s, s, ops, m);
    }
  }

  /** While the answers agree, the evicting store is part of the other and lacks
      exactly what some claim evicted. */
  ghost predicate Behind(s: Store, ops: seq<Op>, j: nat)
    requires j <= |ops|
  {
    var e, l := After(s, ops[..j]), LazyAfter(s, ops[..j]);
    && (forall k :: k in e ==> k in l && l[k] == e[k])
    && (forall k :: k in l ==> (k in e <==> !Evicted(s, ops, j, k)))
  }

  /** What one operation with one answer does to a key in both stores. */
  lemma OneOp(e: Store, l: Store, op: Op, k: Key)
    requires Apply(e, op).0 == LazyApply(l, op).0
    requires k in e ==> k in l && l[k] == e[k]
    ensures var e', l' := Apply(e, op).1, LazyApply(l, op).1;
            if k == op.key && Succeeds(LazyApply(l, op).0)
            then (k in e' <==> k in l') && (k in e' ==> e'[k] == l'[k])
            else && (k in l' <==> k in l) && (k in l ==> l'[k] == l[k])
                 && (k in e' <==> k in e && !(op.OpClaim? && e[k].until <= op.now))
                 && (k in e' ==> e'[k] == e[k])
  {
  }

  /** The entry a claim evicted stays in the other store until it is written. */
  lemma {:induction false} EvictedStays(s: Store, ops: seq<Op>, i: int, j: int, key: Key)
    requires Evicts(s, ops, i, j, key)
    ensures key in LazyAfter(s, ops[..j]) && LazyAfter(s, ops[..j])[key] == LazyAfter(s, ops[..i])[key]
    decreases j
  {
    assert ops[..j][..j - 1] == ops[..j - 1];
    if i < j - 1 {
      EvictedStays(s, ops, i, j - 1, key);
    }
    LazyKeeps(LazyAfter(s, ops[..j - 1]), ops[j - 1], key);
  }

  lemma LazyKeeps(l: Store, op: Op, k: Key)
    requires k == op.key ==> !Succeeds(LazyApply(l, op).0)
    ensures (k in LazyApply(l, op).1 <==> k in l) && (k in l ==> LazyApply(l, op).1[k] == l[k])
  {
  }

  lemma {:induction false} StaysBehind(s: Store, ops: seq<Op>, j: nat)
    requires j <= |ops| && SameUpTo(s, ops, j)
    ensures Behind(s, ops, j)
  {
    if j == 0 {
      assert ops[..0] == [];
    } else {
      StaysBehind(s, ops, j - 1);
      assert ops[..j][..j - 1] == ops[..j - 1];
      assert SameAnswer(s, ops, j - 1);
      assert After(s, ops[..j]) == Apply(After(s, ops[..j - 1]), ops[j - 1]).1;
      assert LazyAfter(s, ops[..j]) == LazyApply(LazyAfter(s, ops[..j - 1]), ops[j - 1]).1;
      hide After, LazyAfter, Apply, LazyApply, Succeeds, Evicted;
      forall k ensures k in After(s, ops[..j]) ==>
                         k in LazyAfter(s, ops[..j]) && LazyAfter(s, ops[..j])[k] == After(s, ops[..j])[k]
               ensures k in LazyAfter(s, ops[..j]) ==>
                         (k in After(s, ops[..j]) <==> !Evicted(s, ops, j, k))
      {
        OneOp(After(s, ops[..j - 1]), LazyAfter(s, ops[..j - 1]), ops[j - 1], k);
        EvictedSoFar(s, ops, j, k);
      }
    }
  }

  /** One operation more: evicted before and not written, or evicted by it. */
  lemma EvictedSoFar(s: Store, ops: seq<Op>, j: nat, k: Key)
    requires 0 < j <= |ops|
    ensures var l, op := LazyAfter(s, ops[..j - 1]), ops[j - 1];
            Evicted(s, ops, j, k) <==>
              && !(op.key == k && Succeeds(LazyApply(l, op).0))
              && (Evicted(s, ops, j - 1, k)
                  || (op.OpClaim? && k in l && l[k].until <= op.now))
  {
    hide LazyAfter, LazyApply, Succeeds;
    var l, op := LazyAfter(s, ops[..j - 1]), ops[j - 1];
    if Evicted(s, ops, j, k) {
      var i :| Evicts(s, ops, i, j, k);
      assert i < j - 1 ==> Evicts(s, ops, i, j - 1, k);
    }
    if !(op.key == k && Succeeds(LazyApply(l, op).0)) {
      if Evicted(s, ops, j - 1, k) {
        var n := j - 1;
        var i :| Evicts(s, ops, i, n, k);
        assert Evicts(s, ops, i, j, k);
      }
      if op.OpClaim? && k in l && l[k].until <= op.now {
        assert Evicts(s, ops, j - 1, j, k);
      }
    }
  }

  /** Eviction shows in an answer that first differs, and only so. */
  lemma ShowsWhere(s: Store, ops: seq<Op>, j: nat)
    requires j < |ops| && SameUpTo(s, ops, j)
    ensures SameAnswer(s, ops, j) <==> !exists i :: ShowsAt(s, ops, i, j)
  {
    StaysBehind(s, ops, j);
    var e, l, op := After(s, ops[..j]), LazyAfter(s, ops[..j]), ops[j];
    DiffersWhere(e, l, op);
    hide Apply, LazyApply, After, LazyAfter, Evicts, Reaches;
    if i :| ShowsAt(s, ops, i, j) {
      EvictedStays(s, ops, i, j, op.key);
    }
    if op.key in l && op.key !in e {
      var i :| Evicts(s, ops, i, j, op.key);
      EvictedStays(s, ops, i, j, op.key);
      EvictsBounds(s, ops, i, j, op.key);
      assert Reaches(op, l[op.key]) ==> ShowsAt(s, ops, i, j);
    }
  }

  lemma EvictsBounds(s: Store, ops: seq<Op>, i: int, j: int, key: Key)
    requires Evicts(s, ops, i, j, key)
    ensures 0 <= i < j <= |ops| && key in LazyAfter(s, ops[..i])
  {
  }

  /** The answers of a store and of one that lacks some of its entries differ exactly
      where the operation reaches an entry that is lacking. */
  lemma DiffersWhere(e: Store, l: Store, op: Op)
    requires forall k :: k in e ==> k in l && l[k] == e[k]
    ensures Apply(e, op).0 == LazyApply(l, op).0 <==> !(op.key in l && op.key !in e && Reaches(op, l[op.key]))
  {
  }

  /** For every sequence of operations, in any order of their readings: the answers
      are those of the store that never evicts exactly when no claim evicts an entry
      that a later operation, with an earlier reading, still reaches. */
  lemma EvictionShowsIff(s: Store, ops: seq<Op>)
    ensures Answers(s, ops) == LazyAnswers(s, ops) <==> !exists i, j :: ShowsAt(s, ops, i, j)
  {
    SameAnswersIff(s, ops);
    if i, j :| ShowsAt(s, ops, i, j) {
      if SameUpTo(s, ops, |ops|) {
        ShowsWhere(s, ops, j);
      }
    } else if !SameUpTo(s, ops, |ops|) {
      var j := FirstDifference(s, ops, |ops|);
      ShowsWhere(s, ops, j);
    }
  }

  lemma {:induction false} FirstDifference(s: Store, ops: seq<Op>, n: nat) returns (j: nat)
    requires n <= |ops| && !SameUpTo(s, ops, n)
    ensures j < n && SameUpTo(s, ops, j) && !SameAnswer(s, ops, j)
  {
    if SameUpTo(s, ops, n - 1) { j := n - 1; } else { j := FirstDifference(s, ops, n - 1); }
  }

  /** A claim with a later reading makes the holder's accept, read before its lease
      ended, fail where the store that never evicts lets it succeed. */
  lemma AcceptAfterEviction(key: Key, other: Key, token: Token)
    requires key != other
    ensures var ops := [OpClaim(other, 10, None), OpSettle(key, token, true, 5)];
            && Answers(map[key := Held(token, 10)], ops)[1] == SettleAnswer(false)
            && LazyAnswers(map[key := Held(token, 10)], ops)[1] == SettleAnswer(true)
  {
    var s: Store := map[key := Held(token, 10)];
    var ops := [OpClaim(other, 10, None), OpSettle(key, token, true, 5)];
    AnswerAt(s, s, ops, 1);
    assert ops[..1] == [ops[0]] && ops[..1][..0] == [];
    assert After(s, ops[..1]) == Apply(s, ops[0]).1 && LazyAfter(s, ops[..1]) == LazyApply(s, ops[0]).1;
  }

  // ---- Keys are independent ---------------------------------------------

  /** The operations of one key. */
  function OnKey(ops: seq<Op>, key: Key): seq<Op>
  {
    if ops == [] then []
    else (if ops[0].key == key then [ops[0]] else []) + OnKey(ops[1..], key)
  }

  /** The answers that belong to one key's operations. */
  function AnswersOnKey(ops: seq<Op>, answers: seq<Answer>, key: Key): seq<Answer>
    requires |ops| == |answers|
  {
    if ops == [] then []
    else (if ops[0].key == key then [answers[0]] else []) + AnswersOnKey(ops[1..], answers[1..], key)
  }

  /** Two stores that hold the same thing under `key`. */
  ghost predicate SameAt(s: Store, t: Store, key: Key)
  {
    (key in s <==> key in t) && (key in s ==> s[key] == t[key])
  }

  lemma {:induction false} LazyKeysAreIndependent(s: Store, t: Store, ops: seq<Op>, key: Key)
    requires SameAt(s, t, key)
    ensures AnswersOnKey(ops, LazyAnswers(s, ops), key) == LazyAnswers(t, OnKey(ops, key))
    decreases |ops|
  {
    if ops != [] {
      var (a, s') := LazyApply(s, ops[0]);
      assert LazyAnswers(s, ops)[1..] == LazyAnswers(s', ops[1..]);
      if ops[0].key == key {
        var (b, t') := LazyApply(t, ops[0]);
        assert a == b && SameAt(s', t', key);
        LazyKeysAreIndependent(s', t', ops[1..], key);
        assert ([ops[0]] + OnKey(ops[1..], key))[1..] == OnKey(ops[1..], key);
      } else {
        assert SameAt(s', t, key);
        LazyKeysAreIndependent(s', t, ops[1..], key);
        assert OnKey(ops, key) == OnKey(ops[1..], key);
      }
    }
  }

  lemma {:induction false} ChronologicalOnKey(since: Instant, earlier: Instant, ops: seq<Op>, key: Key)
    requires Chronological(since, ops) && earlier <= since
    ensures Chronological(earlier, OnKey(ops, key))
    decreases |ops|
  {
    if ops != [] {
      if ops[0].key == key {
        ChronologicalOnKey(ops[0].now, ops[0].now, ops[1..], key);
        assert ([ops[0]] + OnKey(ops[1..], key))[1..] == OnKey(ops[1..], key);
      } else {
        ChronologicalOnKey(ops[0].now, earlier, ops[1..], key);
        assert OnKey(ops, key) == OnKey(ops[1..], key);
      }
    }
  }

  /** Although every claim evicts entries of every key, each key is served as if
      it were alone: with readings applied in order, the answers to its
      operations are those of a run of these operations only. */
  lemma KeysAreIndependent(s: Store, t: Instant, ops: seq<Op>, key: Key)
    requires Chronological(t, ops)
    ensures |Answers(s, ops)| == |ops|
    ensures AnswersOnKey(ops, Answers(s, ops), key) == Answers(s, OnKey(ops, key))
  {
    EvictionIsInvisible(s, t, ops);
    LazyKeysAreIndependent(s, s, ops, key);
    ChronologicalOnKey(t, t, ops, key);
    EvictionIsInvisible(s, t, OnKey(ops, key));
  }
}
