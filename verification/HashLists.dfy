/**
 The hash map against the simplest form of it: one list of keys, the newest first, searched from its head. For
 all keys, those that are mistaken for each other among them, every run on the map answers like the run on the
 list: hashes, buckets and resizing change nothing that can be seen.
 */
module HashLists {
  import opened Basics
  import opened HashTables

  datatype Assoc<V> = Assoc(keys: seq<Key>, contents: map<Key, V>)

  // ---------------------------------------------------------------------------------------------
  // The list
  // ---------------------------------------------------------------------------------------------

  /** The first key of a list that is taken for `key`. */
  function Hit(s: seq<Key>, key: Key): Option<Key> {
    if s == [] then None else if Matches(s[0], key) then Some(s[0]) else Hit(s[1..], key)
  }

  /** The list without that key. */
  function Miss(s: seq<Key>, key: Key): seq<Key> {
    if s == [] then [] else if Matches(s[0], key) then s[1..] else [s[0]] + Miss(s[1..], key)
  }

  function ListStep<V>(a: Assoc<V>, op: Op<V>): Assoc<V> {
    match op
    case Put(k, v) =>
      (match Hit(a.keys, k)
       case Some(was) => a.(contents := a.contents[was := v])
       case None => Assoc([k] + a.keys, a.contents[k := v]))
    case Drop(k) =>
      (match Hit(a.keys, k)
       case Some(was) => Assoc(Miss(a.keys, k), a.contents - {was})
       case None => a)
    case Ask(_) => a
  }

  function ListAnswer<V>(a: Assoc<V>, op: Op<V>): Option<V> {
    var k := Hit(a.keys, op.key);
    if op.Ask? && k.Some? && k.value in a.contents then Some(a.contents[k.value]) else None
  }

  function ListAnswers<V>(a: Assoc<V>, ops: seq<Op<V>>): seq<Option<V>>
    decreases |ops|
  {
    if ops == [] then [] else [ListAnswer(a, ops[0])] + ListAnswers(ListStep(a, ops[0]), ops[1..])
  }

  // ---------------------------------------------------------------------------------------------
  // The keys of one hash
  // ---------------------------------------------------------------------------------------------

  function OfHash(s: seq<Key>, h: bv32): seq<Key> {
    if s == [] then [] else (if Hash(s[0]) == h then [s[0]] else []) + OfHash(s[1..], h)
  }

  lemma {:induction false} OfHashConcat(s: seq<Key>, t: seq<Key>, h: bv32)
    ensures OfHash(s + t, h) == OfHash(s, h) + OfHash(t, h)
  {
    hide Hash;
    if s == [] {
      assert s + t == t;
    } else {
      assert (s + t)[1..] == s[1..] + t;
      OfHashConcat(s[1..], t, h);
    }
  }

  lemma {:induction false} OfHashNone(s: seq<Key>, h: bv32)
    requires forall k :: k in s ==> Hash(k) != h
    ensures OfHash(s, h) == []
  {
    hide Hash;
    if s != [] {
      OfHashNone(s[1..], h);
    }
  }

  lemma OfHashOne(k: Key, h: bv32)
    ensures OfHash([k], h) == if Hash(k) == h then [k] else []
  {
    hide Hash;
    assert [k][1..] == [];
  }

  lemma {:induction false} ReversedConcat<X>(s: seq<X>, t: seq<X>)
    ensures Reversed(s + t) == Reversed(t) + Reversed(s)
  {
    if s == [] {
      assert s + t == t;
    } else {
      assert (s + t)[1..] == s[1..] + t;
      ReversedConcat(s[1..], t);
    }
  }

  lemma {:induction false} ReversedTwice<X>(s: seq<X>)
    ensures Reversed(Reversed(s)) == s
  {
    if s != [] {
      ReversedConcat(Reversed(s[1..]), [s[0]]);
      ReversedTwice(s[1..]);
      assert Reversed([s[0]]) == [s[0]];
      assert s == [s[0]] + s[1..];
    }
  }

  lemma {:induction false} OfHashReversed(s: seq<Key>, h: bv32)
    ensures OfHash(Reversed(s), h) == Reversed(OfHash(s, h))
  {
    hide Hash;
    if s != [] {
      OfHashReversed(s[1..], h);
      OfHashConcat(Reversed(s[1..]), [s[0]], h);
      OfHashOne(s[0], h);
      ReversedConcat(OfHash([s[0]], h), OfHash(s[1..], h));
      assert OfHash(s, h) == OfHash([s[0]], h) + OfHash(s[1..], h);
      assert Reversed(OfHash([s[0]], h)) == OfHash([s[0]], h);
    }
  }

  lemma SameHash(k: Key, key: Key)
    ensures Matches(k, key) ==> Hash(k) == Hash(key)
  {
  }

  /** A search meets keys of the hash only. */
  lemma {:induction false} HitOfHash(s: seq<Key>, key: Key)
    ensures Hit(OfHash(s, Hash(key)), key) == Hit(s, key)
  {
    hide Hash, Matches;
    if s != [] {
      SameHash(s[0], key);
      HitOfHash(s[1..], key);
      var rest := OfHash(s[1..], Hash(key));
      assert ([s[0]] + rest)[1..] == rest && [] + rest == rest;
    }
  }

  lemma {:induction false} MissOfHash(s: seq<Key>, key: Key, h: bv32)
    ensures OfHash(Miss(s, key), h) == if h == Hash(key) then Miss(OfHash(s, h), key) else OfHash(s, h)
  {
    hide Hash, Matches;
    if s != [] {
      SameHash(s[0], key);
      MissOfHash(s[1..], key, h);
      var rest := OfHash(s[1..], h);
      assert ([s[0]] + rest)[1..] == rest && [] + rest == rest;
      if !Matches(s[0], key) {
        var less := Miss(s[1..], key);
        assert ([s[0]] + less)[1..] == less;
      }
    }
  }

  lemma WithoutLater<X>(c: seq<X>, i: nat)
    requires i + 1 < |c|
    ensures Without(c, i + 1) == [c[0]] + Without(c[1..], i) && c[1..][i] == c[i + 1]
  {
  }

  lemma FirstLater(c: seq<Key>, key: Key)
    ensures c != [] && !Matches(c[0], key) ==> First(c, key) == First(c[1..], key) + 1
    ensures c == [] || Matches(c[0], key) ==> First(c, key) == 0
  {
    hide Matches;
  }

  lemma WithoutFirst<X>(c: seq<X>)
    requires c != []
    ensures Without(c, 0) == c[1..]
  {
  }

  lemma {:induction false} HitIsFirst(c: seq<Key>, key: Key)
    ensures Hit(c, key) == (if First(c, key) < |c| then Some(c[First(c, key)]) else None)
    ensures First(c, key) < |c| ==> Without(c, First(c, key)) == Miss(c, key)
    decreases |c|
  {
    hide Matches, First, Without;
    FirstLater(c, key);
    if c != [] && !Matches(c[0], key) {
      HitIsFirst(c[1..], key);
      if First(c[1..], key) + 1 < |c| {
        WithoutLater(c, First(c[1..], key));
      }
    } else if c != [] {
      WithoutFirst(c);
    }
  }

  // ---------------------------------------------------------------------------------------------
  // Buckets
  // ---------------------------------------------------------------------------------------------

  /** Hash by hash the keys are in the same order in the list and in the buckets. */
  ghost predicate SameOrder(chains: seq<seq<Key>>, keys: seq<Key>) {
    if |chains| == 0 then keys == []
    else forall h: bv32 :: OfHash(chains[Index(h, |chains|)], h) == OfHash(keys, h)
  }

  lemma NoHit(key: Key)
    ensures Hit([], key) == None && Miss([], key) == []
  {
  }

  lemma SameFound(chains: seq<seq<Key>>, keys: seq<Key>, key: Key)
    requires SameOrder(chains, keys)
    ensures Found(chains, key) == Hit(keys, key)
  {
    hide Hash, Matches, Index, First, Hit;
    if |chains| > 0 {
      var c := chains[Place(chains, key)];
      HitOfHash(c, key);
      HitOfHash(keys, key);
      HitIsFirst(c, key);
    } else {
      NoHit(key);
    }
  }

  lemma SamePushed(chains: seq<seq<Key>>, keys: seq<Key>, key: Key)
    requires |chains| > 0 && SameOrder(chains, keys)
    ensures SameOrder(Pushed(chains, key), [key] + keys)
  {
    hide Hash, Index, OfHash;
    var now := Pushed(chains, key);
    forall h: bv32 ensures OfHash(now[Index(h, |now|)], h) == OfHash([key] + keys, h) {
      var b := Index(h, |now|);
      OfHashConcat([key], keys, h);
      OfHashConcat([key], chains[b], h);
      OfHashOne(key, h);
    }
  }

  lemma SameRemoved(chains: seq<seq<Key>>, keys: seq<Key>, key: Key)
    requires |chains| > 0 && SameOrder(chains, keys)
    requires var b := Place(chains, key); First(chains[b], key) < |chains[b]|
    ensures var b := Place(chains, key);
            SameOrder(chains[b := Without(chains[b], First(chains[b], key))], Miss(keys, key))
  {
    hide Hash, Index, OfHash, First, Without, Miss;
    var b := Place(chains, key);
    var now := chains[b := Without(chains[b], First(chains[b], key))];
    HitIsFirst(chains[b], key);
    forall h: bv32 ensures OfHash(now[Index(h, |now|)], h) == OfHash(Miss(keys, key), h) {
      MissOfHash(keys, key, h);
      MissOfHash(chains[b], key, h);
    }
  }

  /** One key in front of the others, hash by hash, forwards and backwards. */
  lemma OneInFront(k: Key, rest: seq<Key>, h: bv32)
    ensures OfHash([k] + rest, h) == OfHash([k], h) + OfHash(rest, h)
    ensures Reversed(OfHash([k] + rest, h)) == Reversed(OfHash(rest, h)) + OfHash([k], h)
  {
    hide Hash;
    OfHashConcat([k], rest, h);
    OfHashOne(k, h);
    ReversedConcat(OfHash([k], h), OfHash(rest, h));
    assert Reversed(OfHash([k], h)) == OfHash([k], h);
  }

  lemma PushedOfHash(chains: seq<seq<Key>>, k: Key, h: bv32)
    requires |chains| > 0
    ensures OfHash(Pushed(chains, k)[Index(h, |chains|)], h) ==
            OfHash([k], h) + OfHash(chains[Index(h, |chains|)], h)
  {
    hide Hash, Index, OfHash;
    OneInFront(k, chains[Index(h, |chains|)], h);
    OfHashOne(k, h);
    assert [] + OfHash(chains[Index(h, |chains|)], h) == OfHash(chains[Index(h, |chains|)], h);
  }

  lemma NoneOfHash(h: bv32)
    ensures OfHash([], h) == [] && Reversed<Key>([]) == []
  {
  }

  /** What pouring leaves of the keys of a hash in their bucket: the poured ones, the last one first. */
  lemma {:induction false} PouredOfHash(chains: seq<seq<Key>>, pool: seq<Key>, h: bv32)
    requires |chains| > 0
    ensures OfHash(Poured(chains, pool)[Index(h, |chains|)], h) ==
            Reversed(OfHash(pool, h)) + OfHash(chains[Index(h, |chains|)], h)
    decreases |pool|
  {
    hide Hash, Index, OfHash, Pushed, Reversed;
    if pool == [] {
      NoneOfHash(h);
    } else {
      var k, rest := pool[0], pool[1..];
      PouredOfHash(Pushed(chains, k), rest, h);
      PushedOfHash(chains, k, h);
      assert pool == [k] + rest;
      OneInFront(k, rest, h);
    }
  }

  /** The pool has the keys of a hash in the order of their bucket, backwards. */
  lemma {:induction false} PoolOfHash(chains: seq<seq<Key>>, i: nat, pool: seq<Key>, h: bv32)
    requires |chains| > 0 && i <= |chains|
    requires forall j :: 0 <= j < |chains| && j != Index(h, |chains|) ==> OfHash(chains[j], h) == []
    ensures OfHash(PoolOf(chains, i, pool), h) ==
            (if Index(h, |chains|) < i then Reversed(OfHash(chains[Index(h, |chains|)], h)) else []) + OfHash(pool, h)
    decreases i
  {
    hide Hash, Index, OfHash, Reversed;
    if i > 0 {
      var c := chains[i - 1];
      PoolOfHash(chains, i - 1, Reversed(c) + pool, h);
      OfHashConcat(Reversed(c), pool, h);
      OfHashReversed(c, h);
      NoneOfHash(h);
    }
  }

  /** After a resize the keys of every hash are in the same order as before. */
  lemma RehashOfHash(chains: seq<seq<Key>>, n: nat, keys: set<Key>, h: bv32)
    requires n > 0 && |chains| > 0 && Sound(chains, keys)
    ensures OfHash(Rehashed(chains, n)[Index(h, n)], h) == OfHash(chains[Index(h, |chains|)], h)
  {
    hide Index, Hash, OfHash;
    forall j | 0 <= j < |chains| && j != Index(h, |chains|) ensures OfHash(chains[j], h) == [] {
      assert ChainSound(chains, j, keys);
      OfHashNone(chains[j], h);
    }
    PoolOfHash(chains, |chains|, [], h);
    PouredOfHash(Empty(n), PoolOf(chains, |chains|, []), h);
    OfHashNone([], h);
    var here := OfHash(chains[Index(h, |chains|)], h);
    assert Reversed(here) + [] == Reversed(here) && Reversed(Reversed(here)) + [] == Reversed(Reversed(here));
    assert Empty(n)[Index(h, n)] == [];
    ReversedTwice(here);
  }

  lemma SameRehashed(chains: seq<seq<Key>>, keys: seq<Key>, n: nat, all: set<Key>)
    requires n > 0 && Sound(chains, all) && SameOrder(chains, keys)
    ensures SameOrder(Rehashed(chains, n), keys)
  {
    hide Index, Hash, OfHash, Sound;
    if |chains| > 0 {
      forall h: bv32 ensures OfHash(Rehashed(chains, n)[Index(h, n)], h) == OfHash(keys, h) {
        RehashOfHash(chains, n, all, h);
      }
    } else {
      assert PoolOf(chains, 0, []) == [];
      assert Rehashed(chains, n) == Empty(n);
      forall h: bv32 ensures OfHash(Empty(n)[Index(h, n)], h) == OfHash(keys, h) {
        OfHashNone([], h);
      }
    }
  }

  lemma SameEmpty()
    ensures SameOrder(Empty(0), [])
  {
  }

  /** A resize changes no look-up, whatever keys there are. */
  lemma ResizeKeepsLookups(chains: seq<seq<Key>>, n: nat, keys: set<Key>, key: Key)
    requires n > 0 && Sound(chains, keys)
    ensures Found(Rehashed(chains, n), key) == Found(chains, key)
  {
    hide Index, Hash, Matches, OfHash, First, Rehashed;
    if |chains| > 0 {
      var c, d := chains[Place(chains, key)], Rehashed(chains, n)[Index(Hash(key), n)];
      RehashOfHash(chains, n, keys, Hash(key));
      HitOfHash(c, key);
      HitOfHash(d, key);
      HitIsFirst(c, key);
      HitIsFirst(d, key);
    } else {
      SameEmpty();
      assert chains == Empty(0);
      SameRehashed(chains, [], n, keys);
      SameFound(Rehashed(chains, n), [], key);
      NoHit(key);
    }
  }

  // ---------------------------------------------------------------------------------------------
  // Runs
  // ---------------------------------------------------------------------------------------------

  ghost predicate Agree<V>(t: Table<V>, a: Assoc<V>) {
    t.contents == a.contents && Sound(t.chains, t.contents.Keys) && SameOrder(t.chains, a.keys)
  }

  lemma StepAgrees<V>(t: Table<V>, a: Assoc<V>, op: Op<V>)
    requires Agree(t, a)
    ensures Agree(Step(t, op), ListStep(a, op)) && Answer(t, op) == ListAnswer(a, op)
  {
    SameFound(t.chains, a.keys, op.key);
    hide Hash, Index, Matches, First, OfHash, Sound, SameOrder, Rehashed, Pushed, Without, Miss, Hit;
    match op {
      case Put(k, v) =>
        SetSound(t, k, v);
        if Found(t.chains, k).None? {
          var n := Grown(|t.chains|, |t.contents|);
          if |t.contents| >= |t.chains| {
            SameRehashed(t.chains, a.keys, n, t.contents.Keys);
          }
          SamePushed(WithRoom(t), a.keys, k);
        }
      case Drop(k) =>
        RemoveSound(t, k);
        if Found(t.chains, k).Some? {
          SameRemoved(t.chains, a.keys, k);
        }
      case Ask(_) =>
    }
  }

  lemma {:induction false} RunAgrees<V>(t: Table<V>, a: Assoc<V>, ops: seq<Op<V>>)
    requires Agree(t, a)
    ensures Answers(t, ops) == ListAnswers(a, ops)
    decreases |ops|
  {
    hide Agree, Step, ListStep, Answer, ListAnswer;
    if ops != [] {
      StepAgrees(t, a, ops[0]);
      RunAgrees(Step(t, ops[0]), ListStep(a, ops[0]), ops[1..]);
    }
  }

  /** Every run on a map that starts with any number of empty buckets answers like the run on the empty list. */
  lemma RunIsListRun<V>(n: nat, ops: seq<Op<V>>)
    ensures Answers(NewTable<V>(n), ops) == ListAnswers(Assoc([], map[]), ops)
  {
    EmptySound(n);
    assert SameOrder(Empty(n), []) by {
      hide Hash, Index;
      forall h: bv32 | n > 0 ensures OfHash(Empty(n)[Index(h, n)], h) == OfHash([], h) {
      }
    }
    RunAgrees(NewTable<V>(n), Assoc([], map[]), ops);
  }

  // ---------------------------------------------------------------------------------------------
  // Sizes
  // ---------------------------------------------------------------------------------------------

  function Max(a: nat, b: nat): nat {
    if a < b then b else a
  }

  /** The largest number of keys that a run has in the map at once. */
  function Peak<V>(t: Table<V>, ops: seq<Op<V>>): nat
    decreases |ops|
  {
    Max(|t.contents|, if ops == [] then 0 else Peak(Step(t, ops[0]), ops[1..]))
  }

  /** The buckets for at most `peak` keys: none, 32, or the least larger power of two with a bucket for every key. */
  ghost predicate Tight(buckets: nat, peak: nat) {
    if peak == 0 then buckets == 0
    else Round(buckets) && peak <= buckets && (buckets == DEFAULT_BUCKETS || buckets < 2 * peak)
  }

  /** How a step changes the number of keys, and whether it needs room for one more. */
  lemma StepCounts<V>(t: Table<V>, op: Op<V>)
    requires Sound(t.chains, t.contents.Keys)
    ensures (|Step(t, op).chains| == |t.chains| && |Step(t, op).contents| <= |t.contents|) ||
            (|Step(t, op).chains| == Grown(|t.chains|, |t.contents|) && |Step(t, op).contents| == |t.contents| + 1)
  {
    hide Sound, Place, Matches, Rehashed, Grown, Without, Found, WithRoom;
    FoundInside(t.chains, t.contents.Keys, op.key);
    match op {
      case Put(k, v) =>
        if Found(t.chains, k).Some? {
          assert t.contents[Found(t.chains, k).value := v].Keys == t.contents.Keys;
        } else {
          assert t.contents[k := v].Keys == t.contents.Keys + {k};
        }
      case Drop(k) =>
        if Found(t.chains, k).Some? {
          assert (t.contents - {Found(t.chains, k).value}).Keys <= t.contents.Keys;
          Smaller((t.contents - {Found(t.chains, k).value}).Keys, t.contents.Keys);
        }
      case Ask(_) =>
    }
  }

  lemma NoneIsRound()
    ensures Round(0)
  {
  }

  lemma StepTight<V>(t: Table<V>, op: Op<V>, peak: nat)
    requires Sound(t.chains, t.contents.Keys) && Tight(|t.chains|, peak) && |t.contents| <= peak
    ensures Tight(|Step(t, op).chains|, Max(peak, |Step(t, op).contents|))
  {
    hide Sound, Round, Step;
    StepCounts(t, op);
    if |t.contents| <= |t.chains| && Round(|t.chains|) {
      GrownRound(|t.chains|, |t.contents|);
    }
    NoneIsRound();
  }

  lemma {:induction false} RunTight<V>(t: Table<V>, ops: seq<Op<V>>, peak: nat)
    requires Sound(t.chains, t.contents.Keys) && Tight(|t.chains|, peak) && |t.contents| <= peak
    ensures Tight(|Run(t, ops).chains|, Max(peak, Peak(t, ops)))
    decreases |ops|
  {
    hide Sound, Tight, Step;
    if ops != [] {
      StepSound(t, ops[0]);
      StepTight(t, ops[0], peak);
      RunTight(Step(t, ops[0]), ops[1..], Max(peak, |Step(t, ops[0]).contents|));
    }
  }

  /** The number of buckets that a run has made is determined by the largest number of keys in it. */
  lemma GrowthExact<V>(ops: seq<Op<V>>)
    ensures Tight(|Run(NewTable<V>(0), ops).chains|, Peak(NewTable<V>(0), ops))
  {
    EmptySound(0);
    RunTight(NewTable<V>(0), ops, 0);
  }
}
