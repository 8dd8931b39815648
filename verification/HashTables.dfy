/**
 What the hash map does, as functions on a table: the keys in the order of the chains, and the values. The
 laws say when a table is as good as a map from keys to values, for one look-up and for whole runs.
 */
module HashTables {
  import opened Basics
  import Arithmetic

  type Key = seq<bv8>

  const DEFAULT_BUCKETS: nat := 32

  // ---------------------------------------------------------------------------------------------
  // Hashes and bucket numbers
  // ---------------------------------------------------------------------------------------------

  /** A byte as a character becomes an int: bytes from 128 on are negative and are sign-extended. */
  function Signed(b: bv8): bv32 {
    (b as bv32) | (if b >= 0x80 then 0xFFFF_FF00 else 0)
  }

  /** One byte more. */
  function Mix(h: bv32, b: bv8): bv32 {
    (h ^ Signed(b)) * 16777619
  }

  function Hash(k: Key): bv32 {
    if k == [] then 2166136261 else Mix(Hash(k[..|k| - 1]), k[|k| - 1])
  }

  /** The loop over the bytes. */
  method HashOf(k: Key) returns (h: bv32)
    ensures h == Hash(k)
  {
    h := 2166136261;
    var i := 0;
    while i < |k|
      invariant 0 <= i <= |k| && h == Hash(k[..i])
    {
      assert k[..i + 1][..i] == k[..i];
      h := Mix(h, k[i]);
      i := i + 1;
    }
    assert k[..|k|] == k;
  }

  /** Bitwise and. */
  function And(a: nat, b: nat): (r: nat)
    ensures r <= b
  {
    if b == 0 then 0 else 2 * And(a / 2, b / 2) + (a % 2) * (b % 2)
  }

  function Index(h: bv32, buckets: nat): (r: nat)
    requires buckets > 0
    ensures r < buckets
  {
    And(h as nat, buckets - 1)
  }

  lemma MaskOfOne(a: nat)
    ensures And(a, 0) == 0 == a % 1
  {
  }

  lemma MaskStep(a: nat, m: nat)
    requires m > 0
    ensures And(a, 2 * m - 1) == 2 * And(a / 2, m - 1) + a % 2
  {
    assert (2 * m - 1) / 2 == m - 1 && (2 * m - 1) % 2 == 1;
  }

  lemma RemainderIs(a: nat, d: nat, q: nat, r: nat)
    requires d > 0 && r < d && a == d * q + r
    ensures a % d == r
  {
    Arithmetic.DivMod(a, d);
    Arithmetic.MulGrows(d, q - a / d);
    assert d * (q - a / d) == d * q - d * (a / d);
  }

  lemma HalfRemainder(a: nat, m: nat)
    requires m > 0
    ensures a % (2 * m) == 2 * (a / 2 % m) + a % 2
  {
    var h := a / 2;
    Arithmetic.DivMod(h, m);
    assert a == 2 * h + a % 2;
    assert 2 * (m * (h / m)) == 2 * m * (h / m);
    RemainderIs(a, 2 * m, h / m, 2 * (h % m) + a % 2);
  }

  /** One more bit in the mask. */
  lemma MaskTwice(a: nat, m: nat)
    requires m > 0 && And(a / 2, m - 1) == a / 2 % m
    ensures And(a, 2 * m - 1) == a % (2 * m)
  {
    HalfRemainder(a, m);
    MaskStep(a, m);
  }

  /** With a power of two the mask is the remainder, so that all buckets can be reached. */
  lemma {:induction false} MaskIsRemainder(a: nat, k: nat)
    ensures Pow2(k) > 0 && And(a, Pow2(k) - 1) == a % Pow2(k)
  {
    hide And;
    if k == 0 {
      MaskOfOne(a);
    } else {
      var m := Pow2(k - 1);
      assert Pow2(k) == 2 * m;
      MaskIsRemainder(a / 2, k - 1);
      hide Pow2;
      MaskTwice(a, m);
    }
  }

  // ---------------------------------------------------------------------------------------------
  // Matching
  // ---------------------------------------------------------------------------------------------

  /** strncmp with the length of the key: it is a prefix of the stored one. */
  predicate StartsWith(stored: Key, key: Key) {
    |key| <= |stored| && stored[..|key|] == key
  }

  /** What a look-up takes for equal. */
  predicate Matches(stored: Key, key: Key) {
    Hash(stored) == Hash(key) && StartsWith(stored, key)
  }

  /** No stored key other than `key` has its hash and begins with it. */
  predicate Unmistakable(keys: set<Key>, key: Key) {
    forall k :: k in keys && Matches(k, key) ==> k == key
  }

  lemma MatchesItself(key: Key)
    ensures Matches(key, key)
  {
  }

  lemma MatchesIs(stored: Key, key: Key)
    ensures Matches(stored, key) <==> Hash(stored) == Hash(key) && StartsWith(stored, key)
  {
  }

  const SHORT_KEY: Key := [0x78]
  const LONG_KEY: Key := [0x78, 0x4C, 0x58, 0x74, 0x62, 0x49, 0x61]

  lemma OneMore(k: Key, b: bv8, l: Key)
    requires l == k + [b]
    ensures Hash(l) == Mix(Hash(k), b)
  {
    assert l[..|k|] == k;
  }

  lemma NoByte()
    ensures Hash([]) == 2166136261
  {
  }

  /** Two keys of one hash, "x" and "xLXtbIa", the one the beginning of the other. */
  lemma HashesCollide()
    ensures Hash(SHORT_KEY) == Hash(LONG_KEY) && Matches(LONG_KEY, SHORT_KEY)
  {
    hide Hash;
    NoByte();
    OneMore([], 0x78, [0x78]);
    OneMore([0x78], 0x4C, [0x78, 0x4C]);
    OneMore([0x78, 0x4C], 0x58, [0x78, 0x4C, 0x58]);
    OneMore([0x78, 0x4C, 0x58], 0x74, [0x78, 0x4C, 0x58, 0x74]);
    OneMore([0x78, 0x4C, 0x58, 0x74], 0x62, [0x78, 0x4C, 0x58, 0x74, 0x62]);
    OneMore([0x78, 0x4C, 0x58, 0x74, 0x62], 0x49, [0x78, 0x4C, 0x58, 0x74, 0x62, 0x49]);
    OneMore([0x78, 0x4C, 0x58, 0x74, 0x62, 0x49], 0x61, LONG_KEY);
  }

  // ---------------------------------------------------------------------------------------------
  // Tables
  // ---------------------------------------------------------------------------------------------

  /** The keys of every bucket from its head on, and the values of all keys. */
  datatype Table<V> = Table(chains: seq<seq<Key>>, contents: map<Key, V>)

  /** The first key of a chain that is taken for `key`, or the end. */
  function First(c: seq<Key>, key: Key): (i: nat)
    ensures i <= |c| && forall j :: 0 <= j < i ==> !Matches(c[j], key)
    ensures i < |c| ==> Matches(c[i], key)
  {
    if c == [] || Matches(c[0], key) then 0 else 1 + First(c[1..], key)
  }

  lemma FirstIs(c: seq<Key>, key: Key, i: nat)
    requires i <= |c| && (forall j :: 0 <= j < i ==> !Matches(c[j], key)) && (i < |c| ==> Matches(c[i], key))
    ensures First(c, key) == i
  {
  }

  function Place(t: seq<seq<Key>>, key: Key): (b: nat)
    requires |t| > 0
    ensures b < |t|
  {
    Index(Hash(key), |t|)
  }

  /** Map_get_ref_: the stored key that a look-up hits. */
  function Found(chains: seq<seq<Key>>, key: Key): Option<Key> {
    if |chains| == 0 then None
    else
      var c := chains[Place(chains, key)];
      var i := First(c, key);
      if i < |c| then Some(c[i]) else None
  }

  function Get<V>(t: Table<V>, key: Key): Option<V> {
    match Found(t.chains, key)
    case None => None
    case Some(k) => if k in t.contents then Some(t.contents[k]) else None
  }

  function Pushed(chains: seq<seq<Key>>, key: Key): (r: seq<seq<Key>>)
    requires |chains| > 0
    ensures |r| == |chains|
  {
    var b := Place(chains, key);
    chains[b := [key] + chains[b]]
  }

  function Reversed<X>(s: seq<X>): seq<X> {
    if s == [] then [] else Reversed(s[1..]) + [s[0]]
  }

  /** All keys chained into one list, the buckets taken from the last to the first. */
  function PoolOf(chains: seq<seq<Key>>, i: nat, pool: seq<Key>): seq<Key>
    requires i <= |chains|
  {
    if i == 0 then pool else PoolOf(chains, i - 1, Reversed(chains[i - 1]) + pool)
  }

  function Poured(chains: seq<seq<Key>>, pool: seq<Key>): (r: seq<seq<Key>>)
    requires |chains| > 0
    ensures |r| == |chains|
    decreases |pool|
  {
    if pool == [] then chains else Poured(Pushed(chains, pool[0]), pool[1..])
  }

  function Empty(n: nat): (r: seq<seq<Key>>)
    ensures |r| == n && forall i :: 0 <= i < n ==> r[i] == []
  {
    seq(n, i => [])
  }

  /** Map_resize_ */
  function Rehashed(chains: seq<seq<Key>>, n: nat): (r: seq<seq<Key>>)
    requires n > 0
    ensures |r| == n
  {
    Poured(Empty(n), PoolOf(chains, |chains|, []))
  }

  /** The number of buckets after one more node. */
  function Grown(buckets: nat, nodes: nat): (n: nat)
    ensures n > 0
  {
    if nodes < buckets then buckets else if buckets < DEFAULT_BUCKETS then DEFAULT_BUCKETS else 2 * buckets
  }

  function WithRoom<V>(t: Table<V>): (r: seq<seq<Key>>)
    ensures |r| == Grown(|t.chains|, |t.contents|)
  {
    if |t.contents| < |t.chains| then t.chains else Rehashed(t.chains, Grown(|t.chains|, |t.contents|))
  }

  /** Map_set_ */
  function Set<V>(t: Table<V>, key: Key, value: V): Table<V> {
    match Found(t.chains, key)
    case Some(k) => t.(contents := t.contents[k := value])
    case None => Table(Pushed(WithRoom(t), key), t.contents[key := value])
  }

  /** Map_remove_ */
  function Removed<V>(t: Table<V>, key: Key): Table<V> {
    match Found(t.chains, key)
    case None => t
    case Some(k) =>
      var b := Place(t.chains, key);
      Table(t.chains[b := Without(t.chains[b], First(t.chains[b], key))], t.contents - {k})
  }

  // ---------------------------------------------------------------------------------------------
  // Sound tables
  // ---------------------------------------------------------------------------------------------

  ghost predicate ChainSound(chains: seq<seq<Key>>, i: nat, keys: set<Key>)
    requires i < |chains|
  {
    NoRepeat(chains[i]) && forall k :: k in chains[i] ==> k in keys && Place(chains, k) == i
  }

  ghost predicate Holds(chains: seq<seq<Key>>, k: Key) {
    |chains| > 0 && k in chains[Place(chains, k)]
  }

  /** Every key stands once, in the bucket of its hash. */
  ghost predicate Sound(chains: seq<seq<Key>>, keys: set<Key>) {
    (forall i :: 0 <= i < |chains| ==> ChainSound(chains, i, keys)) && forall k :: k in keys ==> Holds(chains, k)
  }

  lemma NoRepeatJoin<X>(a: seq<X>, b: seq<X>)
    requires NoRepeat(a) && NoRepeat(b) && forall x :: x in a ==> x !in b
    ensures NoRepeat(a + b)
  {
    var s := a + b;
    forall i, j | 0 <= i < j < |s| ensures s[i] != s[j] {
      if i < |a| <= j {
        assert s[i] in a && s[j] in b;
      }
    }
  }

  lemma {:induction false} ReversedMembers<X>(s: seq<X>)
    requires NoRepeat(s)
    ensures NoRepeat(Reversed(s)) && forall x :: x in Reversed(s) <==> x in s
    decreases |s|
  {
    if s != [] {
      ReversedMembers(s[1..]);
      NoRepeatJoin(Reversed(s[1..]), [s[0]]);
    }
  }

  /** The pool holds every key of the buckets from `i` on, once. */
  lemma {:induction false} PoolMembers(chains: seq<seq<Key>>, i: nat, pool: seq<Key>, keys: set<Key>)
    requires i <= |chains| && Sound(chains, keys) && NoRepeat(pool)
    requires forall k :: k in pool <==> k in keys && |chains| > 0 && Place(chains, k) >= i
    ensures NoRepeat(PoolOf(chains, i, pool)) && forall k :: k in PoolOf(chains, i, pool) <==> k in keys
    decreases i
  {
    hide Place, NoRepeat;
    if i > 0 {
      var c := chains[i - 1];
      assert ChainSound(chains, i - 1, keys);
      ReversedMembers(c);
      NoRepeatJoin(Reversed(c), pool);
      forall k ensures k in Reversed(c) + pool <==> k in keys && Place(chains, k) >= i - 1 {
        if k in keys && Place(chains, k) == i - 1 {
          assert Holds(chains, k);
        }
      }
      PoolMembers(chains, i - 1, Reversed(c) + pool, keys);
    } else {
      assert forall k :: k in keys ==> Holds(chains, k);
    }
  }

  lemma PushSound(chains: seq<seq<Key>>, key: Key, keys: set<Key>)
    requires |chains| > 0 && Sound(chains, keys) && key !in keys
    ensures Sound(Pushed(chains, key), keys + {key})
  {
    hide Index, Hash;
    var now, b := Pushed(chains, key), Place(chains, key);
    forall i | 0 <= i < |now| ensures ChainSound(now, i, keys + {key}) {
      assert ChainSound(chains, i, keys);
    }
    forall k | k in keys ensures Holds(now, k) {
      assert Holds(chains, k);
    }
  }

  lemma {:induction false} PourSound(chains: seq<seq<Key>>, pool: seq<Key>, keys: set<Key>)
    requires |chains| > 0 && Sound(chains, keys) && NoRepeat(pool) && forall k :: k in pool ==> k !in keys
    ensures Sound(Poured(chains, pool), keys + set k | k in pool)
    decreases |pool|
  {
    hide Sound, Pushed;
    if pool == [] {
      assert keys + (set k | k in pool) == keys;
    } else {
      PushSound(chains, pool[0], keys);
      assert forall k :: k in pool[1..] ==> k in pool && k != pool[0];
      PourSound(Pushed(chains, pool[0]), pool[1..], keys + {pool[0]});
      assert pool == [pool[0]] + pool[1..];
      assert keys + {pool[0]} + (set k | k in pool[1..]) == keys + set k | k in pool;
    }
  }

  lemma EmptySound(n: nat)
    ensures Sound(Empty(n), {})
  {
    forall i | 0 <= i < n ensures ChainSound(Empty(n), i, {}) {
    }
  }

  lemma RehashSound(chains: seq<seq<Key>>, keys: set<Key>, n: nat)
    requires n > 0 && Sound(chains, keys)
    ensures Sound(Rehashed(chains, n), keys)
  {
    PoolMembers(chains, |chains|, [], keys);
    var pool := PoolOf(chains, |chains|, []);
    EmptySound(n);
    hide Sound;
    PourSound(Empty(n), pool, {});
    assert {} + (set k | k in pool) == keys;
  }

  /** A look-up hits a stored key of the same hash, and it hits one if any is taken for the key. */
  lemma FoundInside(chains: seq<seq<Key>>, keys: set<Key>, key: Key)
    requires Sound(chains, keys)
    ensures Found(chains, key).Some? ==> Found(chains, key).value in keys && Matches(Found(chains, key).value, key)
    ensures Found(chains, key).None? <==> forall k :: k in keys ==> !Matches(k, key)
    ensures Found(chains, key).None? ==> key !in keys
  {
    hide Index, Hash, StartsWith;
    MatchesItself(key);
    if |chains| > 0 {
      var b := Place(chains, key);
      assert ChainSound(chains, b, keys);
      forall k | k in keys && Matches(k, key) ensures k in chains[b] {
        assert Holds(chains, k) && Hash(k) == Hash(key);
      }
    } else {
      assert forall k :: k in keys ==> Holds(chains, k);
    }
  }

  lemma SetSound<V>(t: Table<V>, key: Key, value: V)
    requires Sound(t.chains, t.contents.Keys)
    ensures Sound(Set(t, key, value).chains, Set(t, key, value).contents.Keys)
  {
    hide Sound, Matches, Place, Pushed, Rehashed, Grown;
    match Found(t.chains, key) {
      case Some(k) =>
        FoundInside(t.chains, t.contents.Keys, key);
        assert t.contents[k := value].Keys == t.contents.Keys;
      case None =>
        FoundInside(t.chains, t.contents.Keys, key);
        if |t.contents| >= |t.chains| {
          RehashSound(t.chains, t.contents.Keys, Grown(|t.chains|, |t.contents|));
        }
        PushSound(WithRoom(t), key, t.contents.Keys);
        assert t.contents[key := value].Keys == t.contents.Keys + {key};
    }
  }

  lemma WithoutRepeat<X>(s: seq<X>, i: nat)
    requires i < |s| && NoRepeat(s)
    ensures NoRepeat(Without(s, i)) && forall x :: x in Without(s, i) <==> x in s && x != s[i]
  {
    var t := Without(s, i);
    assert forall j :: 0 <= j < |t| ==> t[j] == s[if j < i then j else j + 1];
    forall x | x in s && x != s[i] ensures x in t {
      var j :| 0 <= j < |s| && s[j] == x;
      assert t[if j < i then j else j - 1] == x;
    }
  }

  lemma RemoveSound<V>(t: Table<V>, key: Key)
    requires Sound(t.chains, t.contents.Keys)
    ensures Sound(Removed(t, key).chains, Removed(t, key).contents.Keys)
  {
    hide Matches, Index, Hash, NoRepeat;
    if Found(t.chains, key).Some? {
      var b := Place(t.chains, key);
      var i := First(t.chains[b], key);
      var k := t.chains[b][i];
      assert ChainSound(t.chains, b, t.contents.Keys);
      WithoutRepeat(t.chains[b], i);
      var now, less := t.chains[b := Without(t.chains[b], i)], t.contents - {k};
      assert less.Keys == t.contents.Keys - {k};
      forall j | 0 <= j < |now| ensures ChainSound(now, j, less.Keys) {
        assert ChainSound(t.chains, j, t.contents.Keys);
      }
      forall x | x in less.Keys ensures Holds(now, x) {
        assert Holds(t.chains, x);
      }
    }
  }

  // ---------------------------------------------------------------------------------------------
  // When one look-up is exact
  // ---------------------------------------------------------------------------------------------

  /** What a map would find. */
  function Own<V>(contents: map<Key, V>, key: Key): Option<Key> {
    if key in contents then Some(key) else None
  }

  /** Another key that is taken for `key` stands in the chain, and `key` itself not in front of it. */
  ghost predicate Mistaken(c: seq<Key>, key: Key) {
    exists i :: 0 <= i < |c| && c[i] != key && Matches(c[i], key) && key !in c[..i]
  }

  lemma MistakenFirst(c: seq<Key>, key: Key)
    ensures Mistaken(c, key) <==> First(c, key) < |c| && c[First(c, key)] != key
  {
    hide Matches;
    var i := First(c, key);
    MatchesItself(key);
    if Mistaken(c, key) {
      var j :| 0 <= j < |c| && c[j] != key && Matches(c[j], key) && key !in c[..j];
      assert c[i] != key by {
        assert i < j ==> c[..j][i] == c[i];
      }
    }
    if i < |c| && c[i] != key {
      assert forall j :: 0 <= j < i ==> c[..i][j] == c[j];
    }
  }

  /**
   The look-up of a key is that of a map exactly when no other key that is taken for it stands in its bucket
   in front of it: no stored key of equal hash that begins with it for a key that is not stored, and none
   that was put there later for a stored one.
   */
  lemma LookUpExact<V>(t: Table<V>, key: Key)
    requires Sound(t.chains, t.contents.Keys) && |t.chains| > 0
    ensures Found(t.chains, key) == Own(t.contents, key) <==> !Mistaken(t.chains[Place(t.chains, key)], key)
  {
    hide Index, Hash, Matches;
    MistakenFirst(t.chains[Place(t.chains, key)], key);
    FoundInside(t.chains, t.contents.Keys, key);
    assert ChainSound(t.chains, Place(t.chains, key), t.contents.Keys);
    hide ChainSound, Mistaken;
  }

  /** For a key that is not stored it is so exactly when no stored key is taken for it, wherever it stands. */
  lemma AbsentExact<V>(t: Table<V>, key: Key)
    requires Sound(t.chains, t.contents.Keys) && key !in t.contents
    ensures Found(t.chains, key) == None <==> Unmistakable(t.contents.Keys, key)
  {
    FoundInside(t.chains, t.contents.Keys, key);
  }

  /** No two different keys of the set can be taken for each other. */
  ghost predicate Distinguishable(keys: set<Key>) {
    forall k :: k in keys ==> Unmistakable(keys, k)
  }

  lemma DistinguishableFinds(chains: seq<seq<Key>>, keys: set<Key>, all: set<Key>, key: Key)
    requires Sound(chains, keys) && keys <= all && key in all && Distinguishable(all)
    ensures Found(chains, key) == if key in keys then Some(key) else None
  {
    hide Matches, Sound;
    FoundInside(chains, keys, key);
    assert Unmistakable(all, key);
  }

  // ---------------------------------------------------------------------------------------------
  // Runs
  // ---------------------------------------------------------------------------------------------

  datatype Op<V> = Put(key: Key, value: V) | Drop(key: Key) | Ask(key: Key)

  function Step<V>(t: Table<V>, op: Op<V>): Table<V> {
    match op
    case Put(k, v) => Set(t, k, v)
    case Drop(k) => Removed(t, k)
    case Ask(_) => t
  }

  function Answer<V>(t: Table<V>, op: Op<V>): Option<V> {
    if op.Ask? then Get(t, op.key) else None
  }

  function Run<V>(t: Table<V>, ops: seq<Op<V>>): Table<V>
    decreases |ops|
  {
    if ops == [] then t else Run(Step(t, ops[0]), ops[1..])
  }

  function Answers<V>(t: Table<V>, ops: seq<Op<V>>): seq<Option<V>>
    decreases |ops|
  {
    if ops == [] then [] else [Answer(t, ops[0])] + Answers(Step(t, ops[0]), ops[1..])
  }

  /** The same on a map. */
  function MapStep<V>(m: map<Key, V>, op: Op<V>): map<Key, V> {
    match op
    case Put(k, v) => m[k := v]
    case Drop(k) => m - {k}
    case Ask(_) => m
  }

  function MapAnswer<V>(m: map<Key, V>, op: Op<V>): Option<V> {
    if op.Ask? && op.key in m then Some(m[op.key]) else None
  }

  function MapRun<V>(m: map<Key, V>, ops: seq<Op<V>>): map<Key, V>
    decreases |ops|
  {
    if ops == [] then m else MapRun(MapStep(m, ops[0]), ops[1..])
  }

  function MapAnswers<V>(m: map<Key, V>, ops: seq<Op<V>>): seq<Option<V>>
    decreases |ops|
  {
    if ops == [] then [] else [MapAnswer(m, ops[0])] + MapAnswers(MapStep(m, ops[0]), ops[1..])
  }

  predicate Over<V>(ops: seq<Op<V>>, keys: set<Key>) {
    forall i :: 0 <= i < |ops| ==> ops[i].key in keys
  }

  lemma StepSound<V>(t: Table<V>, op: Op<V>)
    requires Sound(t.chains, t.contents.Keys)
    ensures Sound(Step(t, op).chains, Step(t, op).contents.Keys)
  {
    hide Sound, Set, Removed;
    match op {
      case Put(k, v) => SetSound(t, k, v);
      case Drop(k) => RemoveSound(t, k);
      case Ask(_) =>
    }
  }

  lemma StepIsMapStep<V>(t: Table<V>, op: Op<V>, keys: set<Key>)
    requires Sound(t.chains, t.contents.Keys) && t.contents.Keys <= keys && op.key in keys && Distinguishable(keys)
    ensures Step(t, op).contents == MapStep(t.contents, op) && Answer(t, op) == MapAnswer(t.contents, op)
  {
    hide Sound, Distinguishable, Found;
    DistinguishableFinds(t.chains, t.contents.Keys, keys, op.key);
    if op.key !in t.contents {
      assert t.contents - {op.key} == t.contents;
    }
  }

  /** Over keys that can be told apart, every run has the contents and the answers of a map. */
  lemma {:induction false} RunIsMapRun<V>(t: Table<V>, ops: seq<Op<V>>, keys: set<Key>)
    requires Sound(t.chains, t.contents.Keys) && t.contents.Keys <= keys && Over(ops, keys) && Distinguishable(keys)
    ensures Run(t, ops).contents == MapRun(t.contents, ops) && Answers(t, ops) == MapAnswers(t.contents, ops)
    decreases |ops|
  {
    hide Sound, Distinguishable, Step, Answer, MapAnswer;
    if ops != [] {
      StepIsMapStep(t, ops[0], keys);
      StepSound(t, ops[0]);
      RunIsMapRun(Step(t, ops[0]), ops[1..], keys);
    }
  }

  function NewTable<V>(n: nat): Table<V> {
    Table(Empty(n), map[])
  }

  lemma FirstPut<V>(n: nat, key: Key, v: V)
    ensures var t := Set(NewTable<V>(n), key, v);
            && |t.chains| == (if n == 0 then DEFAULT_BUCKETS else n)
            && t.contents == map[key := v] && t.chains == Pushed(Empty(|t.chains|), key)
  {
    hide Matches, Index, Hash;
    assert Found(Empty(n), key) == None;
    if n == 0 {
      assert PoolOf(Empty(0), 0, []) == [];
      assert Rehashed(Empty(0), DEFAULT_BUCKETS) == Empty(DEFAULT_BUCKETS);
    }
  }

  /** A key that is stored with a longer one of its hash is not asked for, and still answered. */
  lemma AbsentIsMistaken<V>(n: nat, k: Key, other: Key, v: V)
    requires k != other && Matches(other, k)
    ensures Answers(NewTable<V>(n), [Put(other, v), Ask(k)]) == [None, Some(v)]
    ensures MapAnswers<V>(map[], [Put(other, v), Ask(k)]) == [None, None]
  {
    var t := NewTable<V>(n);
    var t1 := Set(t, other, v);
    FirstPut(n, other, v);
    hide Matches, Index, Set;
    MatchesIs(other, k);
    assert t1.chains[Place(t1.chains, k)] == [other];
    assert Get(t1, k) == Some(v);
    assert Answers(t1, [Ask(k)]) == [Some(v)];
    assert [Put(other, v), Ask(k)][1..] == [Ask(k)];
    assert MapAnswers(map[other := v], [Ask(k)]) == [None];
  }

  /** The longer key, which does not begin the shorter one, gets a node of its own in front. */
  lemma SecondPut<V>(t: Table<V>, k: Key, other: Key, v: V, w: V)
    requires |t.chains| > 1 && t == Table(Pushed(Empty(|t.chains|), k), map[k := v])
    requires k != other && Matches(other, k)
    ensures Set(t, other, w) == Table(Pushed(t.chains, other), map[k := v, other := w])
    ensures Pushed(t.chains, other)[Place(t.chains, k)] == [other, k]
  {
    MatchesIs(other, k);
    MatchesIs(k, other);
    assert !StartsWith(k, other);
    hide Matches, Index, Hash, StartsWith;
    assert First([k], other) == 1;
    assert t.chains[Place(t.chains, other)] == [k];
    assert Found(t.chains, other) == None;
    assert |t.contents| == 1;
  }

  lemma HiddenBehind<V>(n: nat, k: Key, other: Key, v: V, w: V)
    requires n != 1 && k != other && Matches(other, k)
    ensures Get(Set(Set(NewTable<V>(n), k, v), other, w), k) == Some(w)
  {
    var t1 := Set(NewTable<V>(n), k, v);
    FirstPut(n, k, v);
    hide Matches, Index, Hash, Set;
    SecondPut(t1, k, other, v, w);
    assert First([other, k], k) == 0;
  }

  lemma ThreeAnswers<V>(t: Table<V>, a: Op<V>, b: Op<V>, c: Op<V>)
    ensures Answers(t, [a, b, c]) == [Answer(t, a), Answer(Step(t, a), b), Answer(Step(Step(t, a), b), c)]
  {
    hide Step, Answer;
    assert [a, b, c][1..] == [b, c] && [b, c][1..] == [c] && [c][1..] == [];
    assert Answers(Step(Step(t, a), b), [c]) == [Answer(Step(Step(t, a), b), c)];
    assert Answers(Step(t, a), [b, c]) == [Answer(Step(t, a), b), Answer(Step(Step(t, a), b), c)];
  }

  lemma ThreeMapAnswers<V>(m: map<Key, V>, a: Op<V>, b: Op<V>, c: Op<V>)
    ensures MapAnswers(m, [a, b, c]) ==
            [MapAnswer(m, a), MapAnswer(MapStep(m, a), b), MapAnswer(MapStep(MapStep(m, a), b), c)]
  {
    hide MapStep, MapAnswer;
    var n, o := MapStep(m, a), MapStep(MapStep(m, a), b);
    assert [a, b, c][1..] == [b, c] && [b, c][1..] == [c] && [c][1..] == [];
    assert MapAnswers(o, [c]) == [MapAnswer(o, c)];
    assert MapAnswers(n, [b, c]) == [MapAnswer(n, b), MapAnswer(o, c)];
  }

  /** The value of a stored key is hidden by a longer key of its hash that is put later. */
  lemma StoredIsMistaken<V>(n: nat, k: Key, other: Key, v: V, w: V)
    requires n != 1 && k != other && Matches(other, k)
    ensures Answers(NewTable<V>(n), [Put(k, v), Put(other, w), Ask(k)]) == [None, None, Some(w)]
    ensures MapAnswers<V>(map[], [Put(k, v), Put(other, w), Ask(k)]) == [None, None, Some(v)]
  {
    var ops := [Put(k, v), Put(other, w), Ask(k)];
    HiddenBehind(n, k, other, v, w);
    hide Matches, Set, Get;
    ThreeAnswers(NewTable<V>(n), ops[0], ops[1], ops[2]);
    ThreeMapAnswers<V>(map[], ops[0], ops[1], ops[2]);
  }

  /** Both happen with the keys "x" and "xLXtbIa", on a map that starts out empty. */
  lemma CollidingKeys()
    ensures Answers(NewTable<int>(0), [Put(LONG_KEY, 1), Ask(SHORT_KEY)]) == [None, Some(1)]
    ensures Answers(NewTable<int>(0), [Put(SHORT_KEY, 1), Put(LONG_KEY, 2), Ask(SHORT_KEY)]) == [None, None, Some(2)]
  {
    HashesCollide();
    hide Matches;
    AbsentIsMistaken(0, SHORT_KEY, LONG_KEY, 1);
    StoredIsMistaken(0, SHORT_KEY, LONG_KEY, 1, 2);
  }

  /** The keys with which every run from the empty table is that of a map are exactly those that can be told apart. */
  lemma ExactKeys<V(!new)>(n: nat, keys: set<Key>, v: V)
    ensures (forall ops: seq<Op<V>> :: Over(ops, keys) ==> Answers(NewTable(n), ops) == MapAnswers(map[], ops))
       <==> Distinguishable(keys)
  {
    if Distinguishable(keys) {
      EmptySound(n);
      forall ops: seq<Op<V>> | Over(ops, keys) ensures Answers(NewTable(n), ops) == MapAnswers(map[], ops) {
        RunIsMapRun(NewTable(n), ops, keys);
      }
    } else {
      var k, other :| k in keys && other in keys && Matches(other, k) && k != other;
      AbsentIsMistaken(n, k, other, v);
      assert Over([Put(other, v), Ask(k)], keys);
    }
  }

  // ---------------------------------------------------------------------------------------------
  // Sizes
  // ---------------------------------------------------------------------------------------------

  /** No bucket, or a power of two of at least 32 buckets: what a map has that starts out empty. */
  ghost predicate Round(buckets: nat) {
    buckets == 0 || exists k :: k >= 5 && Pow2(k) == buckets
  }

  lemma {:induction false} Pow2Least(k: nat)
    requires k >= 5
    ensures Pow2(k) >= 32
  {
    if k > 5 {
      Pow2Least(k - 1);
    } else {
      assert Pow2(5) == 32;
    }
  }

  lemma GrownRound(buckets: nat, nodes: nat)
    requires Round(buckets) && nodes <= buckets
    ensures Round(Grown(buckets, nodes)) && nodes < Grown(buckets, nodes)
  {
    assert Pow2(5) == 32;
    if buckets > 0 {
      var k :| k >= 5 && Pow2(k) == buckets;
      Pow2Least(k);
      assert Pow2(k + 1) == 2 * buckets;
    }
  }

  lemma Smaller<X>(a: set<X>, b: set<X>)
    requires a <= b
    ensures |a| <= |b|
  {
    if a != {} {
      var x :| x in a;
      Smaller(a - {x}, b - {x});
    }
  }

  lemma StepRound<V>(t: Table<V>, op: Op<V>)
    requires Sound(t.chains, t.contents.Keys) && Round(|t.chains|) && |t.contents| <= |t.chains|
    ensures Round(|Step(t, op).chains|) && |Step(t, op).contents| <= |Step(t, op).chains|
  {
    hide Sound, Round, Place, Matches, Rehashed, Grown;
    FoundInside(t.chains, t.contents.Keys, op.key);
    GrownRound(|t.chains|, |t.contents|);
    match op {
      case Put(k, v) =>
        if Found(t.chains, k).Some? {
          assert t.contents[Found(t.chains, k).value := v].Keys == t.contents.Keys;
        } else {
          assert t.contents[k := v].Keys == t.contents.Keys + {k};
        }
      case Drop(k) =>
        if Found(t.chains, k).Some? {
          assert (t.contents - {Found(t.chains, k).value}).Keys <= t.contents.Keys;
          Smaller((t.contents - {Found(t.chains, k).value}).Keys, t.contents.Keys);
        }
      case Ask(_) =>
    }
  }

  /** In every run from the empty table the number of buckets is round, and there is a bucket for every key. */
  lemma {:induction false} RunRound<V>(t: Table<V>, ops: seq<Op<V>>)
    requires Sound(t.chains, t.contents.Keys) && Round(|t.chains|) && |t.contents| <= |t.chains|
    ensures var r := Run(t, ops);
            Sound(r.chains, r.contents.Keys) && Round(|r.chains|) && |r.contents| <= |r.chains|
    decreases |ops|
  {
    hide Sound, Step, Round;
    if ops != [] {
      StepRound(t, ops[0]);
      StepSound(t, ops[0]);
      RunRound(Step(t, ops[0]), ops[1..]);
    }
  }
}
