/**
 The chained hash map: an array of buckets, each the head of a list of nodes that is relinked in place.
 Every method is proved to do what the functions of HashTables say.
 */
module HashMaps {
  import opened Basics
  import opened HashTables

  // ---------------------------------------------------------------------------------------------
  // Chains
  // ---------------------------------------------------------------------------------------------

  class MapNode<V> {
    const key: Key
    const hash: bv32
    var value: V
    var next: MapNode?<V>

    constructor (key: Key, value: V)
      ensures this.key == key && hash == Hash(key) && this.value == value
    {
      this.key := key;
      this.hash := Hash(key);
      this.value := value;
      next := null;
    }
  }

  /** The nodes of `s` are chained from `head` to the end. */
  ghost predicate List<V>(head: MapNode?<V>, s: seq<MapNode<V>>)
    reads s`next
  {
    if s == [] then head == null else head == s[0] && List(s[0].next, s[1..])
  }

  lemma ListStep<V>(head: MapNode?<V>, s: seq<MapNode<V>>)
    requires List(head, s)
    ensures head == null <==> s == []
    ensures s != [] ==> head == s[0] && List(s[0].next, s[1..])
  {
  }

  lemma ListPush<V>(x: MapNode<V>, s: seq<MapNode<V>>)
    requires List(x.next, s)
    ensures List(x, [x] + s)
  {
    assert ([x] + s)[1..] == s;
  }

  lemma NoRepeatPush<X>(x: X, s: seq<X>)
    requires NoRepeat(s) && x !in s
    ensures NoRepeat([x] + s)
  {
  }

  lemma NoRepeatTail<X>(s: seq<X>)
    requires NoRepeat(s) && s != []
    ensures NoRepeat(s[1..]) && s[0] !in s[1..]
  {
  }

  ghost function NextIn<V>(s: seq<MapNode<V>>, i: int): MapNode?<V> {
    if 0 <= i + 1 < |s| then s[i + 1] else null
  }

  /** A chain by its links. */
  lemma {:induction false} ListLinks<V>(head: MapNode?<V>, s: seq<MapNode<V>>)
    ensures List(head, s) <==> head == NextIn(s, -1) && forall i :: 0 <= i < |s| ==> s[i].next == NextIn(s, i)
    decreases |s|
  {
    if s != [] {
      var t := s[1..];
      ListLinks(s[0].next, t);
      assert NextIn(s, 0) == NextIn(t, -1);
      assert forall i :: 0 <= i < |t| ==> t[i] == s[i + 1] && NextIn(t, i) == NextIn(s, i + 1);
      assert forall i :: 1 <= i < |s| ==> s[i] == t[i - 1] && NextIn(t, i - 1) == NextIn(s, i);
    }
  }

  /** The links after the node at `i` has been passed over. */
  lemma ListWithout<V>(head: MapNode?<V>, s: seq<MapNode<V>>, i: nat)
    requires i < |s| && head == (if i == 0 then NextIn(s, 0) else NextIn(s, -1))
    requires forall j :: 0 <= j < |s| && j != i - 1 ==> s[j].next == NextIn(s, j)
    requires i > 0 ==> s[i - 1].next == NextIn(s, i)
    ensures List(head, Without(s, i))
  {
    var t := Without(s, i);
    forall j | 0 <= j < |t| ensures t[j].next == NextIn(t, j) {
      assert t[j] == s[if j < i then j else j + 1];
    }
    ListLinks(head, t);
  }

  /** The keys of a chain, and of all chains. */
  ghost function Keys<V>(s: seq<MapNode<V>>): (r: seq<Key>)
    ensures |r| == |s| && forall i :: 0 <= i < |s| ==> r[i] == s[i].key
  {
    seq(|s|, i requires 0 <= i < |s| => s[i].key)
  }

  ghost function KeyChains<V>(chains: seq<seq<MapNode<V>>>): (r: seq<seq<Key>>)
    ensures |r| == |chains| && forall i :: 0 <= i < |chains| ==> r[i] == Keys(chains[i])
  {
    seq(|chains|, i requires 0 <= i < |chains| => Keys(chains[i]))
  }

  lemma KeysPush<V>(x: MapNode<V>, s: seq<MapNode<V>>)
    ensures Keys([x] + s) == [x.key] + Keys(s)
  {
  }

  lemma KeyChainsUpdate<V>(chains: seq<seq<MapNode<V>>>, b: nat, c: seq<MapNode<V>>)
    requires b < |chains|
    ensures KeyChains(chains[b := c]) == KeyChains(chains)[b := Keys(c)]
  {
  }

  lemma KeysWithout<V>(s: seq<MapNode<V>>, i: nat)
    requires i < |s|
    ensures Keys(Without(s, i)) == Without(Keys(s), i)
  {
  }

  // ---------------------------------------------------------------------------------------------
  // The map
  // ---------------------------------------------------------------------------------------------

  lemma PlaceIs(chains: seq<seq<Key>>, key: Key)
    ensures |chains| > 0 ==> Place(chains, key) == Index(Hash(key), |chains|)
  {
  }

  lemma RemovedIs<V>(t: Table<V>, key: Key)
    ensures match Found(t.chains, key)
            case None => Removed(t, key) == t
            case Some(k) =>
              |t.chains| > 0 && var b := Place(t.chains, key);
              First(t.chains[b], key) < |t.chains[b]| &&
              Removed(t, key) == Table(t.chains[b := Without(t.chains[b], First(t.chains[b], key))], t.contents - {k})
  {
  }

  class HashMap<V> {
    var buckets: array<MapNode?<V>>
    var nodeCount: nat
    ghost var chains: seq<seq<MapNode<V>>>
    ghost var owner: map<Key, MapNode<V>>
    /** The map from keys to values. */
    ghost var contents: map<Key, V>

    /** What the map is as a table. */
    ghost function View(): Table<V>
      reads this
    {
      Table(KeyChains(chains), contents)
    }

    /** The nodes have their keys, with the hashes and values of these. */
    static ghost predicate Keyed(owner: map<Key, MapNode<V>>, contents: map<Key, V>)
      reads owner.Values`value
    {
      && contents.Keys == owner.Keys
      && forall k :: k in owner ==> owner[k].key == k && owner[k].hash == Hash(k) && owner[k].value == contents[k]
    }

    static ghost predicate PlacedAt(chain: seq<MapNode<V>>, i: nat, buckets: nat, owner: map<Key, MapNode<V>>)
      requires i < buckets
    {
      NoRepeat(chain) && forall n :: n in chain ==> n in owner.Values && Index(n.hash, buckets) == i
    }

    /** The chains hold nodes of the map, at their own bucket and without repetition. */
    static ghost predicate Placed(chains: seq<seq<MapNode<V>>>, owner: map<Key, MapNode<V>>) {
      forall i :: 0 <= i < |chains| ==> PlacedAt(chains[i], i, |chains|, owner)
    }

    static ghost predicate InChain(chains: seq<seq<MapNode<V>>>, n: MapNode<V>) {
      |chains| > 0 && n in chains[Index(n.hash, |chains|)]
    }

    /** Every node stands in the bucket of its hash, once, and there is one node for a key. */
    ghost predicate Valid()
      reads this, buckets, owner.Values
    {
      && nodeCount == |owner|
      && Keyed(owner, contents)
      && |chains| == buckets.Length
      && (buckets.Length == 0 ==> owner == map[])
      && Placed(chains, owner)
      && (forall k :: k in owner ==> InChain(chains, owner[k]))
      && (forall i :: 0 <= i < |chains| ==> List(buckets[i], chains[i]))
    }

    static lemma KeysAre(owner: map<Key, MapNode<V>>, contents: map<Key, V>)
      requires Keyed(owner, contents)
      ensures forall k :: k in owner ==> owner[k].key == k && owner[k].hash == Hash(k)
    {
    }

    static lemma KeyedMore(owner: map<Key, MapNode<V>>, contents: map<Key, V>, node: MapNode<V>)
      requires Keyed(owner, contents) && node.hash == Hash(node.key)
      ensures Keyed(owner[node.key := node], contents[node.key := node.value])
    {
    }

    static lemma OneLess(owner: map<Key, MapNode<V>>, key: Key)
      requires key in owner
      ensures |owner - {key}| == |owner| - 1
    {
      assert owner.Keys - {key} == (owner - {key}).Keys;
      assert |owner.Keys - {key}| == |owner.Keys| - 1;
    }

    static lemma KeyedLess(owner: map<Key, MapNode<V>>, contents: map<Key, V>, key: Key)
      requires Keyed(owner, contents)
      ensures Keyed(owner - {key}, contents - {key})
      ensures forall k :: k in owner ==> owner[k].key == k
    {
    }

    /** The bucket of a key has nodes of the map, and all those that match the key. */
    lemma BucketOf(key: Key)
      requires Valid() && buckets.Length > 0
      ensures var b := Index(Hash(key), buckets.Length);
              && |chains| == buckets.Length && List(buckets[b], chains[b])
              && (forall n :: n in chains[b] ==> n.hash == Hash(n.key) && n.key in owner && owner[n.key] == n)
              && (forall k :: k in owner && Matches(k, key) ==> owner[k] in chains[b] && owner[k].key == k)
    {
      hide Hash, Index, Matches, NoRepeat, List;
      var b := Index(Hash(key), buckets.Length);
      assert PlacedAt(chains[b], b, |chains|, owner);
      forall k | k in owner && Matches(k, key) ensures owner[k] in chains[b] {
        MatchesIs(k, key);
        assert InChain(chains, owner[k]);
      }
    }

    /** The loop of Map_get_ref_: the first match of a list. */
    static method Search(head: MapNode?<V>, hash: bv32, key: Key, ghost c: seq<MapNode<V>>)
      returns (prev: MapNode?<V>, node: MapNode?<V>, ghost at: nat)
      requires List(head, c) && hash == Hash(key) && forall n :: n in c ==> n.hash == Hash(n.key)
      ensures at <= |c| && at == First(Keys(c), key) && forall i :: 0 <= i < at ==> !Matches(c[i].key, key)
      ensures if at == |c| then node == null else node == c[at] && Matches(node.key, key)
      ensures node != null ==> if at == 0 then prev == null else prev == c[at - 1]
    {
      hide Hash, Matches, First, Keys;
      prev, node, at := null, head, 0;
      while node != null
        invariant at <= |c| && List(node, c[at..]) && (if at == 0 then prev == null else prev == c[at - 1])
        invariant forall i :: 0 <= i < at ==> !Matches(c[i].key, key)
        decreases |c| - at
      {
        ListStep(node, c[at..]);
        assert node == c[at] && node in c;
        MatchesIs(node.key, key);
        if node.hash == hash && StartsWith(node.key, key) {
          FirstIs(Keys(c), key, at);
          return;
        }
        assert c[at..][1..] == c[at + 1..];
        prev, node, at := node, node.next, at + 1;
      }
      ListStep(node, c[at..]);
      FirstIs(Keys(c), key, at);
    }

    /** Map_get_ref_: the first node of the bucket that matches, and the one in front of it. */
    method GetRef(key: Key) returns (prev: MapNode?<V>, node: MapNode?<V>, ghost at: nat)
      requires Valid()
      ensures node == null <==> forall k :: k in owner ==> !Matches(k, key)
      ensures node != null ==> node.key in owner && owner[node.key] == node && Matches(node.key, key)
      ensures node != null ==> (buckets.Length > 0 &&
                var c := chains[Index(Hash(key), buckets.Length)];
                at < |c| && c[at] == node && (if at == 0 then prev == null else prev == c[at - 1]) &&
                (forall i :: 0 <= i < at ==> !Matches(c[i].key, key)) && at == First(Keys(c), key))
      ensures Found(KeyChains(chains), key) == if node == null then None else Some(node.key)
    {
      hide Hash, Index, Matches, Keyed, Placed, InChain, List, First;
      prev, node, at := null, null, 0;
      if buckets.Length > 0 {
        BucketOf(key);
        var hash := HashOf(key);
        ghost var c := chains[Index(hash, buckets.Length)];
        prev, node, at := Search(buckets[Index(hash, buckets.Length)], hash, key, c);
      }
    }

    /** Map_get_ */
    method Get(key: Key) returns (node: MapNode?<V>)
      requires Valid()
      ensures node == null <==> forall k :: k in owner ==> !Matches(k, key)
      ensures node != null ==> node.key in contents && node.value == contents[node.key] && Matches(node.key, key)
      ensures (if node == null then None else Some(node.value)) == HashTables.Get(View(), key)
    {
      hide Hash, Matches, Found;
      var prev;
      ghost var at;
      prev, node, at := GetRef(key);
    }

    /** Map_initWith for no buckets, Map_init_ for a given number. */
    constructor (size: nat)
      ensures Valid() && View() == NewTable(size) && owner == map[] && buckets.Length == size && fresh(buckets)
    {
      buckets := new MapNode?<V>[size](_ => null);
      nodeCount := 0;
      chains := seq(size, i => []);
      owner, contents := map[], map[];
    }

    static ghost function WithHead(chains: seq<seq<MapNode<V>>>, node: MapNode<V>): seq<seq<MapNode<V>>>
      requires |chains| > 0
    {
      var n := Index(node.hash, |chains|);
      chains[n := [node] + chains[n]]
    }

    /** Map_add_node_: the node becomes the head of its bucket. */
    method AddNode(node: MapNode<V>)
      requires buckets.Length > 0 && |chains| == buckets.Length
      requires forall i :: 0 <= i < |chains| ==> List(buckets[i], chains[i]) && node !in chains[i]
      modifies node`next, buckets, this`chains
      ensures chains == WithHead(old(chains), node)
      ensures node.hash == Hash(node.key) ==> KeyChains(chains) == Pushed(KeyChains(old(chains)), node.key)
      ensures forall i :: 0 <= i < |chains| ==> List(buckets[i], chains[i])
    {
      hide Hash, Index, List;
      var n := Index(node.hash, buckets.Length);
      node.next := buckets[n];
      assert forall i :: 0 <= i < |chains| ==> List(buckets[i], chains[i]);
      ListPush(node, chains[n]);
      buckets[n] := node;
      KeysPush(node, chains[n]);
      KeyChainsUpdate(chains, n, [node] + chains[n]);
      chains := WithHead(chains, node);
    }

    lemma Counts()
      requires Valid()
      ensures nodeCount == |owner| && contents.Keys == owner.Keys && |chains| == buckets.Length
      ensures forall k :: k in owner ==> owner[k].key == k && owner[k].hash == Hash(k) && owner[k].value == contents[k]
    {
    }

    /** The nodes other than `found` have their values. */
    static ghost predicate KeyedBut(owner: map<Key, MapNode<V>>, contents: map<Key, V>, found: MapNode<V>)
      reads (owner.Values - {found})`value
    {
      && contents.Keys == owner.Keys
      && (forall k :: k in owner ==> owner[k].key == k && owner[k].hash == Hash(k))
      && (forall k :: k in owner && owner[k] != found ==> owner[k].value == contents[k])
    }

    static lemma KeyedOthers(owner: map<Key, MapNode<V>>, contents: map<Key, V>, found: MapNode<V>)
      requires Keyed(owner, contents)
      ensures KeyedBut(owner, contents, found)
    {
      hide Hash;
    }

    static lemma KeyedAgain(owner: map<Key, MapNode<V>>, contents: map<Key, V>, found: MapNode<V>)
      requires KeyedBut(owner, contents, found) && found.key in owner && owner[found.key] == found
      ensures Keyed(owner, contents[found.key := found.value])
    {
      hide Hash;
    }

    method Overwrite(found: MapNode<V>, value: V)
      requires Valid() && found.key in owner && owner[found.key] == found
      modifies found`value, this`contents
      ensures Valid() && contents == old(contents)[found.key := value]
    {
      hide Hash, Index, List, NoRepeat, Placed, InChain, Keyed, KeyedBut;
      KeyedOthers(owner, contents, found);
      found.value := value;
      KeyedAgain(owner, contents, found);
      contents := contents[found.key := value];
    }

    static lemma PlacedMore(chains: seq<seq<MapNode<V>>>, owner: map<Key, MapNode<V>>, node: MapNode<V>)
      requires Placed(chains, owner) && node.key !in owner && node !in owner.Values
      ensures Placed(chains, owner[node.key := node]) && node in owner[node.key := node].Values
      ensures forall j :: 0 <= j < |chains| ==> node !in chains[j]
      ensures |chains| > 0 ==> !InChain(chains, node)
    {
      hide NoRepeat, Index;
      var more := owner[node.key := node];
      assert more[node.key] == node;
      forall k | k in owner ensures owner[k] in more.Values {
        assert more[k] == owner[k];
      }
      forall j | 0 <= j < |chains| ensures PlacedAt(chains[j], j, |chains|, more) && node !in chains[j] {
        assert PlacedAt(chains[j], j, |chains|, owner);
      }
    }

    /** Counts the nodes anew, when the chains are those of the nodes `o` with the contents `c`. */
    method NewState(count: nat, ghost o: map<Key, MapNode<V>>, ghost c: map<Key, V>)
      requires count == |o| && Keyed(o, c) && |chains| == buckets.Length > 0 && Placed(chains, o)
      requires forall k :: k in o ==> InChain(chains, o[k])
      requires forall i :: 0 <= i < |chains| ==> List(buckets[i], chains[i])
      modifies this`nodeCount, this`owner, this`contents
      ensures Valid() && owner == o && contents == c
    {
      hide Hash, Index, List, Placed, InChain, Keyed, NoRepeat;
      nodeCount := count;
      owner, contents := o, c;
    }

    static lemma PlacedPush(was: seq<seq<MapNode<V>>>, owner: map<Key, MapNode<V>>, node: MapNode<V>)
      requires |was| > 0 && Placed(was, owner) && node in owner.Values && !InChain(was, node)
      ensures Placed(WithHead(was, node), owner)
      ensures forall x: MapNode<V> :: InChain(WithHead(was, node), x) <==> InChain(was, x) || x == node
    {
      hide Index, NoRepeat;
      var now, n := WithHead(was, node), Index(node.hash, |was|);
      forall j | 0 <= j < |now| ensures PlacedAt(now[j], j, |now|, owner) {
        assert PlacedAt(was[j], j, |was|, owner);
        if j == n {
          NoRepeatPush(node, was[j]);
        }
      }
    }

    method Attach(node: MapNode<V>)
      requires Valid() && node.key !in owner && node !in owner.Values && buckets.Length > 0 &&
               node.hash == Hash(node.key)
      modifies node`next, buckets, this`chains, this`nodeCount, this`owner, this`contents
      ensures Valid() && buckets == old(buckets) && owner == old(owner)[node.key := node]
      ensures contents == old(contents)[node.key := node.value]
      ensures KeyChains(chains) == Pushed(KeyChains(old(chains)), node.key)
    {
      hide Hash, Index, List, NoRepeat, Placed, InChain, Keyed;
      PlacedMore(chains, owner, node);
      KeyedMore(owner, contents, node);
      ghost var was, more := chains, owner[node.key := node];
      assert allocated(more.Values);
      AddNode(node);
      PlacedPush(was, more, node);
      NewState(nodeCount + 1, more, contents[node.key := node.value]);
    }

    /** A bucket holds just the nodes of its number, which are in no other one. */
    static lemma BucketMembers(chains: seq<seq<MapNode<V>>>, owner: map<Key, MapNode<V>>, i: nat)
      requires Placed(chains, owner) && i < |chains| && forall k :: k in owner ==> InChain(chains, owner[k])
      ensures NoRepeat(chains[i])
      ensures forall x :: x in chains[i] <==> x in owner.Values && Index(x.hash, |chains|) == i
      ensures forall j :: 0 <= j < |chains| && j != i ==> forall x :: x in chains[i] ==> x !in chains[j]
    {
      hide Index, NoRepeat;
      assert forall j :: 0 <= j < |chains| ==> PlacedAt(chains[j], j, |chains|, owner);
    }

    static lemma NoKeys()
      ensures Keys<V>([]) == []
    {
    }

    static lemma PoolStep(keys: seq<seq<Key>>, i: nat, pool: seq<Key>)
      requires 0 < i <= |keys|
      ensures PoolOf(keys, i, pool) == PoolOf(keys, i - 1, Reversed(keys[i - 1]) + pool)
    {
    }

    static lemma PoolEnd(keys: seq<seq<Key>>, pool: seq<Key>)
      ensures PoolOf(keys, 0, pool) == pool
    {
    }

    static lemma EmptyList<V>()
      ensures List<V>(null, []) && NoRepeat<MapNode<V>>([])
    {
    }

    static lemma ReverseStep(rest: seq<MapNode<V>>, all: seq<MapNode<V>>)
      requires rest != []
      ensures Reversed(Keys(rest)) + Keys(all) == Reversed(Keys(rest[1..])) + Keys([rest[0]] + all)
    {
      assert Keys(rest)[1..] == Keys(rest[1..]);
      KeysPush(rest[0], all);
    }

    static lemma ReverseEnd(rest: seq<MapNode<V>>)
      ensures rest == [] ==> Reversed(Keys(rest)) == []
    {
    }

    /** The chain `s` is taken apart from its head and put in front of the list `nodes`. */
    static method Collect(head: MapNode?<V>, nodes: MapNode?<V>, ghost s: seq<MapNode<V>>, ghost pool: seq<MapNode<V>>)
      returns (r: MapNode?<V>, ghost all: seq<MapNode<V>>)
      requires List(head, s) && List(nodes, pool) && NoRepeat(s) && NoRepeat(pool)
      requires forall x :: x in s ==> x !in pool
      modifies s`next
      ensures List(r, all) && NoRepeat(all) && forall x :: x in all <==> x in s || x in pool
      ensures Keys(all) == Reversed(Keys(s)) + Keys(pool)
    {
      hide List, NoRepeat, Keys, Reversed;
      var node := head;
      r, all := nodes, pool;
      ghost var rest := s;
      while node != null
        invariant List(node, rest) && List(r, all) && NoRepeat(rest) && NoRepeat(all)
        invariant forall x :: x in rest ==> x in s && x !in all
        invariant forall x :: x in all || x in rest <==> x in s || x in pool
        invariant Reversed(Keys(rest)) + Keys(all) == Reversed(Keys(s)) + Keys(pool)
        decreases |rest|
      {
        ListStep(node, rest);
        ReverseStep(rest, all);
        NoRepeatTail(rest);
        assert rest[0] in rest;
        var next := node.next;
        node.next := r;
        assert List(r, all) && List(next, rest[1..]);
        ListPush(rest[0], all);
        NoRepeatPush(rest[0], all);
        r, all, node, rest := node, [rest[0]] + all, next, rest[1..];
      }
      ListStep(node, rest);
      ReverseEnd(rest);
    }

    /** The body of the first loop of Map_resize_, for bucket `i`. */
    method GatherBucket(i: nat, nodes: MapNode?<V>, ghost pool: seq<MapNode<V>>)
      returns (r: MapNode?<V>, ghost all: seq<MapNode<V>>)
      requires i < buckets.Length == |chains| && Placed(chains, owner)
      requires forall k :: k in owner ==> InChain(chains, owner[k])
      requires List(nodes, pool) && NoRepeat(pool) && forall j :: 0 <= j <= i ==> List(buckets[j], chains[j])
      requires forall x :: x in pool <==> x in owner.Values && Index(x.hash, buckets.Length) > i
      modifies owner.Values`next
      ensures List(r, all) && NoRepeat(all) && forall j :: 0 <= j < i ==> List(buckets[j], chains[j])
      ensures forall x :: x in all <==> x in owner.Values && Index(x.hash, buckets.Length) >= i
      ensures Keys(all) == Reversed(Keys(chains[i])) + Keys(pool)
    {
      hide List, NoRepeat, Index, Keys, Reversed, Placed, InChain;
      BucketMembers(chains, owner, i);
      assert forall j :: 0 <= j < i ==> allocated(chains[j]);
      r, all := Collect(buckets[i], nodes, chains[i], pool);
    }

    method Gather() returns (nodes: MapNode?<V>, ghost pool: seq<MapNode<V>>)
      requires Valid()
      modifies owner.Values`next
      ensures List(nodes, pool) && NoRepeat(pool) && forall x :: x in pool <==> x in owner.Values
      ensures Keys(pool) == PoolOf(KeyChains(chains), |chains|, [])
    {
      hide List, NoRepeat, Index, Hash, Keyed, Keys, Reversed, PoolOf, Placed, InChain;
      var i := buckets.Length;
      nodes, pool := null, [];
      EmptyList<V>();
      ghost var keys := KeyChains(chains);
      NoKeys();
      PoolEnd(keys, []);
      while i > 0
        invariant 0 <= i <= buckets.Length && List(nodes, pool) && NoRepeat(pool)
        invariant forall j :: 0 <= j < i ==> List(buckets[j], chains[j])
        invariant forall x :: x in pool <==> x in owner.Values && Index(x.hash, buckets.Length) >= i
        invariant PoolOf(keys, i, Keys(pool)) == PoolOf(keys, |keys|, [])
      {
        i := i - 1;
        PoolStep(keys, i + 1, Keys(pool));
        nodes, pool := GatherBucket(i, nodes, pool);
      }
      PoolEnd(keys, Keys(pool));
    }

    static lemma PourStep(chains: seq<seq<MapNode<V>>>, rest: seq<MapNode<V>>)
      requires |chains| > 0 && rest != []
      ensures Poured(KeyChains(chains), Keys(rest)) == Poured(Pushed(KeyChains(chains), rest[0].key), Keys(rest[1..]))
    {
      assert Keys(rest)[1..] == Keys(rest[1..]);
    }

    static lemma PourEnd(chains: seq<seq<MapNode<V>>>, rest: seq<MapNode<V>>)
      requires |chains| > 0
      ensures rest == [] ==> Poured(KeyChains(chains), Keys(rest)) == KeyChains(chains)
    {
    }

    static lemma NotPlaced(chains: seq<seq<MapNode<V>>>, owner: map<Key, MapNode<V>>, node: MapNode<V>)
      requires Placed(chains, owner) && !InChain(chains, node)
      ensures forall j :: 0 <= j < |chains| ==> node !in chains[j]
    {
      hide Index;
      assert forall j :: 0 <= j < |chains| ==> PlacedAt(chains[j], j, |chains|, owner);
    }

    /** The second loop of Map_resize_, into empty buckets. */
    method Distribute(nodes: MapNode?<V>, ghost pool: seq<MapNode<V>>)
      requires buckets.Length == |chains| > 0 && List(nodes, pool) && NoRepeat(pool) && Placed(chains, owner)
      requires forall j :: 0 <= j < |chains| ==> List(buckets[j], chains[j])
      requires forall x :: x in pool ==> x in owner.Values && !InChain(chains, x) && x.hash == Hash(x.key)
      modifies this`chains, buckets, owner.Values`next
      ensures buckets.Length == |chains| && Placed(chains, owner)
      ensures forall j :: 0 <= j < |chains| ==> List(buckets[j], chains[j])
      ensures forall x :: x in pool ==> InChain(chains, x)
      ensures KeyChains(chains) == Poured(KeyChains(old(chains)), Keys(pool))
    {
      hide List, NoRepeat, Index, Hash, Placed, InChain, Keyed, KeyChains, Keys, Poured, Pushed;
      var node := nodes;
      ghost var rest := pool;
      while node != null
        invariant buckets.Length == |chains| > 0 && List(node, rest) && NoRepeat(rest) && Placed(chains, owner)
        invariant forall j :: 0 <= j < |chains| ==> List(buckets[j], chains[j])
        invariant forall x :: x in rest ==> x in owner.Values && !InChain(chains, x) && x.hash == Hash(x.key)
        invariant forall x :: x in pool && x !in rest ==> InChain(chains, x)
        invariant Poured(KeyChains(chains), Keys(rest)) == Poured(KeyChains(old(chains)), Keys(pool))
        decreases |rest|
      {
        ListStep(node, rest);
        NoRepeatTail(rest);
        assert rest[0] in rest;
        var next := node.next;
        NotPlaced(chains, owner, rest[0]);
        PourStep(chains, rest);
        ghost var was := chains;
        AddNode(node);
        PlacedPush(was, owner, rest[0]);
        rest := rest[1..];
        node := next;
      }
      ListStep(node, rest);
      PourEnd(chains, rest);
    }

    static lemma EmptyKeys(chains: seq<seq<MapNode<V>>>)
      requires forall i :: 0 <= i < |chains| ==> chains[i] == []
      ensures KeyChains(chains) == Empty(|chains|)
    {
    }

    static lemma HashesOf(owner: map<Key, MapNode<V>>, contents: map<Key, V>)
      requires Keyed(owner, contents)
      ensures forall x :: x in owner.Values ==> x.hash == Hash(x.key)
    {
    }

    static lemma EmptyChains(chains: seq<seq<MapNode<V>>>, owner: map<Key, MapNode<V>>)
      requires forall j :: 0 <= j < |chains| ==> chains[j] == []
      ensures Placed(chains, owner) && forall x: MapNode<V> :: !InChain(chains, x)
    {
    }

    method Scatter(numBuckets: nat, nodes: MapNode?<V>, ghost pool: seq<MapNode<V>>)
      requires numBuckets > 0 && nodeCount == |owner| && List(nodes, pool) && NoRepeat(pool)
      requires Keyed(owner, contents)
      requires forall x :: x in pool <==> x in owner.Values
      modifies this`buckets, this`chains, owner.Values`next
      ensures Valid() && buckets.Length == numBuckets && fresh(buckets)
      ensures KeyChains(chains) == Poured(Empty(numBuckets), Keys(pool))
    {
      hide List, NoRepeat, Index, Hash, Placed, InChain, Keyed, Keys, Poured;
      buckets := new MapNode?<V>[numBuckets](_ => null);
      chains := seq(numBuckets, i => []);
      EmptyList<V>();
      EmptyChains(chains, owner);
      assert allocated(owner.Values);
      EmptyKeys(chains);
      HashesOf(owner, contents);
      Distribute(nodes, pool);
    }

    /** Map_resize_: all nodes are chained into one list and then put into as many buckets as asked for. */
    method Resize(numBuckets: nat)
      requires Valid() && numBuckets > 0
      modifies this`buckets, this`chains, buckets, owner.Values`next
      ensures Valid() && buckets.Length == numBuckets && fresh(buckets)
      ensures contents == old(contents) && owner == old(owner)
      ensures KeyChains(chains) == Rehashed(KeyChains(old(chains)), numBuckets)
    {
      hide Hash, Index, List, NoRepeat, Placed, InChain, Keyed;
      var nodes;
      ghost var pool;
      nodes, pool := Gather();
      Scatter(numBuckets, nodes, pool);
    }

    /** The part for a key that is not there. */
    method AddNew(key: Key, value: V) returns (node: MapNode<V>)
      requires Valid() && key !in owner
      modifies this, buckets, owner.Values`next
      ensures Valid() && contents == old(contents)[key := value]
      ensures owner == old(owner)[key := node] && fresh(node) && (buckets == old(buckets) || fresh(buckets))
      ensures KeyChains(chains) == Pushed(WithRoom(old(View())), key)
    {
      hide Valid, Hash, Index, List, NoRepeat, Placed, InChain, KeyChains, Pushed, Rehashed;
      Counts();
      assert allocated(owner.Values);
      node := new MapNode(key, value);
      assert Valid() && node !in owner.Values && contents == old(contents);
      if nodeCount >= buckets.Length {
        Resize(if buckets.Length < DEFAULT_BUCKETS then DEFAULT_BUCKETS else 2 * buckets.Length);
      }
      Attach(node);
    }

    /**
     Map_set_: overwrites the value of the first matching node of the bucket, or adds a node in front; `at` is
     the key it changes.
     */
    method Set(key: Key, value: V) returns (node: MapNode<V>, ghost at: Key)
      requires Valid()
      modifies this, buckets, owner.Values
      ensures Valid() && View() == HashTables.Set(old(View()), key, value)
      ensures at == match Found(KeyChains(old(chains)), key) case Some(k) => k case None => key
      ensures contents == old(contents)[at := value] && owner == old(owner)[at := node]
      ensures if at in old(owner) then node == old(owner)[at] else fresh(node)
      ensures buckets == old(buckets) || fresh(buckets)
    {
      hide Valid, Hash, Index, List, NoRepeat, Matches, Placed, InChain, Found, WithRoom;
      Counts();
      var prev, found;
      ghost var i;
      prev, found, i := GetRef(key);
      if found != null {
        at := found.key;
        Overwrite(found, value);
        assert owner == owner[at := found];
        return found, at;
      }
      at := key;
      assert key !in owner by {
        MatchesItself(key);
      }
      node := AddNew(key, value);
    }

    static lemma NotThere(owner: map<Key, MapNode<V>>, contents: map<Key, V>, key: Key)
      requires contents.Keys == owner.Keys && key !in owner
      ensures contents - {key} == contents && owner - {key} == owner
    {
    }

    lemma ViewIs()
      ensures View() == Table(KeyChains(chains), contents)
    {
    }

    static lemma PlacedWithout(was: seq<seq<MapNode<V>>>, owner: map<Key, MapNode<V>>, b: nat, i: nat)
      requires Placed(was, owner) && b < |was| && i < |was[b]|
      requires forall k :: k in owner ==> owner[k].key == k
      ensures var n, now := was[b][i], was[b := Without(was[b], i)];
              Placed(now, owner - {n.key}) && n in owner.Values &&
              forall x: MapNode<V> :: InChain(now, x) <==> InChain(was, x) && x != n
    {
      hide Index, NoRepeat, Without;
      var n, now := was[b][i], was[b := Without(was[b], i)];
      var less := owner - {n.key};
      assert PlacedAt(was[b], b, |was|, owner) && n in was[b];
      WithoutRepeat(was[b], i);
      forall x | x in owner.Values && x != n ensures x in less.Values {
        var k :| k in owner && owner[k] == x;
        assert less[k] == x;
      }
      forall j | 0 <= j < |now| ensures PlacedAt(now[j], j, |now|, less) {
        assert PlacedAt(was[j], j, |was|, owner);
        if j != b {
          assert n !in was[j] && now[j] == was[j];
          assert forall x :: x in was[j] ==> x in owner.Values && x != n;
        } else {
          assert now[j] == Without(was[b], i);
          assert NoRepeat(now[j]);
          forall x | x in now[j] ensures x in less.Values && Index(x.hash, |now|) == b {
            assert x in was[b] && x != n;
          }
        }
      }
    }

    /** The node in front of place `i` is in no other chain, and only once in its own. */
    static lemma OtherChains(chains: seq<seq<MapNode<V>>>, owner: map<Key, MapNode<V>>, b: nat, i: nat)
      requires Placed(chains, owner) && b < |chains| && i < |chains[b]|
      ensures i > 0 ==> forall j :: 0 <= j < |chains| && j != b ==> chains[b][i - 1] !in chains[j]
      ensures i > 0 ==> forall j :: 0 <= j < |chains[b]| && j != i - 1 ==> chains[b][j] != chains[b][i - 1]
      ensures i > 0 ==> chains[b][i - 1] in owner.Values
    {
      hide Index;
      if i > 0 {
        assert PlacedAt(chains[b], b, |chains|, owner) && chains[b][i - 1] in chains[b];
        forall j | 0 <= j < |chains| && j != b ensures chains[b][i - 1] !in chains[j] {
          assert PlacedAt(chains[j], j, |chains|, owner);
        }
      }
    }

    /** `*next = (*next)->next` */
    method Unlink(prev: MapNode?<V>, node: MapNode<V>, b: nat, ghost i: nat)
      requires b < |chains| == buckets.Length && i < |chains[b]| && chains[b][i] == node
      requires if i == 0 then prev == null else prev == chains[b][i - 1]
      requires forall j :: 0 <= j < |chains| ==> List(buckets[j], chains[j])
      requires Placed(chains, owner) && node.key in owner && owner[node.key] == node
      modifies this`chains, buckets, owner.Values`next
      ensures chains == old(chains)[b := Without(old(chains)[b], i)]
      ensures forall j :: 0 <= j < |chains| ==> List(buckets[j], chains[j])
    {
      hide Hash, Index, List, Without, NextIn;
      ghost var c := chains[b];
      OtherChains(chains, owner, b, i);
      ListLinks(buckets[b], c);
      assert node.next == NextIn(c, i);
      if prev == null {
        buckets[b] := node.next;
      } else {
        prev.next := node.next;
      }
      ListWithout(buckets[b], c, i);
      chains := chains[b := Without(c, i)];
    }

    /** What is left of chains and nodes without the node at place `i` of its bucket. */
    static lemma Detached(was: seq<seq<MapNode<V>>>, owner: map<Key, MapNode<V>>, contents: map<Key, V>,
                          node: MapNode<V>, i: nat)
      requires Placed(was, owner) && Keyed(owner, contents) && node.key in owner && owner[node.key] == node
      requires |was| > 0 && forall k :: k in owner ==> InChain(was, owner[k])
      requires var c := was[Index(node.hash, |was|)]; i < |c| && c[i] == node
      ensures var b, less := Index(node.hash, |was|), owner - {node.key};
              var now := was[b := Without(was[b], i)];
              && Placed(now, less) && Keyed(less, contents - {node.key}) && |less| == |owner| - 1
              && (forall k :: k in less ==> InChain(now, less[k]))
              && KeyChains(now) == KeyChains(was)[b := Without(Keys(was[b]), i)]
    {
      hide Hash, Index, List, Placed, InChain, Keyed, Without, NoRepeat;
      KeysAre(owner, contents);
      OneLess(owner, node.key);
      KeyedLess(owner, contents, node.key);
      var b := Index(node.hash, |was|);
      KeysWithout(was[b], i);
      KeyChainsUpdate(was, b, Without(was[b], i));
      PlacedWithout(was, owner, b, i);
      var less := owner - {node.key};
      assert forall k :: k in less ==> less[k] == owner[k];
    }

    method Detach(prev: MapNode?<V>, node: MapNode<V>, ghost i: nat)
      requires Valid() && node.key in owner && owner[node.key] == node && buckets.Length > 0
      requires var c := chains[Index(node.hash, buckets.Length)];
               i < |c| && c[i] == node && if i == 0 then prev == null else prev == c[i - 1]
      modifies this`chains, this`nodeCount, this`owner, this`contents, buckets, owner.Values`next
      ensures Valid() && owner == old(owner) - {node.key} && contents == old(contents) - {node.key}
      ensures buckets == old(buckets) && KeyChains(chains) == KeyChains(old(chains))[
                Index(node.hash, |old(chains)|) := Without(Keys(old(chains)[Index(node.hash, |old(chains)|)]), i)]
    {
      hide Hash, Index, List, Placed, InChain, Keyed, Without, NoRepeat, KeyChains, Keys;
      ghost var was := chains;
      assert allocated(owner.Values);
      Unlink(prev, node, Index(node.hash, buckets.Length), i);
      Detached(was, owner, contents, node, i);
      NewState(nodeCount - 1, owner - {node.key}, contents - {node.key});
    }

    /** Map_remove_: takes the first matching node of the bucket out of its chain; `at` is its key. */
    method Remove(key: Key) returns (ghost at: Key)
      requires Valid()
      modifies this, buckets, owner.Values`next
      ensures Valid() && View() == Removed(old(View()), key) && buckets == old(buckets)
      ensures at == match Found(KeyChains(old(chains)), key) case Some(k) => k case None => key
      ensures contents == old(contents) - {at} && owner == old(owner) - {at}
    {
      hide *;
      Counts();
      MatchesItself(key);
      RemovedIs(View(), key);
      PlaceIs(KeyChains(chains), key);
      var prev, node;
      ghost var i;
      prev, node, i := GetRef(key);
      ViewIs();
      if node == null {
        at := key;
        NotThere(owner, contents, key);
      } else {
        at := node.key;
        MatchesIs(at, key);
        Detach(prev, node, i);
      }
      ViewIs();
    }

    lemma Sizes()
      requires Valid()
      ensures |View().chains| == buckets.Length && View().contents == contents && |contents| == nodeCount
    {
      assert contents.Keys == owner.Keys;
      assert |contents| == |contents.Keys| == |owner.Keys| == |owner|;
    }
  }

  // ---------------------------------------------------------------------------------------------
  // Runs
  // ---------------------------------------------------------------------------------------------

  lemma RunStep<V>(t: Table<V>, op: Op<V>, rest: seq<Op<V>>)
    ensures Run(t, [op] + rest) == Run(Step(t, op), rest)
    ensures Answers(t, [op] + rest) == [Answer(t, op)] + Answers(Step(t, op), rest)
  {
  }

  method DoOp<V>(m: HashMap<V>, op: Op<V>) returns (answer: Option<V>)
    requires m.Valid()
    modifies m, m.buckets, m.owner.Values
    ensures m.Valid() && m.View() == Step(old(m.View()), op) && answer == Answer(old(m.View()), op)
    ensures m.buckets == old(m.buckets) || fresh(m.buckets)
    ensures forall x :: x in m.owner.Values ==> x in old(m.owner.Values) || fresh(x)
  {
    hide HashMap.Valid, HashMap.View, HashTables.Set, HashTables.Get, Removed, Found;
    answer := None;
    match op {
      case Put(k, v) =>
        var node;
        ghost var at;
        node, at := m.Set(k, v);
      case Drop(k) =>
        ghost var at := m.Remove(k);
      case Ask(k) =>
        var node := m.Get(k);
        if node != null {
          answer := Some(node.value);
        }
    }
  }

  /** Any sequence of calls on a map does to it, and answers, what the run on its table says. */
  method Play<V>(m: HashMap<V>, ops: seq<Op<V>>) returns (answers: seq<Option<V>>)
    requires m.Valid()
    modifies m, m.buckets, m.owner.Values
    ensures m.Valid() && m.View() == Run(old(m.View()), ops) && answers == Answers(old(m.View()), ops)
    ensures m.buckets == old(m.buckets) || fresh(m.buckets)
    ensures forall x :: x in m.owner.Values ==> x in old(m.owner.Values) || fresh(x)
  {
    hide HashMap.Valid, HashMap.View, HashTables.Set, HashTables.Get, Removed, Found;
    answers := [];
    var i := 0;
    while i < |ops|
      invariant 0 <= i <= |ops| && m.Valid()
      invariant Run(m.View(), ops[i..]) == Run(old(m.View()), ops)
      invariant answers + Answers(m.View(), ops[i..]) == Answers(old(m.View()), ops)
      invariant m.buckets == old(m.buckets) || fresh(m.buckets)
      invariant forall x :: x in m.owner.Values ==> x in old(m.owner.Values) || fresh(x)
    {
      var op := ops[i];
      assert ops[i..] == [op] + ops[i + 1..];
      ghost var before := m.View();
      var answer := DoOp(m, op);
      RunStep(before, op, ops[i + 1..]);
      answers := answers + [answer];
      i := i + 1;
    }
    assert ops[i..] == [];
  }

  /**
   Over keys that can be told apart, any sequence of calls on a new map has the contents and the answers of a
   map; its buckets are round when it starts out empty, and never fewer than its nodes.
   */
  method PlayFromEmpty<V>(ops: seq<Op<V>>, ghost keys: set<Key>) returns (m: HashMap<V>, answers: seq<Option<V>>)
    requires Over(ops, keys)
    ensures fresh(m) && m.Valid() && Round(m.buckets.Length) && m.nodeCount <= m.buckets.Length
    ensures Distinguishable(keys) ==> m.contents == MapRun(map[], ops) && answers == MapAnswers(map[], ops)
  {
    m := new HashMap<V>(0);
    answers := Play(m, ops);
    EmptySound(0);
    RunRound(NewTable<V>(0), ops);
    m.Sizes();
    if Distinguishable(keys) {
      RunIsMapRun(NewTable<V>(0), ops, keys);
    }
  }
}
