/**
 The cache of identifiers: every text is kept once, in a search tree, so that two identifiers are the same
 pointer exactly when they are the same text. The node of the tree stands for the pointer to its text.
 */
module Idents {
  import opened RedBlack
  import opened RbTrees

  /** A byte of a text that ends in a zero. */
  type Char = c: int | 1 <= c < 256 witness 1
  type Text = seq<Char>

  /** Characters are signed bytes. */
  function Signed(c: Char): int {
    if c < 128 then c else c - 256
  }

  /** The order of RbTree_strncmp. */
  function Compare(a: Text, b: Text): int
    decreases a
  {
    if a == [] then (if b == [] then 0 else -1)
    else if b == [] then 1
    else if a[0] != b[0] then Signed(a[0]) - Signed(b[0])
    else Compare(a[1..], b[1..])
  }

  /** RbTree_strncmp for the first `len` characters of `s1` and a whole text. */
  method StrNCompare(s1: Text, len: nat, s2: Text) returns (r: int)
    requires len <= |s1|
    ensures r == Compare(s1[..len], s2)
  {
    var i := 0;
    while i < |s2| && len - i != 0
      invariant i <= len && i <= |s2| && Compare(s1[..len], s2) == Compare(s1[i..len], s2[i..])
      decreases len - i
    {
      if s1[i] != s2[i] {
        return Signed(s1[i]) - Signed(s2[i]);
      }
      assert s1[i..len][1..] == s1[i + 1..len] && s2[i..][1..] == s2[i + 1..];
      i := i + 1;
    }
    if i == len {
      return if i == |s2| then 0 else -1;
    }
    return 1;
  }

  /** strcmp, which compares unsigned bytes and the zero at the end. */
  function StrCompare(a: Text, b: Text): int
    decreases a
  {
    if a == [] then (if b == [] then 0 else -b[0])
    else if b == [] then a[0]
    else if a[0] != b[0] then a[0] - b[0]
    else StrCompare(a[1..], b[1..])
  }

  predicate Ascii(a: Text) {
    forall i :: 0 <= i < |a| ==> a[i] < 128
  }

  /** Both comparisons say the same of two texts: less, equal or greater. */
  predicate Agree(a: Text, b: Text) {
    (Compare(a, b) < 0 <==> StrCompare(a, b) < 0) && (Compare(a, b) == 0 <==> StrCompare(a, b) == 0)
  }

  /** The length of the common beginning. */
  function Common(a: Text, b: Text): (k: nat)
    ensures k <= |a| && k <= |b| && a[..k] == b[..k] && (k < |a| && k < |b| ==> a[k] != b[k])
    decreases a
  {
    if a == [] || b == [] || a[0] != b[0] then 0
    else
      var k := Common(a[1..], b[1..]);
      assert a[..k + 1] == [a[0]] + a[1..][..k] && b[..k + 1] == [b[0]] + b[1..][..k];
      k + 1
  }

  /**
   The two orders agree on two texts exactly when one is the beginning of the other, or the first characters
   that differ are both ASCII or both not.
   */
  lemma {:induction false} OrdersAgree(a: Text, b: Text)
    ensures var k := Common(a, b);
            Agree(a, b) <==> k == |a| || k == |b| || (a[k] < 128 <==> b[k] < 128)
    decreases a
  {
    if a != [] && b != [] && a[0] == b[0] {
      OrdersAgree(a[1..], b[1..]);
    }
  }

  /** So they are one order on ASCII texts. */
  lemma SameOrder(a: Text, b: Text)
    requires Ascii(a) && Ascii(b)
    ensures Agree(a, b)
  {
    OrdersAgree(a, b);
  }

  lemma {:induction false} CompareEqual(a: Text, b: Text)
    ensures Compare(a, b) == 0 <==> a == b
    decreases a
  {
    if a != [] && b != [] && a[0] == b[0] {
      CompareEqual(a[1..], b[1..]);
      assert a == [a[0]] + a[1..] && b == [b[0]] + b[1..];
    }
  }

  lemma {:induction false} CompareMirrors(a: Text, b: Text)
    ensures Compare(a, b) < 0 <==> Compare(b, a) > 0
    decreases a
  {
    if a != [] && b != [] && a[0] == b[0] {
      CompareMirrors(a[1..], b[1..]);
    }
  }

  lemma {:induction false} CompareTransitive(a: Text, b: Text, c: Text)
    requires Compare(a, b) <= 0 && Compare(b, c) <= 0
    ensures Compare(a, c) <= 0
    decreases a
  {
    if a != [] && b != [] && c != [] && a[0] == b[0] && b[0] == c[0] {
      CompareTransitive(a[1..], b[1..], c[1..]);
    }
  }

  lemma CompareRanks()
    ensures Ranks(Compare)
  {
    forall a, b ensures Compare(a, b) < 0 <==> Compare(b, a) > 0 {
      CompareMirrors(a, b);
    }
    forall a, b, c | Compare(a, b) <= 0 && Compare(b, c) <= 0 ensures Compare(a, c) <= 0 {
      CompareTransitive(a, b, c);
    }
  }

  lemma LeafData(t: Tree<RbNode<Text>>)
    ensures t == Leaf ==> Nodes(t) == {} && Datas(InOrder(t)) == [] && Increasing(Datas(InOrder(t)), Compare)
  {
  }

  lemma AtTheEnd(was: seq<Text>, letter: Text, k: nat)
    requires k <= |was| && forall i :: 0 <= i < |was| ==> Compare(letter, was[i]) > 0
    ensures (forall i :: k <= i < |was| ==> Compare(letter, was[i]) < 0) ==> k == |was|
  {
    if k < |was| {
      assert Compare(letter, was[k]) > 0;
    }
  }

  /** Whether a text is among the data does not depend on whether nodes or data are looked at. */
  lemma DataOfNodes(t: Tree<RbNode<Text>>, s: Text)
    ensures NoneEqual(Datas(InOrder(t)), Against(Compare, s)) <==> forall n :: n in Nodes(t) ==> n.data != s
  {
    hide InOrder, Compare;
    NodesInOrder(t);
    var ns, ds := InOrder(t), Datas(InOrder(t));
    forall i | 0 <= i < |ds| ensures Against(Compare, s)(ds[i]) == 0 <==> ns[i].data == s {
      CompareEqual(s, ds[i]);
    }
    if NoneEqual(ds, Against(Compare, s)) {
      forall n | n in Nodes(t) ensures n.data != s {
        assert n in ns;
        var i :| 0 <= i < |ns| && ns[i] == n;
        assert Against(Compare, s)(ds[i]) != 0;
      }
    } else {
      var i :| 0 <= i < |ds| && Against(Compare, s)(ds[i]) == 0;
      assert ns[i] in Nodes(t);
    }
  }

  class IdentCache {
    const tree: RbTree<Text>

    ghost predicate Valid()
      reads this, tree, Nodes(tree.tree)
    {
      tree.Valid() && tree.order == Compare && Increasing(tree.Contents(), Compare)
    }

    /** The identifiers handed out so far. */
    ghost function Known(): set<RbNode<Text>>
      reads tree
    {
      Nodes(tree.tree)
    }

    /** Ident_foa: the one identifier for the text, which is new exactly when no known one has the text. */
    method Foa(str: Text, size: nat) returns (name: RbNode<Text>)
      requires Valid() && 0 < size <= |str|
      modifies tree`root, tree`tree, Nodes(tree.tree)
      ensures Valid() && name in Known() && name.data == str[..size]
      ensures Known() == old(Known()) + {name} && (name in old(Known()) || fresh(name))
      ensures fresh(name) <==> forall n :: n in old(Known()) ==> n.data != str[..size]
    {
      var added;
      ghost var k;
      CompareRanks();
      var s := str[..size];
      DataOfNodes(tree.tree, s);
      ghost var known := Known();
      assert allocated(known);
      added, name, k := tree.FindOrAdd(s);
      CompareEqual(s, name.data);
      assert name in known ==> !fresh(name);
    }

    /** RbTree_add of a letter behind all letters there are. */
    method AddLetter(letter: Text) returns (node: RbNode<Text>)
      requires Valid() && forall i :: 0 <= i < |tree.Contents()| ==> Compare(letter, tree.Contents()[i]) > 0
      modifies tree`root, tree`tree, Nodes(tree.tree)
      ensures Valid() && tree.Contents() == old(tree.Contents()) + [letter]
      ensures fresh(node) && Known() == old(Known()) + {node}
    {
      ghost var k;
      ghost var was := tree.Contents();
      node, k := tree.Add(letter);
      AtTheEnd(was, letter, k);
      StaysIncreasing(was, letter, k, tree.Contents(), Compare);
    }

    method Fill()
      requires Valid() && tree.Contents() == []
      modifies tree`root, tree`tree, Nodes(tree.tree)
      ensures Valid() && tree.Contents() == [[105], [106], [107]]
      ensures Known() >= old(Known()) && forall n :: n in Known() ==> n in old(Known()) || fresh(n)
    {
      hide Valid;
      var i := AddLetter([105]);
      var j := AddLetter([106]);
      var k := AddLetter([107]);
      assert Known() - old(Known()) <= {i, j, k};
    }

    /** IdentCache_init */
    constructor ()
      ensures Valid() && fresh(tree) && fresh(Known()) && tree.Contents() == [[105], [106], [107]]
    {
      CompareRanks();
      tree := new RbTree<Text>(Compare);
      new;
      hide Ranks, InOrderOf, InOrder, Shape, Nodes, Datas, Increasing, Legal, RbTree.Valid, Compare;
      LeafData(tree.tree);
      ghost var none := Known();
      assert none == {};
      Fill();
      assert forall n :: n in Known() ==> n !in none;
    }
  }

  /** Two identifiers are the same pointer exactly when they are the same text. */
  lemma SamePointerSameText(c: IdentCache, a: RbNode<Text>, b: RbNode<Text>)
    requires c.Valid() && a in c.Known() && b in c.Known()
    ensures a == b <==> a.data == b.data
  {
    hide InOrder, Compare;
    NodesInOrder(c.tree.tree);
    var ns, ds := InOrder(c.tree.tree), c.tree.Contents();
    var i :| 0 <= i < |ns| && ns[i] == a;
    var j :| 0 <= j < |ns| && ns[j] == b;
    assert ds[i] == a.data && ds[j] == b.data;
    CompareEqual(a.data, b.data);
    CompareEqual(b.data, a.data);
  }

  /** What a slice of a buffer stands for. */
  datatype Slice = Slice(str: Text, size: nat)

  predicate IsSlice(s: Slice) {
    0 < s.size <= |s.str|
  }

  function TextOf(s: Slice): Text
    requires IsSlice(s)
  {
    s.str[..s.size]
  }

  /** The identifiers have the texts of the first slices. */
  ghost predicate Named(names: seq<RbNode<Text>>, slices: seq<Slice>, known: set<RbNode<Text>>)
    requires forall i :: 0 <= i < |slices| ==> IsSlice(slices[i])
  {
    |names| <= |slices| &&
    forall j :: 0 <= j < |names| ==> names[j] in known && names[j].data == TextOf(slices[j])
  }

  lemma NamedMore(names: seq<RbNode<Text>>, slices: seq<Slice>, known: set<RbNode<Text>>, name: RbNode<Text>)
    requires forall i :: 0 <= i < |slices| ==> IsSlice(slices[i])
    requires Named(names, slices, known) && |names| < |slices| && name.data == TextOf(slices[|names|])
    ensures Named(names + [name], slices, known + {name})
  {
  }

  /**
   After any sequence of calls two results are the same pointer exactly when the slices have the same text,
   every result has its text, and all that was known before is still known.
   */
  method Intern(c: IdentCache, slices: seq<Slice>) returns (names: seq<RbNode<Text>>)
    requires c.Valid() && forall i :: 0 <= i < |slices| ==> IsSlice(slices[i])
    modifies c.tree`root, c.tree`tree, Nodes(c.tree.tree)
    ensures c.Valid() && old(c.Known()) <= c.Known()
    ensures forall n :: n in c.Known() ==> n in old(c.Known()) || fresh(n)
    ensures |names| == |slices|
    ensures forall i :: 0 <= i < |names| ==> names[i] in c.Known() && names[i].data == TextOf(slices[i])
    ensures forall i, j :: 0 <= i < |names| && 0 <= j < |names| ==>
              (names[i] == names[j] <==> TextOf(slices[i]) == TextOf(slices[j]))
  {
    names := [];
    var i := 0;
    while i < |slices|
      invariant 0 <= i <= |slices| && |names| == i && c.Valid()
      invariant old(c.Known()) <= c.Known() && forall n :: n in c.Known() ==> n in old(c.Known()) || fresh(n)
      invariant Named(names, slices, c.Known())
    {
      hide IdentCache.Valid, Named;
      ghost var known := c.Known();
      var name := c.Foa(slices[i].str, slices[i].size);
      NamedMore(names, slices, known, name);
      names := names + [name];
      i := i + 1;
    }
    assert forall j :: 0 <= j < |names| ==> names[j] in c.Known() && names[j].data == TextOf(slices[j]);
    hide IdentCache.Valid, IdentCache.Known, TextOf;
    forall i, j | 0 <= i < |names| && 0 <= j < |names|
      ensures names[i] == names[j] <==> TextOf(slices[i]) == TextOf(slices[j])
    {
      SamePointerSameText(c, names[i], names[j]);
    }
  }

  /** The same from the start of the program. */
  method InternAll(slices: seq<Slice>) returns (c: IdentCache, names: seq<RbNode<Text>>)
    requires forall i :: 0 <= i < |slices| ==> IsSlice(slices[i])
    ensures c.Valid() && |names| == |slices|
    ensures forall i, j :: 0 <= i < |names| && 0 <= j < |names| ==>
              (names[i] == names[j] <==> TextOf(slices[i]) == TextOf(slices[j]))
  {
    c := new IdentCache();
    names := Intern(c, slices);
  }
}
