/**
 The tree of nodes with parent pointers that the program rewrites in place. The shape of the nodes is
 described by the trees and paths of RedBlack, with the nodes themselves as elements, so that every
 method says which red-black function it carries out.
 */
module RbTrees {
  import opened Basics
  import opened RedBlack

  class RbNode<T> {
    var left: RbNode?<T>
    var right: RbNode?<T>
    var parent: RbNode?<T>
    var colour: Colour
    const data: T

    constructor (data: T)
      ensures this.data == data && left == null && right == null && parent == null && colour == Red
    {
      this.data := data;
      left, right, parent, colour := null, null, null, Red;
    }
  }

  function Root<T>(t: Tree<RbNode<T>>): RbNode?<T> {
    if t.Leaf? then null else t.e
  }

  function Above<T>(p: Path<RbNode<T>>): RbNode?<T> {
    if p.Top? then null else p.e
  }

  ghost function Nodes<T>(t: Tree<RbNode<T>>): set<RbNode<T>> {
    match t
    case Leaf => {}
    case Node(_, l, n, r) => Nodes(l) + {n} + Nodes(r)
  }

  ghost function PathNodes<T>(p: Path<RbNode<T>>): set<RbNode<T>>
    decreases p
  {
    match p
    case Top => {}
    case LeftOf(_, n, r, up) => {n} + Nodes(r) + PathNodes(up)
    case RightOf(_, l, n, up) => {n} + Nodes(l) + PathNodes(up)
  }

  /** The nodes form the tree `t` below `up`: children, parents and colours agree, and no node is used twice. */
  ghost predicate Shape<T>(t: Tree<RbNode<T>>, up: RbNode?<T>)
    reads Nodes(t)
  {
    match t
    case Leaf => true
    case Node(c, l, n, r) =>
      && n.colour == c && n.left == Root(l) && n.right == Root(r) && n.parent == up
      && Shape(l, n) && Shape(r, n)
      && n !in Nodes(l) && n !in Nodes(r) && Nodes(l) !! Nodes(r)
  }

  /** The nodes around the place of `sub`, from there to the root of the tree. */
  ghost predicate PathShape<T>(p: Path<RbNode<T>>, sub: RbNode?<T>, root: RbNode?<T>)
    reads PathNodes(p)
    decreases p
  {
    match p
    case Top => root == sub
    case LeftOf(c, n, r, up) =>
      && n.colour == c && n.left == sub && n.right == Root(r) && n.parent == Above(up)
      && Shape(r, n) && PathShape(up, n, root)
      && n !in Nodes(r) && n !in PathNodes(up) && Nodes(r) !! PathNodes(up)
    case RightOf(c, l, n, up) =>
      && n.colour == c && n.right == sub && n.left == Root(l) && n.parent == Above(up)
      && Shape(l, n) && PathShape(up, n, root)
      && n !in Nodes(l) && n !in PathNodes(up) && Nodes(l) !! PathNodes(up)
  }

  lemma {:induction false} PlugShape<T>(p: Path<RbNode<T>>, t: Tree<RbNode<T>>, root: RbNode?<T>)
    requires Shape(t, Above(p)) && PathShape(p, Root(t), root) && Nodes(t) !! PathNodes(p)
    ensures Shape(Plug(p, t), null) && Root(Plug(p, t)) == root
    decreases p
  {
    match p {
      case Top =>
      case LeftOf(c, n, r, up) => PlugShape(up, Node(c, t, n, r), root);
      case RightOf(c, l, n, up) => PlugShape(up, Node(c, l, n, t), root);
    }
  }

  ghost function Datas<T>(ns: seq<RbNode<T>>): (r: seq<T>)
    ensures |r| == |ns|
  {
    seq(|ns|, i requires 0 <= i < |ns| => ns[i].data)
  }

  /** The neighbours of a position in a sequence of nodes. */
  ghost function Behind<T>(s: seq<RbNode<T>>, i: nat): RbNode?<T> {
    if i + 1 < |s| then s[i + 1] else null
  }

  ghost function InFront<T>(s: seq<RbNode<T>>, i: nat): RbNode?<T> {
    if 0 < i <= |s| then s[i - 1] else null
  }

  /** The comparisons of a value with the data of the nodes. */
  ghost function Beside<T>(order: (T, T) -> int, v: T): RbNode<T> -> int {
    (n: RbNode<T>) => order(v, n.data)
  }

  /** `now` is `was` with `x` at position `k`. */
  ghost predicate Inserted<X>(was: seq<X>, x: X, k: nat, now: seq<X>) {
    k <= |was| && now == was[..k] + [x] + was[k..]
  }

  lemma BesideIs<T>(order: (T, T) -> int, v: T, n: RbNode<T>)
    ensures Beside(order, v)(n) == order(v, n.data)
  {
  }

  lemma TopStart<T>(t: Tree<RbNode<T>>, root: RbNode?<T>)
    requires root == Root(t)
    ensures PathShape(Top, root, root) && PathNodes<T>(Top) == {}
    ensures Before<RbNode<T>>(Top) == [] && After<RbNode<T>>(Top) == []
  {
  }

  lemma NodesLeaf<T>(t: Tree<RbNode<T>>)
    ensures t.Leaf? ==> Nodes(t) == {}
  {
  }

  /** A step down to the left or to the right. */
  lemma DownLeft<T>(t: Tree<RbNode<T>>, p: Path<RbNode<T>>, root: RbNode?<T>)
    requires t.Node? && Shape(t, Above(p)) && PathShape(p, Root(t), root) && Nodes(t) !! PathNodes(p)
    ensures var q := LeftOf(t.colour, t.e, t.right, p);
            Shape(t.left, Above(q)) && PathShape(q, Root(t.left), root) && Nodes(t.left) !! PathNodes(q) &&
            Nodes(t.left) + PathNodes(q) == Nodes(t) + PathNodes(p)
  {
  }

  lemma DownRight<T>(t: Tree<RbNode<T>>, p: Path<RbNode<T>>, root: RbNode?<T>)
    requires t.Node? && Shape(t, Above(p)) && PathShape(p, Root(t), root) && Nodes(t) !! PathNodes(p)
    ensures var q := RightOf(t.colour, t.left, t.e, p);
            Shape(t.right, Above(q)) && PathShape(q, Root(t.right), root) && Nodes(t.right) !! PathNodes(q) &&
            Nodes(t.right) + PathNodes(q) == Nodes(t) + PathNodes(p)
  {
  }

  lemma BlackenNodes<T>(t: Tree<RbNode<T>>)
    ensures Nodes(Blacken(t)) == Nodes(t) && Root(Blacken(t)) == Root(t)
  {
  }

  lemma NodeShape<T>(c: Colour, l: Tree<RbNode<T>>, n: RbNode<T>, r: Tree<RbNode<T>>)
    requires n.colour == c && n.left == Root(l) && n.right == Root(r) && Shape(l, n) && Shape(r, n)
    requires n !in Nodes(l) && n !in Nodes(r) && Nodes(l) !! Nodes(r)
    ensures Shape(Node(c, l, n, r), n.parent)
    ensures Nodes(Node(c, l, n, r)) == Nodes(l) + {n} + Nodes(r)
  {
  }

  /** `if (tmp) RbTree_set_parent_color(tmp, parent, Black)` */
  method HangBlack<T>(tmp: RbNode?<T>, parent: RbNode<T>, ghost t: Tree<RbNode<T>>, ghost was: RbNode?<T>)
    requires tmp == Root(t) && Shape(t, was)
    modifies Nodes(t)
    ensures Shape(Blacken(t), parent)
  {
    if tmp != null {
      tmp.parent := parent;
      tmp.colour := Black;
    }
  }

  lemma NodeParts<T>(t: Tree<RbNode<T>>, up: RbNode?<T>)
    requires t.Node? && Shape(t, up)
    ensures t.e.parent == up && t.e.colour == t.colour && t.e.left == Root(t.left) && t.e.right == Root(t.right)
    ensures Shape(t.left, t.e) && Shape(t.right, t.e) && Nodes(t) == Nodes(t.left) + {t.e} + Nodes(t.right)
    ensures t.e !in Nodes(t.left) && t.e !in Nodes(t.right) && Nodes(t.left) !! Nodes(t.right)
    ensures t.left.Node? ==> t.left.e in Nodes(t.left)
    ensures t.right.Node? ==> t.right.e in Nodes(t.right)
  {
  }

  /** The subtree one level higher. */
  lemma PathUp<T>(par: Path<RbNode<T>>, sub: Tree<RbNode<T>>, root: RbNode?<T>)
    requires par != Top && Shape(sub, par.e) && PathShape(par, Root(sub), root) && Nodes(sub) !! PathNodes(par)
    ensures Shape(Frame(par, par.colour, sub), Above(par.up)) && PathShape(par.up, par.e, root)
    ensures Nodes(Frame(par, par.colour, sub)) !! PathNodes(par.up)
    ensures Nodes(Frame(par, par.colour, sub)) + PathNodes(par.up) == Nodes(sub) + PathNodes(par)
  {
  }

  /** `RbTree_set_parent_color(node, parent, Black)` for a node that already hangs there */
  method Paint<T>(node: RbNode<T>, parent: RbNode?<T>, ghost t: Tree<RbNode<T>>)
    requires t.Node? && t.e == node && Shape(t, parent)
    modifies node
    ensures Shape(Blacken(t), parent) && Nodes(Blacken(t)) == Nodes(t)
  {
    node.parent, node.colour := parent, Black;
  }

  lemma LegalPlace<E>(t: Tree<E>, compare: E -> int)
    requires Legal(t)
    ensures LegalPath(Descend(t, Top, compare))
  {
    DescendPlug(t, Top, compare);
    PlugLegal(Descend(t, Top, compare), Leaf);
  }

  /** No two elements are equal. */
  ghost predicate Increasing<T>(s: seq<T>, order: (T, T) -> int) {
    forall i, j :: 0 <= i < j < |s| ==> order(s[i], s[j]) < 0
  }

  lemma StaysIncreasingAt<T(!new)>(was: seq<T>, v: T, k: nat, now: seq<T>, order: (T, T) -> int, i: nat, j: nat)
    requires Inserted(was, v, k, now) && NoneEqual(was, Against(order, v)) && Increasing(was, order)
    requires Ranks(order) && InOrderOf(now, order) && i < j < |now|
    ensures order(now[i], now[j]) < 0
  {
    assert forall a, b :: order(a, b) == 0 ==> order(b, a) == 0;
    Sorted(now, i, j, order);
    hide Ranks, InOrderOf;
    if i == k {
      assert now[j] == was[j - 1];
      assert Against(order, v)(was[j - 1]) != 0;
    } else if j == k {
      assert now[i] == was[i];
      assert Against(order, v)(was[i]) != 0;
    } else {
      assert now[i] == was[if i < k then i else i - 1] && now[j] == was[if j < k then j else j - 1];
    }
  }

  lemma StaysIncreasing<T(!new)>(was: seq<T>, v: T, k: nat, now: seq<T>, order: (T, T) -> int)
    requires Inserted(was, v, k, now) && NoneEqual(was, Against(order, v))
    requires Ranks(order) && InOrderOf(now, order)
    ensures Increasing(was, order) ==> Increasing(now, order)
  {
    if Increasing(was, order) {
      forall i, j | 0 <= i < j < |now| ensures order(now[i], now[j]) < 0 {
        StaysIncreasingAt(was, v, k, now, order, i, j);
      }
    }
  }

  lemma ThreeWay<T(!new)>(order: (T, T) -> int, v: T, x: T, y: T)
    requires Ranks(order) && order(x, y) <= 0
    ensures order(v, x) < 0 ==> order(v, y) < 0
    ensures order(v, x) == 0 ==> order(v, y) <= 0
  {
    if order(v, x) < 0 {
      SmallerThanAll(order, v, x, y);
    }
  }

  /** The nodes of a tree are those of its sequence. */
  lemma {:induction false} NodesInOrder<T>(t: Tree<RbNode<T>>)
    ensures Nodes(t) == set n | n in InOrder(t)
  {
    if t.Node? {
      NodesInOrder(t.left);
      NodesInOrder(t.right);
    }
  }

  /** Whether an equal datum is met on the way down. */
  lemma LookupNodes<T(!new)>(t: Tree<RbNode<T>>, v: T, order: (T, T) -> int)
    requires Ranks(order) && InOrderOf(Datas(InOrder(t)), order)
    ensures var r := Lookup(t, Beside(order, v));
            (r.Leaf? <==> NoneEqual(Datas(InOrder(t)), Against(order, v))) &&
            (r.Node? ==> r.e in Nodes(t) && order(v, r.e.data) == 0)
  {
    hide InOrder, Ranks, InOrderOf, Lookup, Nodes;
    var s, ds := InOrder(t), Datas(InOrder(t));
    forall i, j | 0 <= i < j < |s|
      ensures Beside(order, v)(s[i]) < 0 ==> Beside(order, v)(s[j]) < 0
      ensures Beside(order, v)(s[i]) == 0 ==> Beside(order, v)(s[j]) <= 0
    {
      Sorted(ds, i, j, order);
      ThreeWay(order, v, ds[i], ds[j]);
    }
    LookupFinds(t, Beside(order, v));
    NodesInOrder(t);
    assert NoneEqual(s, Beside(order, v)) <==> NoneEqual(ds, Against(order, v)) by {
      assert forall i :: 0 <= i < |s| ==> Beside(order, v)(s[i]) == Against(order, v)(ds[i]);
    }
  }

  lemma Regroup4<X>(a: seq<X>, b: seq<X>, x: X, c: seq<X>, d: seq<X>)
    ensures a + b + [x] + (c + d) == a + (b + [x] + c) + d
  {
  }

  lemma StepInOrder<E>(c: Colour, l: Tree<E>, e: E, r: Tree<E>, p: Path<E>)
    ensures var q := LeftOf(c, e, r, p);
            Before(q) + InOrder(l) + After(q) == Before(p) + InOrder(Node(c, l, e, r)) + After(p)
    ensures var q := RightOf(c, l, e, p);
            Before(q) + InOrder(r) + After(q) == Before(p) + InOrder(Node(c, l, e, r)) + After(p)
  {
    NodeInOrder(c, l, e, r);
    PathSides(c, l, e, r, p);
    hide InOrder, Before, After;
    Shift(Before(p), InOrder(l), e, InOrder(r), After(p));
  }

  /** The place of a node in the tree. */
  lemma {:induction false} Focus<T>(t: Tree<RbNode<T>>, p: Path<RbNode<T>>, n: RbNode<T>, root: RbNode?<T>)
    returns (q: Path<RbNode<T>>, s: Tree<RbNode<T>>)
    requires n in Nodes(t) && Shape(t, Above(p)) && PathShape(p, Root(t), root) && Nodes(t) !! PathNodes(p)
    ensures s.Node? && s.e == n && Shape(s, Above(q)) && PathShape(q, n, root) && n !in PathNodes(q)
    ensures Before(q) + InOrder(s.left) + [n] + (InOrder(s.right) + After(q)) == Before(p) + InOrder(t) + After(p)
    decreases t
  {
    hide Shape, PathShape, PathNodes, InOrder, Before, After;
    var c, l, e, r := t.colour, t.left, t.e, t.right;
    if e == n {
      q, s := p, t;
      NodeInOrder(c, l, e, r);
      Regroup4(Before(p), InOrder(l), n, InOrder(r), After(p));
    } else if n in Nodes(l) {
      DownLeft(t, p, root);
      q, s := Focus(l, LeftOf(c, e, r, p), n, root);
      StepInOrder(c, l, e, r, p);
    } else {
      DownRight(t, p, root);
      q, s := Focus(r, RightOf(c, l, e, p), n, root);
      StepInOrder(c, l, e, r, p);
    }
  }

  lemma DistinctJoin<X>(l: seq<X>, e: X, r: seq<X>)
    requires forall i, j :: 0 <= i < j < |l| ==> l[i] != l[j]
    requires forall i, j :: 0 <= i < j < |r| ==> r[i] != r[j]
    requires e !in l && e !in r && forall x :: x in l ==> x !in r
    ensures forall i, j :: 0 <= i < j < |l + [e] + r| ==> (l + [e] + r)[i] != (l + [e] + r)[j]
  {
    var s := l + [e] + r;
    assert s[|l|] == e;
    assert forall k :: 0 <= k < |l| ==> l[k] in l;
    assert forall k :: 0 <= k < |r| ==> r[k] in r;
    forall i, j | 0 <= i < j < |s| ensures s[i] != s[j] {
      if i < |l| && |l| < j {
        assert s[i] == l[i] && s[j] == r[j - |l| - 1];
      } else if i < |l| && j == |l| {
        assert s[i] == l[i] && s[i] in l;
      } else if i == |l| {
        assert s[j] == r[j - |l| - 1] && s[j] in r;
      } else if j < |l| {
        assert s[i] == l[i] && s[j] == l[j];
      } else {
        assert s[i] == r[i - |l| - 1] && s[j] == r[j - |l| - 1];
      }
    }
  }

  lemma {:induction false} Distinct<T>(t: Tree<RbNode<T>>, up: RbNode?<T>)
    requires Shape(t, up)
    ensures forall i, j :: 0 <= i < j < |InOrder(t)| ==> InOrder(t)[i] != InOrder(t)[j]
  {
    if t.Node? {
      Distinct(t.left, t.e);
      Distinct(t.right, t.e);
      NodesInOrder(t.left);
      NodesInOrder(t.right);
      assert forall x :: x in InOrder(t.left) ==> x in Nodes(t.left);
      assert forall x :: x in InOrder(t.right) ==> x in Nodes(t.right);
      DistinctJoin(InOrder(t.left), t.e, InOrder(t.right));
    }
  }

  /** In a sequence without repetition the neighbours of `x` do not depend on where it is looked for. */
  lemma NeighboursAt<T>(s: seq<RbNode<T>>, before: seq<RbNode<T>>, x: RbNode<T>, after: seq<RbNode<T>>)
    requires s == before + [x] + after && forall i, j :: 0 <= i < j < |s| ==> s[i] != s[j]
    ensures forall i :: 0 <= i < |s| && s[i] == x ==>
              Behind(s, i) == (if after == [] then null else after[0]) &&
              InFront(s, i) == (if before == [] then null else before[|before| - 1])
  {
    assert s[|before|] == x;
  }

  lemma PositionOf<T>(t: Tree<RbNode<T>>, n: RbNode<T>) returns (i: nat)
    requires n in Nodes(t)
    ensures i < |InOrder(t)| && InOrder(t)[i] == n
  {
    NodesInOrder(t);
    assert n in InOrder(t);
    i :| 0 <= i < |InOrder(t)| && InOrder(t)[i] == n;
  }

  lemma InTree<T>(t: Tree<RbNode<T>>, i: nat)
    requires i < |InOrder(t)|
    ensures InOrder(t)[i] in Nodes(t)
  {
    NodesInOrder(t);
  }

  lemma AboveInside<T>(p: Path<RbNode<T>>)
    ensures p != Top ==> Above(p) in PathNodes(p)
  {
  }

  lemma PathParts<T>(p: Path<RbNode<T>>, sub: RbNode<T>, root: RbNode?<T>)
    requires p != Top && PathShape(p, sub, root) && sub !in PathNodes(p)
    ensures p.e.parent == Above(p.up) && PathShape(p.up, p.e, root) && p.e !in PathNodes(p.up)
    ensures sub == p.e.left <==> p.LeftOf?
    ensures sub == p.e.right <==> p.RightOf?
    ensures p.LeftOf? ==> Before(p) == Before(p.up)
    ensures p.RightOf? ==> After(p) == After(p.up)
  {
  }

  lemma AfterIs<E>(p: Path<E>)
    ensures p.Top? ==> After(p) == []
    ensures p.LeftOf? ==> After(p) != [] && After(p)[0] == p.e
  {
  }

  lemma BeforeIs<E>(p: Path<E>)
    ensures p.Top? ==> Before(p) == []
    ensures p.RightOf? ==> Before(p) != [] && Before(p)[|Before(p)| - 1] == p.e
  {
  }

  lemma DatasMore<T>(s: seq<RbNode<T>>, k: nat)
    requires k < |s|
    ensures Datas(s[..k + 1]) == Datas(s[..k]) + [s[k].data]
  {
  }

  lemma InsertNodes<T>(t: Tree<RbNode<T>>, v: RbNode<T>, compare: RbNode<T> -> int, inner: Colour)
    requires PathNodes(Descend(t, Top, compare)) == Nodes(t)
    ensures Nodes(Insert(t, v, compare, inner)) == Nodes(t) + {v}
    ensures Insert(t, v, compare, inner) == FixUp(Descend(t, Top, compare), Node(Red, Leaf, v, Leaf), inner)
  {
    var p := Descend(t, Top, compare);
    var sub := Node(Red, Leaf, v, Leaf);
    NodesInOrder(Insert(t, v, compare, inner));
    NodesInOrder(t);
    DescendPlug(t, Top, compare);
    InOrderPlug(p, Leaf);
    FixUpInOrder(p, sub, inner);
    assert InOrder(sub) == [v];
  }

  lemma AscendingNodes<T>(s: seq<RbNode<T>>, v: T, order: (T, T) -> int)
    requires Ascending(Datas(s), Against(order, v))
    ensures Ascending(s, Beside(order, v))
  {
    var ds := Datas(s);
    forall i, j | 0 <= i < j < |s| && Beside(order, v)(s[i]) < 0 ensures Beside(order, v)(s[j]) < 0 {
      assert Against(order, v)(ds[i]) < 0;
      assert Against(order, v)(ds[j]) < 0;
    }
  }

  lemma DatasJoin<T>(a: seq<RbNode<T>>, b: seq<RbNode<T>>)
    ensures Datas(a + b) == Datas(a) + Datas(b)
  {
  }

  /** Where an insertion puts the node and the value. */
  lemma InsertData<T(!new)>(t: Tree<RbNode<T>>, v: RbNode<T>, order: (T, T) -> int, inner: Colour) returns (k: nat)
    requires Ranks(order) && InOrderOf(Datas(InOrder(t)), order)
    ensures var r := Insert(t, v, Beside(order, v.data), inner);
            Inserted(InOrder(t), v, k, InOrder(r)) && Inserted(Datas(InOrder(t)), v.data, k, Datas(InOrder(r))) &&
            InOrderOf(Datas(InOrder(r)), order)
    ensures forall i :: 0 <= i < k ==> order(v.data, Datas(InOrder(t))[i]) >= 0
    ensures forall i :: k <= i < |InOrder(t)| ==> order(v.data, Datas(InOrder(t))[i]) < 0
  {
    hide InOrder, Ranks, InOrderOf, Insert, Descend, Ascending;
    var s, ds, compare := InOrder(t), Datas(InOrder(t)), Beside(order, v.data);
    SortedAscends(ds, v.data, order);
    AscendingNodes(s, v.data, order);
    InsertInOrder(t, v, compare, inner);
    var p := Descend(t, Top, compare);
    var a, b := Before(p), After(p);
    k := |a|;
    assert s[..k] == a && s[k..] == b;
    DatasJoin(a, b);
    DatasJoin(a + [v], b);
    DatasJoin(a, [v]);
    assert Datas([v]) == [v.data];
    assert ds[..k] == Datas(a) && ds[k..] == Datas(b);
    SortedInsertion(Datas(a), v.data, Datas(b), order);
  }

  lemma LeafNodes<T>(node: RbNode<T>)
    ensures Nodes(Node(Red, Leaf, node, Leaf)) == {node}
    ensures NoRedRed(Node(Red, Leaf, node, Leaf))
  {
  }

  lemma TopShape<T>(sub: RbNode?<T>, root: RbNode?<T>)
    ensures PathShape(Top, sub, root) <==> root == sub
  {
  }

  /** The subtree on the other side of the grandparent. */
  function Uncle<E>(par: Path<E>): Tree<E>
    requires par != Top && par.up != Top
  {
    if par.up.LeftOf? then par.up.right else par.up.left
  }

  /** The red grandparent after the colour flips. */
  function Flipped<E>(sub: Tree<E>, par: Path<E>): Tree<E>
    requires par != Top && par.up != Top
  {
    if par.up.LeftOf? then Node(Red, Frame(par, Black, sub), par.up.e, Blacken(par.up.right))
    else Node(Red, Blacken(par.up.left), par.up.e, Frame(par, Black, sub))
  }

  /** One turn of the loop. */
  lemma FixUpStep<E>(p: Path<E>, sub: Tree<E>)
    requires LegalPath(p) && NoRedRed(sub) && IsRed(sub)
    ensures p.Top? ==> FixUp(p, sub, Black) == Blacken(sub)
    ensures p != Top && p.colour == Black ==> FixUp(p, sub, Black) == Plug(p, sub)
    ensures UnderRed(p) ==> p.up != Top
    ensures UnderRed(p) && IsRed(Uncle(p)) ==>
              FixUp(p, sub, Black) == FixUp(p.up.up, Flipped(sub, p), Black) && LegalPath(p.up.up) &&
              NoRedRed(Flipped(sub, p)) && IsRed(Flipped(sub, p))
    ensures UnderRed(p) && !IsRed(Uncle(p)) && p.up.LeftOf? ==>
              FixUp(p, sub, Black) == Plug(p.up.up, RotateLeftSide(sub, p, p.up.colour, p.up.e, p.up.right, Black))
    ensures UnderRed(p) && !IsRed(Uncle(p)) && p.up.RightOf? ==>
              FixUp(p, sub, Black) == Plug(p.up.up, RotateRightSide(sub, p, p.up.colour, p.up.e, p.up.left))
  {
  }

  /** What the loop reads around a red parent. */
  lemma Family<T>(p: Path<RbNode<T>>, node: RbNode<T>, root: RbNode?<T>)
    requires p != Top && PathShape(p, node, root)
    ensures p.e.parent == Above(p.up) && p.e.colour == p.colour
    ensures p.up != Top ==> p.up.e.parent == Above(p.up.up) && p.up.e != p.e
    ensures p.up != Top ==> p.up.e in PathNodes(p) && p.e in PathNodes(p)
    ensures p.up.LeftOf? ==> p.up.e.left == p.e && p.up.e.right == Root(p.up.right) != p.e
    ensures p.up.RightOf? ==> p.up.e.right == p.e && p.up.e.left == Root(p.up.left)
    ensures p.up != Top && Uncle(p).Node? ==> Uncle(p).e in PathNodes(p) && Uncle(p).e.colour == Uncle(p).colour
  {
  }

  class RbTree<T(!new)> {
    var root: RbNode?<T>
    const order: (T, T) -> int
    ghost var tree: Tree<RbNode<T>>

    /** The data from the first to the last node. */
    ghost function Contents(): seq<T>
      reads this
    {
      Datas(InOrder(tree))
    }

    ghost predicate Valid()
      reads this, Nodes(tree)
    {
      root == Root(tree) && Shape(tree, null) && Legal(tree) && Ranks(order) && InOrderOf(Contents(), order)
    }

    constructor (order: (T, T) -> int)
      requires Ranks(order)
      ensures Valid() && this.order == order && tree == Leaf
    {
      root := null;
      tree := Leaf;
      this.order := order;
    }

    /** The loop down to the place of a new node. */
    method FindPlace(value: T) returns (parent: RbNode?<T>, atLeft: bool, ghost p: Path<RbNode<T>>)
      requires root == Root(tree) && Shape(tree, null)
      ensures p == Descend(tree, Top, Beside(order, value)) && PathNodes(p) == Nodes(tree)
      ensures parent == Above(p) && (p != Top ==> atLeft == p.LeftOf?) && PathShape(p, null, root)
    {
      hide Shape, PathShape, Nodes, PathNodes, Beside;
      var link := root;
      parent, atLeft, p := null, false, Top;
      ghost var t, compare := tree, Beside(order, value);
      TopStart(tree, root);
      while link != null
        invariant link == Root(t) && parent == Above(p) && (p != Top ==> atLeft == p.LeftOf?)
        invariant Shape(t, parent) && PathShape(p, link, root) && Nodes(t) !! PathNodes(p)
        invariant Nodes(t) + PathNodes(p) == Nodes(tree)
        invariant Descend(t, p, compare) == Descend(tree, Top, compare)
        decreases t
      {
        NodeParts(t, parent);
        parent := link;
        BesideIs(order, value, parent);
        if order(value, parent.data) < 0 {
          DownLeft(t, p, root);
          t, p, link, atLeft := t.left, LeftOf(t.colour, t.e, t.right, p), parent.left, true;
        } else {
          DownRight(t, p, root);
          t, p, link, atLeft := t.right, RightOf(t.colour, t.left, t.e, p), parent.right, false;
        }
      }
      NodesLeaf(t);
      assert PathNodes(p) == Nodes(tree);
    }

    /** RbTree_link_node */
    method LinkNode(node: RbNode<T>, parent: RbNode?<T>, atLeft: bool, ghost p: Path<RbNode<T>>)
      requires parent == Above(p) && (p != Top ==> atLeft == p.LeftOf?)
      requires PathShape(p, null, root) && node !in PathNodes(p)
      modifies this`root, node, PathNodes(p)
      ensures PathShape(p, node, root) && Shape(Node(Red, Leaf, node, Leaf), parent)
    {
      node.parent, node.colour := parent, Red;
      node.left, node.right := null, null;
      if parent == null {
        root := node;
      } else if atLeft {
        parent.left := node;
      } else {
        parent.right := node;
      }
    }

    /** RbTree_change_child */
    method ChangeChild(was: RbNode<T>, now: RbNode?<T>, parent: RbNode?<T>, ghost p: Path<RbNode<T>>)
      requires parent == Above(p) && PathShape(p, was, root) && was !in PathNodes(p)
      modifies this`root, PathNodes(p)
      ensures PathShape(p, now, root)
    {
      if parent != null {
        if parent.left == was {
          parent.left := now;
        } else {
          parent.right := now;
        }
      } else {
        root := now;
      }
    }

    /** The part of RotateSetParents that the two nodes themselves are changed by. */
    method TakePlace(was: RbNode<T>, now: RbNode<T>, c: Colour, ghost a: Tree<RbNode<T>>, ghost b: Tree<RbNode<T>>,
                     ghost x: Tree<RbNode<T>>, ghost up: Path<RbNode<T>>)
      requires Shape(a, was) && Shape(b, was) && Shape(x, now) && PathShape(up, was, root) && now != was
      requires was !in Nodes(a) && was !in Nodes(b) && was !in Nodes(x) && was !in PathNodes(up)
      requires now !in Nodes(a) && now !in Nodes(b) && now !in Nodes(x) && now !in PathNodes(up)
      modifies was`parent, was`colour, now`parent, now`colour
      ensures now.parent == old(was.parent) && now.colour == old(was.colour) && was.parent == now && was.colour == c
      ensures Shape(a, was) && Shape(b, was) && Shape(x, now) && PathShape(up, was, root)
    {
      hide Shape, PathShape, Nodes, PathNodes;
      now.parent, now.colour := was.parent, was.colour;
      was.parent, was.colour := now, c;
    }

    /**
     RbTree_rotate_set_parents: `now` takes the place, the parent and the colour of its child `was`, which
     gets the colour `c`. The other child of `now` is `x`.
     */
    method RotateSetParents(was: RbNode<T>, now: RbNode<T>, c: Colour, onRight: bool,
                            ghost a: Tree<RbNode<T>>, ghost b: Tree<RbNode<T>>, ghost x: Tree<RbNode<T>>,
                            ghost up: Path<RbNode<T>>)
      requires was.left == Root(a) && was.right == Root(b) && Shape(a, was) && Shape(b, was)
      requires now.left == (if onRight then Root(x) else was) && now.right == (if onRight then was else Root(x))
      requires Shape(x, now) && was.parent == Above(up) && PathShape(up, was, root)
      requires now != was && Nodes(a) !! Nodes(b) && Nodes(a) !! Nodes(x) && Nodes(b) !! Nodes(x)
      requires was !in Nodes(a) && was !in Nodes(b) && was !in Nodes(x) && was !in PathNodes(up)
      requires now !in Nodes(a) && now !in Nodes(b) && now !in Nodes(x) && now !in PathNodes(up)
      requires PathNodes(up) !! Nodes(a) && PathNodes(up) !! Nodes(b) && PathNodes(up) !! Nodes(x)
      modifies this`root, was, now, PathNodes(up)
      ensures var inner := Node(c, a, was, b);
              var top := if onRight then Node(old(was.colour), x, now, inner)
                         else Node(old(was.colour), inner, now, x);
              Shape(top, Above(up))
      ensures PathShape(up, now, root)
    {
      hide Shape, PathShape, Nodes, PathNodes;
      var parent := was.parent;
      TakePlace(was, now, c, a, b, x, up);
      NodeShape(c, a, was, b);
      ghost var inner := Node(c, a, was, b);
      ghost var outer := if onRight then Node(now.colour, x, now, inner) else Node(now.colour, inner, now, x);
      if onRight {
        NodeShape(now.colour, x, now, inner);
      } else {
        NodeShape(now.colour, inner, now, x);
      }
      assert allocated(Nodes(outer)) && Nodes(outer) !! PathNodes(up);
      ChangeChild(was, now, parent, up);
    }

    /** The rotation at the grandparent when the parent is its left child. */
    method RotateGrandRight(gp: RbNode<T>, parent: RbNode<T>, tmp: RbNode?<T>,
                            ghost x: Tree<RbNode<T>>, ghost y: Tree<RbNode<T>>, ghost u: Tree<RbNode<T>>,
                            ghost up: Path<RbNode<T>>)
      requires tmp == Root(y) && Shape(y, parent) && parent.left == Root(x) && Shape(x, parent)
      requires gp.right == Root(u) && Shape(u, gp) && gp.parent == Above(up) && PathShape(up, gp, root)
      requires gp != parent && Nodes(x) !! Nodes(y) && Nodes(x) !! Nodes(u) && Nodes(y) !! Nodes(u)
      requires gp !in Nodes(x) && gp !in Nodes(y) && gp !in Nodes(u) && gp !in PathNodes(up)
      requires parent !in Nodes(x) && parent !in Nodes(y) && parent !in Nodes(u) && parent !in PathNodes(up)
      requires PathNodes(up) !! Nodes(x) && PathNodes(up) !! Nodes(y) && PathNodes(up) !! Nodes(u)
      modifies this`root, gp, parent, Nodes(y), PathNodes(up)
      ensures Shape(Node(old(gp.colour), x, parent, Node(Red, Blacken(y), gp, u)), Above(up))
      ensures PathShape(up, parent, root)
    {
      hide Shape, PathShape, Nodes, PathNodes, Blacken;
      BlackenNodes(y);
      gp.left := tmp;
      parent.right := gp;
      assert Shape(y, parent) && Shape(x, parent) && Shape(u, gp) && PathShape(up, gp, root);
      assert allocated(Nodes(x)) && allocated(Nodes(u)) && allocated(PathNodes(up));
      HangBlack(tmp, gp, y, parent);
      RotateSetParents(gp, parent, Red, true, Blacken(y), u, x, up);
    }

    /** The rotation at the parent when the red node is its right child and the parent a left one. */
    method RotateParentLeft(parent: RbNode<T>, node: RbNode<T>,
                            ghost l: Tree<RbNode<T>>, ghost a: Tree<RbNode<T>>)
      requires node.left == Root(a) && Shape(a, node) && parent.left == Root(l) && Shape(l, parent)
      requires node != parent && Nodes(a) !! Nodes(l)
      requires node !in Nodes(a) && node !in Nodes(l) && parent !in Nodes(a) && parent !in Nodes(l)
      modifies parent, node`left, Nodes(a)
      ensures node.left == parent && Shape(Node(Black, l, parent, Blacken(a)), node)
    {
      hide Shape, Nodes, Blacken;
      BlackenNodes(a);
      var tmp := node.left;
      parent.right := tmp;
      node.left := parent;
      assert Shape(a, node) && Shape(l, parent);
      assert allocated(Nodes(l));
      HangBlack(tmp, parent, a, node);
      parent.parent, parent.colour := node, Black;
      NodeShape(Black, l, parent, Blacken(a));
    }

    /** The rotations below a grandparent whose left child is the red parent, and whose right one is black. */
    method RestructureLeft(node: RbNode<T>, parent: RbNode<T>, gp: RbNode<T>,
                           ghost sub: Tree<RbNode<T>>, ghost par: Path<RbNode<T>>)
      requires sub.Node? && sub.e == node && par != Top && par.e == parent && par.up.LeftOf? && par.up.e == gp
      requires Shape(sub, parent) && PathShape(par, node, root) && Nodes(sub) !! PathNodes(par)
      modifies this`root, Nodes(sub), PathNodes(par)
      ensures var t := Plug(par.up.up, RotateLeftSide(sub, par, par.up.colour, gp, par.up.right, Black));
              Shape(t, null) && root == Root(t)
    {
      var node, parent := node, parent;
      ghost var u, above := par.up.right, par.up.up;
      ghost var x, y := sub, if par.LeftOf? then par.right else Leaf;
      var tmp := parent.right;
      if node == tmp {
        assert allocated(Nodes(sub.right)) && allocated(Nodes(u)) && allocated(PathNodes(above));
        RotateParentLeft(parent, node, par.left, sub.left);
        BlackenNodes(sub.left);
        x, y := Node(Black, par.left, parent, Blacken(sub.left)), sub.right;
        parent := node;
        tmp := node.right;
      }
      BlackenNodes(y);
      RotateGrandRight(gp, parent, tmp, x, y, u, above);
      PlugShape(above, Node(par.up.colour, x, parent, Node(Red, Blacken(y), gp, u)), root);
    }

    /** The mirror image. */
    method RotateGrandLeft(gp: RbNode<T>, parent: RbNode<T>, tmp: RbNode?<T>,
                           ghost x: Tree<RbNode<T>>, ghost y: Tree<RbNode<T>>, ghost u: Tree<RbNode<T>>,
                           ghost up: Path<RbNode<T>>)
      requires tmp == Root(y) && Shape(y, parent) && parent.right == Root(x) && Shape(x, parent)
      requires gp.left == Root(u) && Shape(u, gp) && gp.parent == Above(up) && PathShape(up, gp, root)
      requires gp != parent && Nodes(x) !! Nodes(y) && Nodes(x) !! Nodes(u) && Nodes(y) !! Nodes(u)
      requires gp !in Nodes(x) && gp !in Nodes(y) && gp !in Nodes(u) && gp !in PathNodes(up)
      requires parent !in Nodes(x) && parent !in Nodes(y) && parent !in Nodes(u) && parent !in PathNodes(up)
      requires PathNodes(up) !! Nodes(x) && PathNodes(up) !! Nodes(y) && PathNodes(up) !! Nodes(u)
      modifies this`root, gp, parent, Nodes(y), PathNodes(up)
      ensures Shape(Node(old(gp.colour), Node(Red, u, gp, Blacken(y)), parent, x), Above(up))
      ensures PathShape(up, parent, root)
    {
      hide Shape, PathShape, Nodes, PathNodes, Blacken;
      BlackenNodes(y);
      gp.right := tmp;
      parent.left := gp;
      assert Shape(y, parent) && Shape(x, parent) && Shape(u, gp) && PathShape(up, gp, root);
      assert allocated(Nodes(x)) && allocated(Nodes(u)) && allocated(PathNodes(up));
      HangBlack(tmp, gp, y, parent);
      RotateSetParents(gp, parent, Red, false, u, Blacken(y), x, up);
    }

    /** The mirror image, which paints the parent red. */
    method RotateParentRight(parent: RbNode<T>, node: RbNode<T>,
                             ghost r: Tree<RbNode<T>>, ghost b: Tree<RbNode<T>>)
      requires node.right == Root(b) && Shape(b, node) && parent.right == Root(r) && Shape(r, parent)
      requires node != parent && Nodes(b) !! Nodes(r)
      requires node !in Nodes(b) && node !in Nodes(r) && parent !in Nodes(b) && parent !in Nodes(r)
      modifies parent, node`right, Nodes(b)
      ensures node.right == parent && Shape(Node(Red, Blacken(b), parent, r), node)
    {
      hide Shape, Nodes, Blacken;
      BlackenNodes(b);
      var tmp := node.right;
      parent.left := tmp;
      node.right := parent;
      assert Shape(b, node) && Shape(r, parent);
      assert allocated(Nodes(r));
      HangBlack(tmp, parent, b, node);
      parent.parent, parent.colour := node, Red;
      NodeShape(Red, Blacken(b), parent, r);
    }

    /** The mirror image. */
    method RestructureRight(node: RbNode<T>, parent: RbNode<T>, gp: RbNode<T>,
                            ghost sub: Tree<RbNode<T>>, ghost par: Path<RbNode<T>>)
      requires sub.Node? && sub.e == node && par != Top && par.e == parent && par.up.RightOf? && par.up.e == gp
      requires Shape(sub, parent) && PathShape(par, node, root) && Nodes(sub) !! PathNodes(par)
      modifies this`root, Nodes(sub), PathNodes(par)
      ensures var t := Plug(par.up.up, RotateRightSide(sub, par, par.up.colour, gp, par.up.left));
              Shape(t, null) && root == Root(t)
    {
      var node, parent := node, parent;
      ghost var u, above := par.up.left, par.up.up;
      ghost var x, y := sub, if par.RightOf? then par.left else Leaf;
      var tmp := parent.left;
      if node == tmp {
        assert allocated(Nodes(sub.left)) && allocated(Nodes(u)) && allocated(PathNodes(above));
        RotateParentRight(parent, node, par.right, sub.right);
        BlackenNodes(sub.right);
        x, y := Node(Red, Blacken(sub.right), parent, par.right), sub.left;
        parent := node;
        tmp := node.left;
      }
      BlackenNodes(y);
      RotateGrandLeft(gp, parent, tmp, x, y, u, above);
      PlugShape(above, Node(par.up.colour, Node(Red, u, gp, Blacken(y)), parent, x), root);
    }

    /** The colour flips at a red uncle `tmp`, which move the red node up to the grandparent. */
    method Flip(tmp: RbNode<T>, parent: RbNode<T>, gp: RbNode<T>, ghost sub: Tree<RbNode<T>>,
        ghost par: Path<RbNode<T>>)
      requires par != Top && par.up != Top && par.e == parent && par.up.e == gp && tmp == Root(Uncle(par))
      requires Shape(sub, parent) && PathShape(par, Root(sub), root) && Nodes(sub) !! PathNodes(par)
      modifies tmp, parent, gp
      ensures Shape(Flipped(sub, par), Above(par.up.up)) && PathShape(par.up.up, gp, root)
      ensures Nodes(Flipped(sub, par)) + PathNodes(par.up.up) == Nodes(sub) + PathNodes(par)
      ensures Nodes(Flipped(sub, par)) !! PathNodes(par.up.up)
    {
      hide Shape, PathShape, Nodes, PathNodes, Frame;
      ghost var u, above := Uncle(par), par.up.up;
      ghost var t1 := Frame(par, par.colour, sub);
      PathUp(par, sub, root);
      FrameGives(par, par.colour, sub);
      PathUp(par.up, t1, root);
      FrameGives(par.up, par.up.colour, t1);
      NodeParts(Frame(par.up, par.up.colour, t1), Above(above));
      NodeParts(t1, gp);
      assert tmp != parent && tmp != gp && parent != gp;
      assert allocated(Nodes(u)) && allocated(Nodes(t1)) && allocated(PathNodes(above));
      Paint(tmp, gp, u);
      assert Shape(t1, gp) && PathShape(above, gp, root);
      Paint(parent, gp, t1);
      assert Shape(Blacken(u), gp) && PathShape(above, gp, root);
      gp.colour := Red;
      assert Shape(Blacken(u), gp) && Shape(Blacken(t1), gp) && PathShape(above, gp, root);
      FrameGives(par, Black, sub);
      if par.up.LeftOf? {
        NodeShape(Red, Blacken(t1), gp, Blacken(u));
      } else {
        NodeShape(Red, Blacken(u), gp, Blacken(t1));
      }
    }

    /** RbTree_insert__: carries out the fix-up for the new red leaf `node`. */
    method InsertColour(node: RbNode<T>, ghost path: Path<RbNode<T>>)
      requires LegalPath(path) && PathShape(path, node, root) && node !in PathNodes(path)
      requires Shape(Node(Red, Leaf, node, Leaf), Above(path))
      modifies this`root, node, PathNodes(path)
      ensures var t := FixUp(path, Node(Red, Leaf, node, Leaf), Black);
              Shape(t, null) && root == Root(t)
    {
      hide Shape, PathShape, Nodes, PathNodes, FixUp, LegalPath, NoRedRed, Plug, RotateLeftSide, RotateRightSide;
      ghost var sub, p := Node(Red, Leaf, node, Leaf), path;
      ghost var all := FixUp(path, sub, Black);
      ghost var used := {node} + PathNodes(path);
      var node := node;
      var parent := node.parent;
      LeafNodes(node);
      NodeParts(sub, Above(path));
      while true
        invariant sub.Node? && sub.e == node && sub.colour == Red && parent == Above(p)
        invariant Shape(sub, parent) && PathShape(p, node, root)
        invariant Nodes(sub) !! PathNodes(p) && Nodes(sub) + PathNodes(p) == used
        invariant LegalPath(p) && NoRedRed(sub) && FixUp(p, sub, Black) == all
        decreases p
      {
        FixUpStep(p, sub);
        NodeParts(sub, parent);
        if parent == null {
          TopShape(node, root);
          Paint(node, null, sub);
          return;
        }
        Family(p, node, root);
        if parent.colour == Black {
          PlugShape(p, sub, root);
          return;
        }
        var gp := parent.parent;
        var tmp := gp.right;
        if parent != tmp {
          if tmp != null && tmp.colour == Red {
            Flip(tmp, parent, gp, sub, p);
            sub, p := Flipped(sub, p), p.up.up;
            NodeParts(sub, Above(p));
            node, parent := gp, gp.parent;
            continue;
          }
          RestructureLeft(node, parent, gp, sub, p);
          return;
        } else {
          tmp := gp.left;
          if tmp != null && tmp.colour == Red {
            Flip(tmp, parent, gp, sub, p);
            sub, p := Flipped(sub, p), p.up.up;
            NodeParts(sub, Above(p));
            node, parent := gp, gp.parent;
            continue;
          }
          RestructureRight(node, parent, gp, sub, p);
          return;
        }
      }
    }

    /** The fix-up below the new leaf, and what it makes of the whole tree. */
    method InsertFrom(node: RbNode<T>, ghost p: Path<RbNode<T>>, ghost compare: RbNode<T> -> int) returns (ghost k: nat)
      requires p == Descend(tree, Top, compare) && compare == Beside(order, node.data)
      requires Legal(tree) && Ranks(order) && InOrderOf(Contents(), order)
      requires PathShape(p, node, root) && Shape(Node(Red, Leaf, node, Leaf), Above(p))
      requires PathNodes(p) == Nodes(tree) && node !in Nodes(tree)
      modifies this`root, this`tree, node, Nodes(tree)
      ensures Valid() && tree == Insert(old(tree), node, compare, Black) && Nodes(tree) == old(Nodes(tree)) + {node}
      ensures Inserted(old(InOrder(tree)), node, k, InOrder(tree))
      ensures Inserted(old(Contents()), node.data, k, Contents())
      ensures forall i :: 0 <= i < k ==> order(node.data, old(Contents())[i]) >= 0
      ensures forall i :: k <= i < |old(Contents())| ==> order(node.data, old(Contents())[i]) < 0
    {
      hide Shape, PathShape, Nodes, PathNodes, Legal, Ranks, InOrderOf, InOrder, Insert, Inserted, Datas, NotLess;
      hide AllLess, Descend, LegalPath, FixUp, Beside, NoRedRed, Plug;
      LegalPlace(tree, compare);
      k := InsertData(tree, node, order, Black);
      InsertNodes(tree, node, compare, Black);
      InsertLegal(tree, node, compare, Black);
      InsertColour(node, p);
      tree := Insert(tree, node, compare, Black);
    }

    /**
     RbTree_add_: the new node stands behind all that do not compare greater, and in front of the rest.
     `k` is its position.
     */
    method Add(value: T) returns (node: RbNode<T>, ghost k: nat)
      requires Valid()
      modifies this`root, this`tree, Nodes(tree)
      ensures Valid() && fresh(node) && node.data == value && Nodes(tree) == old(Nodes(tree)) + {node}
      ensures Inserted(old(InOrder(tree)), node, k, InOrder(tree)) && Inserted(old(Contents()), value, k, Contents())
      ensures forall i :: 0 <= i < k ==> order(value, old(Contents())[i]) >= 0
      ensures forall i :: k <= i < |old(Contents())| ==> order(value, old(Contents())[i]) < 0
      ensures tree == Insert(old(tree), node, Beside(order, value), Black)
    {
      hide Shape, PathShape, Nodes, PathNodes, Legal, Ranks, InOrderOf, InOrder, Insert, Inserted, Datas, NotLess;
      hide AllLess;
      assert Shape(tree, null) && Legal(tree) && Ranks(order) && InOrderOf(Contents(), order) && allocated(Nodes(tree));
      node := new RbNode(value);
      assert Shape(tree, null) && InOrderOf(Contents(), order) && node !in Nodes(tree);
      var parent, atLeft;
      ghost var p;
      parent, atLeft, p := FindPlace(value);
      LinkNode(node, parent, atLeft, p);
      k := InsertFrom(node, p, Beside(order, value));
    }

    /** The loop of RbTree_find_or_add_. */
    method FindPlaceOrNode(value: T)
      returns (found: RbNode?<T>, parent: RbNode?<T>, atLeft: bool, ghost p: Path<RbNode<T>>)
      requires Valid()
      ensures found == null <==> NoneEqual(Contents(), Against(order, value))
      ensures found != null ==> found in Nodes(tree) && order(value, found.data) == 0
      ensures found == null ==>
                p == Descend(tree, Top, Beside(order, value)) && PathNodes(p) == Nodes(tree) &&
                parent == Above(p) && (p != Top ==> atLeft == p.LeftOf?) && PathShape(p, null, root)
    {
      hide Shape, PathShape, Nodes, PathNodes, Beside, NoneEqual, Ranks, InOrderOf, Datas;
      var link := root;
      parent, atLeft, p := null, false, Top;
      ghost var t, compare := tree, Beside(order, value);
      TopStart(tree, root);
      LookupNodes(tree, value, order);
      while link != null
        invariant link == Root(t) && parent == Above(p) && (p != Top ==> atLeft == p.LeftOf?)
        invariant Shape(t, parent) && PathShape(p, link, root) && Nodes(t) !! PathNodes(p)
        invariant Nodes(t) + PathNodes(p) == Nodes(tree)
        invariant Descend(t, p, compare) == Descend(tree, Top, compare)
        invariant Lookup(t, compare) == Lookup(tree, compare)
        decreases t
      {
        NodeParts(t, parent);
        parent := link;
        BesideIs(order, value, parent);
        var res := order(value, parent.data);
        if res < 0 {
          DownLeft(t, p, root);
          t, p, link, atLeft := t.left, LeftOf(t.colour, t.e, t.right, p), parent.left, true;
        } else if res > 0 {
          DownRight(t, p, root);
          t, p, link, atLeft := t.right, RightOf(t.colour, t.left, t.e, p), parent.right, false;
        } else {
          return parent, parent, atLeft, p;
        }
      }
      NodesLeaf(t);
      assert PathNodes(p) == Nodes(tree);
      found := null;
    }

    /** RbTree_find_or_add_: adds a node exactly when no datum is equal; an equal one is handed out as it is. */
    method FindOrAdd(value: T) returns (added: bool, node: RbNode<T>, ghost k: nat)
      requires Valid()
      modifies this`root, this`tree, Nodes(tree)
      ensures Valid()
      ensures added <==> NoneEqual(old(Contents()), Against(order, value))
      ensures !added ==> tree == old(tree) && node in Nodes(tree) && order(value, node.data) == 0
      ensures added ==> fresh(node) && node.data == value && Nodes(tree) == old(Nodes(tree)) + {node}
      ensures added ==> Inserted(old(InOrder(tree)), node, k, InOrder(tree))
      ensures added ==> Inserted(old(Contents()), value, k, Contents())
      ensures old(Increasing(Contents(), order)) ==> Increasing(Contents(), order)
    {
      hide Shape, PathShape, Nodes, PathNodes, Legal, Ranks, InOrderOf, InOrder, Insert, Inserted, Datas, NotLess;
      hide AllLess, Increasing, NoneEqual;
      assert Shape(tree, null) && Legal(tree) && Ranks(order) && InOrderOf(Contents(), order) && allocated(Nodes(tree));
      var found, parent, atLeft;
      ghost var p;
      k := 0;
      found, parent, atLeft, p := FindPlaceOrNode(value);
      if found != null {
        return false, found, 0;
      }
      node := new RbNode(value);
      assert Shape(tree, null) && InOrderOf(Contents(), order) && node !in Nodes(tree) && allocated(PathNodes(p));
      assert PathShape(p, null, root);
      LinkNode(node, parent, atLeft, p);
      k := InsertFrom(node, p, Beside(order, value));
      added := true;
      StaysIncreasing(old(Contents()), value, k, Contents(), order);
    }

    /** RbTree_find_: an equal node, or null exactly when there is none. */
    method Find(value: T) returns (node: RbNode?<T>)
      requires Valid()
      ensures node == null <==> NoneEqual(Contents(), Against(order, value))
      ensures node != null ==> node in Nodes(tree) && order(value, node.data) == 0
    {
      hide Shape, Nodes, Beside, NoneEqual, Ranks, InOrderOf, Datas;
      node := root;
      ghost var t, up: RbNode?<T>, compare := tree, null, Beside(order, value);
      LookupNodes(tree, value, order);
      while node != null
        invariant node == Root(t) && Shape(t, up) && Lookup(t, compare) == Lookup(tree, compare)
        decreases t
      {
        NodeParts(t, up);
        BesideIs(order, value, node);
        var res := order(value, node.data);
        if res < 0 {
          t, up := t.left, node;
          node := node.left;
        } else if res > 0 {
          t, up := t.right, node;
          node := node.right;
        } else {
          return;
        }
      }
    }

    /** Down to the left as far as there are nodes. */
    method LeftMost(from: RbNode<T>, ghost sub: Tree<RbNode<T>>, ghost up: RbNode?<T>) returns (node: RbNode<T>)
      requires sub.Node? && sub.e == from && Shape(sub, up)
      ensures node == FirstOf(sub)
    {
      hide Shape, Nodes;
      node := from;
      ghost var t, above := sub, up;
      NodeParts(t, above);
      while node.left != null
        invariant t.Node? && t.e == node && Shape(t, above) && FirstOf(t) == FirstOf(sub) && node.left == Root(t.left)
        decreases t
      {
        NodeParts(t, above);
        t, above := t.left, node;
        NodeParts(t, above);
        node := node.left;
      }
    }

    /** RbTree_first */
    method First() returns (node: RbNode?<T>)
      requires Valid()
      ensures node == if InOrder(tree) == [] then null else InOrder(tree)[0]
    {
      hide Shape, Nodes, Ranks, InOrderOf, Datas, InOrder;
      node := root;
      if node == null {
        LeafInOrder(tree);
        return;
      }
      EndsOf(tree);
      node := LeftMost(node, tree, null);
    }

    method RightMost(from: RbNode<T>, ghost sub: Tree<RbNode<T>>, ghost up: RbNode?<T>) returns (node: RbNode<T>)
      requires sub.Node? && sub.e == from && Shape(sub, up)
      ensures node == LastOf(sub)
    {
      hide Shape, Nodes;
      node := from;
      ghost var t, above := sub, up;
      NodeParts(t, above);
      while node.right != null
        invariant t.Node? && t.e == node && Shape(t, above) && LastOf(t) == LastOf(sub) && node.right == Root(t.right)
        decreases t
      {
        NodeParts(t, above);
        t, above := t.right, node;
        NodeParts(t, above);
        node := node.right;
      }
    }

    /** Up to the first ancestor that has the node on its left. */
    method ClimbNext(from: RbNode<T>, ghost q: Path<RbNode<T>>) returns (node: RbNode?<T>)
      requires PathShape(q, from, root) && from.parent == Above(q) && from !in PathNodes(q)
      ensures if After(q) == [] then node == null else node == After(q)[0]
    {
      hide PathShape, PathNodes, After;
      ghost var p := q;
      var at: RbNode<T>, parent := from, from.parent;
      while parent != null && at == parent.right
        invariant PathShape(p, at, root) && parent == Above(p) && at !in PathNodes(p) && After(p) == After(q)
        decreases p
      {
        PathParts(p, at, root);
        p, at := p.up, parent;
        parent := at.parent;
        AboveInside(p);
      }
      if p != Top {
        PathParts(p, at, root);
      }
      AfterIs(p);
      node := parent;
    }

    static lemma NotItsParent(q: Path<RbNode<T>>, x: RbNode<T>)
      requires x !in PathNodes(q)
      ensures Above(q) != x
    {
    }

    /** The subtree of a node and the way up from it, and its neighbours in terms of these. */
    lemma Around(from: RbNode<T>) returns (q: Path<RbNode<T>>, s: Tree<RbNode<T>>)
      requires Valid() && from in Nodes(tree)
      ensures s.Node? && s.e == from && Shape(s, Above(q)) && PathShape(q, from, root) && from !in PathNodes(q)
      ensures var before, after := Before(q) + InOrder(s.left), InOrder(s.right) + After(q);
              forall i :: 0 <= i < |InOrder(tree)| && InOrder(tree)[i] == from ==>
                Behind(InOrder(tree), i) == (if after == [] then null else after[0]) &&
                InFront(InOrder(tree), i) == (if before == [] then null else before[|before| - 1])
    {
      hide Shape, PathShape, Nodes, PathNodes, Ranks, InOrderOf, Datas, InOrder, Legal, Before, After, Behind, InFront;
      TopStart(tree, root);
      q, s := Focus(tree, Top, from, root);
      assert InOrder(tree) == Before(q) + InOrder(s.left) + [from] + (InOrder(s.right) + After(q));
      AboveInside(q);
      NodeParts(s, Above(q));
      Distinct(tree, null);
      NeighboursAt(InOrder(tree), Before(q) + InOrder(s.left), from, InOrder(s.right) + After(q));
    }

    /** RbTreeNode_next: the node behind `from` in the sequence, or null at its end. */
    method Next(from: RbNode<T>) returns (node: RbNode?<T>)
      requires Valid() && from in Nodes(tree)
      ensures forall i :: 0 <= i < |InOrder(tree)| && InOrder(tree)[i] == from ==>
                node == Behind(InOrder(tree), i)
    {
      hide Shape, PathShape, Nodes, PathNodes, InOrder, Before, After, Behind, InFront, Above, Legal, Ranks, InOrderOf;
      var isEmpty := from.parent == from && from.colour == Red;
      ghost var q, s := Around(from);
      NodeParts(s, Above(q));
      NotItsParent(q, from);
      if isEmpty {
        return null;
      }
      if from.right != null {
        EndsOf(s.right);
        node := LeftMost(from.right, s.right, from);
        return;
      }
      LeafInOrder(s.right);
      node := ClimbNext(from, q);
    }

    /** Up to the first ancestor that has the node on its right. */
    method ClimbPrev(from: RbNode<T>, ghost q: Path<RbNode<T>>) returns (node: RbNode?<T>)
      requires PathShape(q, from, root) && from.parent == Above(q) && from !in PathNodes(q)
      ensures if Before(q) == [] then node == null else node == Before(q)[|Before(q)| - 1]
    {
      hide PathShape, PathNodes, Before;
      ghost var p := q;
      var at: RbNode<T>, parent := from, from.parent;
      while parent != null && at == parent.left
        invariant PathShape(p, at, root) && parent == Above(p) && at !in PathNodes(p) && Before(p) == Before(q)
        decreases p
      {
        PathParts(p, at, root);
        p, at := p.up, parent;
        parent := at.parent;
        AboveInside(p);
      }
      if p != Top {
        PathParts(p, at, root);
      }
      BeforeIs(p);
      node := parent;
    }

    /** RbTreeNode_prev: the node in front of `from` in the sequence, or null at its start. */
    method Prev(from: RbNode<T>) returns (node: RbNode?<T>)
      requires Valid() && from in Nodes(tree)
      ensures forall i :: 0 <= i < |InOrder(tree)| && InOrder(tree)[i] == from ==>
                node == InFront(InOrder(tree), i)
    {
      hide Shape, PathShape, Nodes, PathNodes, InOrder, Before, After, Behind, InFront, Above, Legal, Ranks, InOrderOf;
      var isEmpty := from.parent == from && from.colour == Red;
      ghost var q, s := Around(from);
      NodeParts(s, Above(q));
      NotItsParent(q, from);
      if isEmpty {
        return null;
      }
      if from.left != null {
        EndsOf(s.left);
        node := RightMost(from.left, s.left, from);
        return;
      }
      LeafInOrder(s.left);
      node := ClimbPrev(from, q);
    }

    /** Going on and back again, or back and on again, ends where it started. */
    method ThereAndBack(from: RbNode<T>) returns (next: RbNode?<T>, back: RbNode?<T>)
      requires Valid() && from in Nodes(tree)
      ensures next != null ==> back == from
    {
      hide Shape, Nodes, Ranks, InOrderOf, InOrder, Legal, Datas;
      back := null;
      ghost var i := PositionOf(tree, from);
      assert allocated(Nodes(tree));
      next := Next(from);
      if next != null {
        InTree(tree, i + 1);
        back := Prev(next);
      }
    }

    method BackAndThere(from: RbNode<T>) returns (prev: RbNode?<T>, back: RbNode?<T>)
      requires Valid() && from in Nodes(tree)
      ensures prev != null ==> back == from
    {
      hide Shape, Nodes, Ranks, InOrderOf, InOrder, Legal, Datas;
      back := null;
      ghost var i := PositionOf(tree, from);
      assert allocated(Nodes(tree));
      prev := Prev(from);
      if prev != null {
        InTree(tree, i - 1);
        back := Next(prev);
      }
    }

    /** RbTree_for_each: passes every datum once, in order. */
    method ForEach() returns (visited: seq<T>)
      requires Valid()
      ensures visited == Contents()
    {
      hide Shape, Nodes, Ranks, InOrderOf, InOrder, Legal, Datas;
      visited := [];
      assert allocated(Nodes(tree));
      var node := First();
      ghost var s := InOrder(tree);
      NodesInOrder(tree);
      while node != null
        invariant Valid() && s == InOrder(tree) && |visited| <= |s| && visited == Datas(s[..|visited|])
        invariant node == if |visited| < |s| then s[|visited|] else null
        decreases |s| - |visited|
      {
        DatasMore(s, |visited|);
        assert node in s && allocated(Nodes(tree));
        visited := visited + [node.data];
        node := Next(node);
        assert InOrder(tree) == s && s[|visited| - 1] in s;
      }
      assert s[..|s|] == s;
    }
  }
}
