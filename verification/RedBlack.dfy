/**
 Red-black insertion as a function on trees. A path is what is above a subtree; the fix-up climbs it
 exactly as the program's loop climbs the parent pointers.

 The colour that the old parent gets in the inner rotation on the left side is a parameter: the
 program paints it black there, while the mirror image on the right side paints it red.
 */
module RedBlack {
  import opened Basics

  datatype Colour = Red | Black

  datatype Tree<E> = Leaf | Node(colour: Colour, left: Tree<E>, e: E, right: Tree<E>)

  /** The way from a subtree up to the root. LeftOf: the subtree is the left child of `e`. */
  datatype Path<E> = Top
                   | LeftOf(colour: Colour, e: E, right: Tree<E>, up: Path<E>)
                   | RightOf(colour: Colour, left: Tree<E>, e: E, up: Path<E>)

  predicate IsRed<E>(t: Tree<E>) {
    t.Node? && t.colour == Red
  }

  /** Painting the root black, if there is one. */
  function Blacken<E>(t: Tree<E>): Tree<E> {
    if t.Leaf? then t else t.(colour := Black)
  }

  /** The whole tree around a subtree. */
  function Plug<E>(p: Path<E>, t: Tree<E>): Tree<E>
    decreases p
  {
    match p
    case Top => t
    case LeftOf(c, e, r, up) => Plug(up, Node(c, t, e, r))
    case RightOf(c, l, e, up) => Plug(up, Node(c, l, e, t))
  }

  function InOrder<E>(t: Tree<E>): seq<E> {
    match t
    case Leaf => []
    case Node(_, l, e, r) => InOrder(l) + [e] + InOrder(r)
  }

  /** The elements in front of and behind the place of a path. */
  function Before<E>(p: Path<E>): seq<E> {
    match p
    case Top => []
    case LeftOf(_, _, _, up) => Before(up)
    case RightOf(_, l, e, up) => Before(up) + InOrder(l) + [e]
  }

  function After<E>(p: Path<E>): seq<E> {
    match p
    case Top => []
    case LeftOf(_, e, r, up) => [e] + InOrder(r) + After(up)
    case RightOf(_, _, _, up) => After(up)
  }

  // ---------------------------------------------------------------------------------------------
  // Insertion
  // ---------------------------------------------------------------------------------------------

  /** The place of a new element: `compare(e)` is its comparison with `e`; it goes behind its equals. */
  function Descend<E>(t: Tree<E>, p: Path<E>, compare: E -> int): Path<E>
    decreases t
  {
    match t
    case Leaf => p
    case Node(c, l, e, r) =>
      if compare(e) < 0 then Descend(l, LeftOf(c, e, r, p), compare) else Descend(r, RightOf(c, l, e, p), compare)
  }

  /** The subtree after the rotations on the left side of a black-uncle grandparent. */
  function RotateLeftSide<E>(sub: Tree<E>, par: Path<E>, gc: Colour, g: E, u: Tree<E>, inner: Colour): Tree<E>
    requires par != Top && sub.Node?
  {
    match par
    case LeftOf(_, p, r, _) => Node(gc, sub, p, Node(Red, Blacken(r), g, u))
    case RightOf(_, l, p, _) =>
      Node(gc, Node(inner, l, p, Blacken(sub.left)), sub.e, Node(Red, Blacken(sub.right), g, u))
  }

  function RotateRightSide<E>(sub: Tree<E>, par: Path<E>, gc: Colour, g: E, u: Tree<E>): Tree<E>
    requires par != Top && sub.Node?
  {
    match par
    case RightOf(_, l, p, _) => Node(gc, Node(Red, u, g, Blacken(l)), p, sub)
    case LeftOf(_, p, r, _) => Node(gc, Node(Red, u, g, Blacken(sub.left)), sub.e, Node(Red, Blacken(sub.right), p, r))
  }

  function Frame<E>(par: Path<E>, c: Colour, sub: Tree<E>): Tree<E>
    requires par != Top
  {
    match par
    case LeftOf(_, p, r, _) => Node(c, sub, p, r)
    case RightOf(_, l, p, _) => Node(c, l, p, sub)
  }

  /** RbTree_insert__: the loop from the red subtree `sub` up. */
  function FixUp<E>(path: Path<E>, sub: Tree<E>, inner: Colour): Tree<E>
    requires sub.Node?
    decreases path
  {
    if path.Top? then
      Blacken(sub)
    else if path.colour == Black || path.up.Top? then
      Plug(path, sub)
    else
      match path.up
      case LeftOf(gc, g, u, up) =>
        if IsRed(u) then FixUp(up, Node(Red, Frame(path, Black, sub), g, Blacken(u)), inner)
        else Plug(up, RotateLeftSide(sub, path, gc, g, u, inner))
      case RightOf(gc, u, g, up) =>
        if IsRed(u) then FixUp(up, Node(Red, Blacken(u), g, Frame(path, Black, sub)), inner)
        else Plug(up, RotateRightSide(sub, path, gc, g, u))
  }

  function Insert<E>(t: Tree<E>, v: E, compare: E -> int, inner: Colour): Tree<E> {
    FixUp(Descend(t, Top, compare), Node(Red, Leaf, v, Leaf), inner)
  }

  // ---------------------------------------------------------------------------------------------
  // Order
  // ---------------------------------------------------------------------------------------------

  /** What a step down leaves on both sides. */
  lemma PathSides<E>(c: Colour, l: Tree<E>, e: E, r: Tree<E>, p: Path<E>)
    ensures Before(LeftOf(c, e, r, p)) == Before(p) && After(LeftOf(c, e, r, p)) == [e] + InOrder(r) + After(p)
    ensures Before(RightOf(c, l, e, p)) == Before(p) + InOrder(l) + [e] && After(RightOf(c, l, e, p)) == After(p)
  {
  }

  lemma Shift<E>(a: seq<E>, l: seq<E>, e: E, r: seq<E>, b: seq<E>)
    ensures a + l + ([e] + r + b) == a + (l + [e] + r) + b
    ensures a + l + [e] + r + b == a + (l + [e] + r) + b
  {
  }

  lemma NodeInOrder<E>(c: Colour, l: Tree<E>, e: E, r: Tree<E>)
    ensures InOrder(Node(c, l, e, r)) == InOrder(l) + [e] + InOrder(r)
  {
  }

  lemma {:induction false} InOrderPlug<E>(p: Path<E>, t: Tree<E>)
    ensures InOrder(Plug(p, t)) == Before(p) + InOrder(t) + After(p)
    decreases p
  {
    match p {
      case Top =>
      case LeftOf(c, e, r, up) =>
        InOrderPlug(up, Node(c, t, e, r));
        NodeInOrder(c, t, e, r);
        PathSides(c, t, e, r, up);
        hide InOrder, Before, After;
        Shift(Before(up), InOrder(t), e, InOrder(r), After(up));
      case RightOf(c, l, e, up) =>
        InOrderPlug(up, Node(c, l, e, t));
        NodeInOrder(c, l, e, t);
        PathSides(c, l, e, t, up);
        hide InOrder, Before, After;
        Shift(Before(up), InOrder(l), e, InOrder(t), After(up));
    }
  }

  lemma BlackenInOrder<E>(t: Tree<E>)
    ensures InOrder(Blacken(t)) == InOrder(t)
  {
  }

  lemma LeafInOrder<E>(t: Tree<E>)
    requires t.Leaf?
    ensures InOrder(t) == []
  {
  }

  lemma Regroup<E>(a: seq<E>, x: E, b: seq<E>, y: E, c: seq<E>)
    ensures a + [x] + (b + [y] + c) == a + [x] + b + [y] + c
  {
  }

  lemma RotateLeftSideInOrder<E>(sub: Tree<E>, par: Path<E>, gc: Colour, g: E, u: Tree<E>, inner: Colour)
    requires par != Top && sub.Node?
    ensures InOrder(RotateLeftSide(sub, par, gc, g, u, inner)) == InOrder(Node(gc, Frame(par, Red, sub), g, u))
  {
    match par {
      case LeftOf(_, p, r, _) =>
        BlackenInOrder(r);
        Regroup(InOrder(sub), p, InOrder(r), g, InOrder(u));
      case RightOf(_, l, p, _) =>
        BlackenInOrder(sub.left);
        BlackenInOrder(sub.right);
        assert InOrder(Frame(par, Red, sub)) == InOrder(l) + [p] + (InOrder(sub.left) + [sub.e] + InOrder(sub.right));
        Regroup(InOrder(l) + [p] + InOrder(sub.left), sub.e, InOrder(sub.right), g, InOrder(u));
    }
  }

  lemma RotateRightSideInOrder<E>(sub: Tree<E>, par: Path<E>, gc: Colour, g: E, u: Tree<E>)
    requires par != Top && sub.Node?
    ensures InOrder(RotateRightSide(sub, par, gc, g, u)) == InOrder(Node(gc, u, g, Frame(par, Red, sub)))
  {
    match par {
      case RightOf(_, l, p, _) =>
        BlackenInOrder(l);
        Regroup(InOrder(u), g, InOrder(l), p, InOrder(sub));
      case LeftOf(_, p, r, _) =>
        BlackenInOrder(sub.left);
        BlackenInOrder(sub.right);
        Regroup(InOrder(u), g, InOrder(sub.left), sub.e, InOrder(sub.right) + [p] + InOrder(r));
        assert InOrder(Frame(par, Red, sub)) == InOrder(sub.left) + [sub.e] + (InOrder(sub.right) + [p] + InOrder(r));
    }
  }

  lemma FrameInOrder<E>(par: Path<E>, c: Colour, sub: Tree<E>)
    requires par != Top
    ensures Before(par.up) + InOrder(Frame(par, c, sub)) + After(par.up) == Before(par) + InOrder(sub) + After(par)
  {
  }

  lemma PlugTop<E>(t: Tree<E>)
    ensures Plug(Top, t) == t
  {
  }

  lemma FrameGives<E>(up: Path<E>, c: Colour, t: Tree<E>)
    requires up != Top
    ensures Frame(up, c, t) == if up.LeftOf? then Node(c, t, up.e, up.right) else Node(c, up.left, up.e, t)
  {
  }

  lemma FlipInOrder<E>(par: Path<E>, sub: Tree<E>, u: Tree<E>, g: E, gc: Colour)
    requires par != Top
    ensures InOrder(Node(Red, Frame(par, Black, sub), g, Blacken(u))) == InOrder(Node(gc, Frame(par, Red, sub), g, u))
    ensures InOrder(Node(Red, Blacken(u), g, Frame(par, Black, sub))) == InOrder(Node(gc, u, g, Frame(par, Red, sub)))
  {
    BlackenInOrder(u);
  }

  /** Rotations and recolouring move no element. */
  lemma {:induction false} FixUpInOrder<E>(path: Path<E>, sub: Tree<E>, inner: Colour)
    requires sub.Node?
    ensures InOrder(FixUp(path, sub, inner)) == Before(path) + InOrder(sub) + After(path)
    decreases path
  {
    hide InOrder, Plug, Before, After, Frame, RotateLeftSide, RotateRightSide, Blacken;
    if path.Top? {
      BlackenInOrder(sub);
      InOrderPlug(path, sub);
      InOrderPlug(path, Blacken(sub));
      PlugTop(sub);
      PlugTop(Blacken(sub));
    } else if path.colour == Black || path.up.Top? {
      InOrderPlug(path, sub);
    } else {
      var up := path.up;
      FrameInOrder(path, Red, sub);
      match up {
        case LeftOf(gc, g, u, above) =>
          var grand := Node(gc, Frame(path, Red, sub), g, u);
          FrameInOrder(up, gc, Frame(path, Red, sub));
          FrameGives(up, gc, Frame(path, Red, sub));
          if IsRed(u) {
            FlipInOrder(path, sub, u, g, gc);
            FixUpInOrder(above, Node(Red, Frame(path, Black, sub), g, Blacken(u)), inner);
          } else {
            RotateLeftSideInOrder(sub, path, gc, g, u, inner);
            InOrderPlug(above, RotateLeftSide(sub, path, gc, g, u, inner));
          }
        case RightOf(gc, u, g, above) =>
          FrameInOrder(up, gc, Frame(path, Red, sub));
          FrameGives(up, gc, Frame(path, Red, sub));
          if IsRed(u) {
            FlipInOrder(path, sub, u, g, gc);
            FixUpInOrder(above, Node(Red, Blacken(u), g, Frame(path, Black, sub)), inner);
          } else {
            RotateRightSideInOrder(sub, path, gc, g, u);
            InOrderPlug(above, RotateRightSide(sub, path, gc, g, u));
          }
      }
    }
  }

  /** Once the new element is smaller than one, it is smaller than all behind it. */
  predicate Ascending<E>(s: seq<E>, compare: E -> int) {
    forall i, j :: 0 <= i < j < |s| && compare(s[i]) < 0 ==> compare(s[j]) < 0
  }

  predicate NotLess<E>(s: seq<E>, compare: E -> int) {
    forall i :: 0 <= i < |s| ==> compare(s[i]) >= 0
  }

  predicate AllLess<E>(s: seq<E>, compare: E -> int) {
    forall i :: 0 <= i < |s| ==> compare(s[i]) < 0
  }

  lemma SplitAscending<E>(l: seq<E>, e: E, r: seq<E>, compare: E -> int)
    requires Ascending(l + [e] + r, compare)
    ensures Ascending(l, compare) && Ascending(r, compare)
    ensures compare(e) < 0 ==> AllLess([e] + r, compare)
    ensures compare(e) >= 0 ==> NotLess(l + [e], compare)
  {
    var s := l + [e] + r;
    assert s[|l|] == e;
    assert forall k :: 0 <= k < |l| ==> s[k] == l[k];
    assert forall k :: 0 <= k < |r| ==> s[|l| + 1 + k] == r[k];
  }

  lemma AllLessJoins<E>(a: seq<E>, b: seq<E>, compare: E -> int)
    requires AllLess(a, compare) && AllLess(b, compare)
    ensures AllLess(a + b, compare)
  {
  }

  lemma NotLessJoins<E>(a: seq<E>, b: seq<E>, compare: E -> int)
    requires NotLess(a, compare) && NotLess(b, compare)
    ensures NotLess(a + b, compare)
  {
  }

  lemma {:induction false} DescendOrder<E>(t: Tree<E>, p: Path<E>, compare: E -> int)
    requires Ascending(InOrder(t), compare) && NotLess(Before(p), compare) && AllLess(After(p), compare)
    ensures Before(Descend(t, p, compare)) + After(Descend(t, p, compare)) == Before(p) + InOrder(t) + After(p)
    ensures NotLess(Before(Descend(t, p, compare)), compare)
    ensures AllLess(After(Descend(t, p, compare)), compare)
    decreases t
  {
    hide InOrder, Before, After, Ascending, NotLess, AllLess;
    if t.Leaf? {
      LeafInOrder(t);
    } else {
      PathSides(t.colour, t.left, t.e, t.right, p);
      var l, e, r := InOrder(t.left), t.e, InOrder(t.right);
      NodeInOrder(t.colour, t.left, e, t.right);
      SplitAscending(l, e, r, compare);
      if compare(e) < 0 {
        var p1 := LeftOf(t.colour, e, t.right, p);
        AllLessJoins([e] + r, After(p), compare);
        DescendOrder(t.left, p1, compare);
        Shift(Before(p), l, e, r, After(p));
      } else {
        var p1 := RightOf(t.colour, t.left, e, p);
        NotLessJoins(Before(p), l + [e], compare);
        assert Before(p) + (l + [e]) == Before(p) + l + [e];
        DescendOrder(t.right, p1, compare);
        Shift(Before(p), l, e, r, After(p));
      }
    }
  }

  /** An insertion adds exactly one element to the sequence, behind its equals and before all that are greater. */
  lemma InsertInOrder<E>(t: Tree<E>, v: E, compare: E -> int, inner: Colour)
    requires Ascending(InOrder(t), compare)
    ensures var p := Descend(t, Top, compare);
            InOrder(Insert(t, v, compare, inner)) == Before(p) + [v] + After(p) &&
            InOrder(t) == Before(p) + After(p) && NotLess(Before(p), compare) && AllLess(After(p), compare)
  {
    assert InOrder(Node(Red, Leaf, v, Leaf)) == [v];
    assert Before<E>(Top) == [] && After<E>(Top) == [];
    assert NotLess(Before<E>(Top), compare) && AllLess(After<E>(Top), compare);
    hide InOrder, Before, After, FixUp, Descend, NotLess, AllLess, Ascending;
    DescendOrder(t, Top, compare);
    FixUpInOrder(Descend(t, Top, compare), Node(Red, Leaf, v, Leaf), inner);
  }

  // ---------------------------------------------------------------------------------------------
  // Lookup
  // ---------------------------------------------------------------------------------------------

  /** The subtree at the first equal element on the way down, or a leaf. */
  function Lookup<E>(t: Tree<E>, compare: E -> int): Tree<E> {
    match t
    case Leaf => Leaf
    case Node(_, l, e, r) =>
      if compare(e) < 0 then Lookup(l, compare) else if compare(e) > 0 then Lookup(r, compare) else t
  }

  /** First the elements that compare smaller, then the equal ones, then the greater ones. */
  predicate ThreeRuns<E>(s: seq<E>, compare: E -> int) {
    && (forall i, j :: 0 <= i < j < |s| && compare(s[i]) < 0 ==> compare(s[j]) < 0)
    && (forall i, j :: 0 <= i < j < |s| && compare(s[i]) == 0 ==> compare(s[j]) <= 0)
  }

  predicate NoneEqual<E>(s: seq<E>, compare: E -> int) {
    forall i :: 0 <= i < |s| ==> compare(s[i]) != 0
  }

  lemma SplitRuns<E>(l: seq<E>, e: E, r: seq<E>, compare: E -> int)
    requires ThreeRuns(l + [e] + r, compare)
    ensures ThreeRuns(l, compare) && ThreeRuns(r, compare)
    ensures compare(e) < 0 ==> (NoneEqual(l + [e] + r, compare) <==> NoneEqual(l, compare))
    ensures compare(e) > 0 ==> (NoneEqual(l + [e] + r, compare) <==> NoneEqual(r, compare))
    ensures compare(e) == 0 ==> !NoneEqual(l + [e] + r, compare)
  {
    var s := l + [e] + r;
    assert s[|l|] == e;
    assert forall k :: 0 <= k < |l| ==> s[k] == l[k];
    assert forall k :: 0 <= k < |r| ==> s[|l| + 1 + k] == r[k];
    assert forall k :: |l| < k < |s| ==> s[k] == r[k - |l| - 1];
  }

  /** The way down meets an equal element exactly when there is one. */
  lemma {:induction false} LookupFinds<E>(t: Tree<E>, compare: E -> int)
    requires ThreeRuns(InOrder(t), compare)
    ensures Lookup(t, compare).Leaf? <==> NoneEqual(InOrder(t), compare)
    ensures Lookup(t, compare).Node? ==> Lookup(t, compare).e in InOrder(t) && compare(Lookup(t, compare).e) == 0
  {
    if t.Node? {
      SplitRuns(InOrder(t.left), t.e, InOrder(t.right), compare);
      if compare(t.e) < 0 {
        LookupFinds(t.left, compare);
      } else if compare(t.e) > 0 {
        LookupFinds(t.right, compare);
      }
    }
  }

  /** The first and the last element. */
  function FirstOf<E>(t: Tree<E>): E
    requires t.Node?
  {
    if t.left.Leaf? then t.e else FirstOf(t.left)
  }

  function LastOf<E>(t: Tree<E>): E
    requires t.Node?
  {
    if t.right.Leaf? then t.e else LastOf(t.right)
  }

  lemma {:induction false} EndsOf<E>(t: Tree<E>)
    requires t.Node?
    ensures |InOrder(t)| > 0 && InOrder(t)[0] == FirstOf(t) && InOrder(t)[|InOrder(t)| - 1] == LastOf(t)
  {
    if t.left.Node? {
      EndsOf(t.left);
    }
    if t.right.Node? {
      EndsOf(t.right);
    }
  }

  // ---------------------------------------------------------------------------------------------
  // No red node has a red child, and the root is black: with either colour of the inner rotation
  // ---------------------------------------------------------------------------------------------

  predicate NoRedRed<E>(t: Tree<E>) {
    match t
    case Leaf => true
    case Node(c, l, _, r) => NoRedRed(l) && NoRedRed(r) && (c == Red ==> !IsRed(l) && !IsRed(r))
  }

  predicate Legal<E>(t: Tree<E>) {
    NoRedRed(t) && !IsRed(t)
  }

  predicate UnderRed<E>(p: Path<E>) {
    p != Top && p.colour == Red
  }

  /** All is legal around the place, up to the node that goes there. */
  predicate LegalPath<E>(p: Path<E>)
    decreases p
  {
    match p
    case Top => true
    case LeftOf(c, _, r, up) =>
      NoRedRed(r) && LegalPath(up) && (c == Red ==> !IsRed(r) && up != Top && !UnderRed(up))
    case RightOf(c, l, _, up) =>
      NoRedRed(l) && LegalPath(up) && (c == Red ==> !IsRed(l) && up != Top && !UnderRed(up))
  }

  lemma {:induction false} PlugLegal<E>(p: Path<E>, t: Tree<E>)
    ensures Legal(Plug(p, t)) <==> LegalPath(p) && NoRedRed(t) && (IsRed(t) ==> p != Top && !UnderRed(p))
    decreases p
  {
    match p {
      case Top =>
      case LeftOf(c, e, r, up) => PlugLegal(up, Node(c, t, e, r));
      case RightOf(c, l, e, up) => PlugLegal(up, Node(c, l, e, t));
    }
  }

  lemma FlipLegal<E>(par: Path<E>, sub: Tree<E>, u: Tree<E>, g: E)
    requires LegalPath(par) && UnderRed(par) && NoRedRed(u) && NoRedRed(sub)
    ensures NoRedRed(Node(Red, Frame(par, Black, sub), g, Blacken(u)))
    ensures NoRedRed(Node(Red, Blacken(u), g, Frame(par, Black, sub)))
  {
  }

  lemma RotationsLegal<E>(par: Path<E>, sub: Tree<E>, u: Tree<E>, g: E, inner: Colour)
    requires LegalPath(par) && UnderRed(par) && NoRedRed(u) && IsRed(sub) && NoRedRed(sub)
    ensures !IsRed(u) ==> Legal(RotateLeftSide(sub, par, Black, g, u, inner))
    ensures !IsRed(u) ==> Legal(RotateRightSide(sub, par, Black, g, u))
  {
  }

  lemma {:induction false} FixUpLegal<E>(path: Path<E>, sub: Tree<E>, inner: Colour)
    requires LegalPath(path) && NoRedRed(sub) && IsRed(sub)
    ensures Legal(FixUp(path, sub, inner))
    decreases path
  {
    if path.Top? {
    } else if path.colour == Black {
      PlugLegal(path, sub);
    } else {
      var up, above := path.up, path.up.up;
      var u := if up.LeftOf? then up.right else up.left;
      assert up.colour == Black && NoRedRed(u) && LegalPath(above);
      FlipLegal(path, sub, u, up.e);
      RotationsLegal(path, sub, u, up.e, inner);
      hide NoRedRed, Frame, RotateLeftSide, RotateRightSide, Blacken, Plug, LegalPath;
      if IsRed(u) {
        if up.LeftOf? {
          FixUpLegal(above, Node(Red, Frame(path, Black, sub), up.e, Blacken(u)), inner);
        } else {
          FixUpLegal(above, Node(Red, Blacken(u), up.e, Frame(path, Black, sub)), inner);
        }
      } else if up.LeftOf? {
        PlugLegal(above, RotateLeftSide(sub, path, Black, up.e, u, inner));
      } else {
        PlugLegal(above, RotateRightSide(sub, path, Black, up.e, u));
      }
    }
  }

  lemma {:induction false} DescendPlug<E>(t: Tree<E>, p: Path<E>, compare: E -> int)
    ensures Plug(Descend(t, p, compare), Leaf) == Plug(p, t)
    decreases t
  {
    if t.Node? {
      if compare(t.e) < 0 {
        DescendPlug(t.left, LeftOf(t.colour, t.e, t.right, p), compare);
      } else {
        DescendPlug(t.right, RightOf(t.colour, t.left, t.e, p), compare);
      }
    }
  }

  /** The root stays black and no red node gets a red child, whichever colour the inner rotation uses. */
  lemma InsertLegal<E>(t: Tree<E>, v: E, compare: E -> int, inner: Colour)
    requires Legal(t)
    ensures Legal(Insert(t, v, compare, inner))
  {
    var path := Descend(t, Top, compare);
    DescendPlug(t, Top, compare);
    PlugLegal(path, Leaf);
    FixUpLegal(path, Node(Red, Leaf, v, Leaf), inner);
  }

  /** The place of the red node after some turns of the loop, which moves up two levels in each. */
  function Turns<E>(p: Path<E>, n: nat): Path<E> {
    if n == 0 || p.Top? || p.up.Top? then p else Turns(p.up.up, n - 1)
  }

  lemma {:induction false} TurnsLegal<E>(p: Path<E>, n: nat)
    requires LegalPath(p)
    ensures LegalPath(Turns(p, n))
  {
    if n > 0 && p != Top && p.up != Top {
      TurnsLegal(p.up.up, n - 1);
    }
  }

  /** The grandparent that the loop looks at is there in every turn: a red parent is not the root. */
  lemma GrandparentExists<E>(t: Tree<E>, compare: E -> int, n: nat)
    requires Legal(t)
    ensures var p := Turns(Descend(t, Top, compare), n); UnderRed(p) ==> p.up != Top
  {
    DescendPlug(t, Top, compare);
    PlugLegal(Descend(t, Top, compare), Leaf);
    TurnsLegal(Descend(t, Top, compare), n);
  }

  // ---------------------------------------------------------------------------------------------
  // Black heights
  // ---------------------------------------------------------------------------------------------

  function BlackHeight<E>(t: Tree<E>): nat {
    match t
    case Leaf => 0
    case Node(c, l, _, _) => BlackHeight(l) + (if c == Black then 1 else 0)
  }

  /** Every way down passes the same number of black nodes. */
  predicate Even<E>(t: Tree<E>) {
    match t
    case Leaf => true
    case Node(_, l, _, r) => Even(l) && Even(r) && BlackHeight(l) == BlackHeight(r)
  }

  /** A subtree of black height `h` makes the whole even. */
  predicate EvenPath<E>(p: Path<E>, h: nat)
    decreases p
  {
    match p
    case Top => true
    case LeftOf(c, _, r, up) => Even(r) && BlackHeight(r) == h && EvenPath(up, h + if c == Black then 1 else 0)
    case RightOf(c, l, _, up) => Even(l) && BlackHeight(l) == h && EvenPath(up, h + if c == Black then 1 else 0)
  }

  lemma {:induction false} PlugEven<E>(p: Path<E>, t: Tree<E>)
    ensures Even(Plug(p, t)) <==> Even(t) && EvenPath(p, BlackHeight(t))
    decreases p
  {
    match p {
      case Top =>
      case LeftOf(c, e, r, up) => PlugEven(up, Node(c, t, e, r));
      case RightOf(c, l, e, up) => PlugEven(up, Node(c, l, e, t));
    }
  }

  /** The rotations leave a black node above two red ones of the old black height, but for the inner colour. */
  lemma RotateLeftSideEven<E>(sub: Tree<E>, par: Path<E>, g: E, u: Tree<E>, inner: Colour)
    requires IsRed(sub) && NoRedRed(sub) && Even(sub) && UnderRed(par) && !IsRed(u) && Even(u)
    requires !IsRed(Frame(par, Red, sub).left) || !IsRed(Frame(par, Red, sub).right)
    requires Even(Frame(par, Red, sub)) && BlackHeight(u) == BlackHeight(sub)
    ensures var r := RotateLeftSide(sub, par, Black, g, u, inner);
            (Even(r) <==> inner == Red || par.LeftOf?) && (Even(r) ==> BlackHeight(r) == BlackHeight(sub) + 1)
  {
  }

  lemma RotateRightSideEven<E>(sub: Tree<E>, par: Path<E>, g: E, u: Tree<E>)
    requires IsRed(sub) && NoRedRed(sub) && Even(sub) && UnderRed(par) && !IsRed(u) && Even(u)
    requires !IsRed(Frame(par, Red, sub).left) || !IsRed(Frame(par, Red, sub).right)
    requires Even(Frame(par, Red, sub)) && BlackHeight(u) == BlackHeight(sub)
    ensures var r := RotateRightSide(sub, par, Black, g, u);
            Even(r) && BlackHeight(r) == BlackHeight(sub) + 1
  {
  }

  lemma FlipEven<E>(par: Path<E>, sub: Tree<E>, u: Tree<E>, g: E)
    requires UnderRed(par) && IsRed(u) && Even(u)
    requires Even(Frame(par, Red, sub)) && BlackHeight(u) == BlackHeight(Frame(par, Red, sub))
    ensures var l := Node(Red, Frame(par, Black, sub), g, Blacken(u));
            var r := Node(Red, Blacken(u), g, Frame(par, Black, sub));
            Even(l) && Even(r) && BlackHeight(l) == BlackHeight(u) + 1 && BlackHeight(r) == BlackHeight(u) + 1
  {
  }

  /** The climb ends in the inner rotation on the left side. */
  predicate EndsInInnerLeft<E>(path: Path<E>)
    decreases path
  {
    UnderRed(path) && path.up != Top &&
    (var u := if path.up.LeftOf? then path.up.right else path.up.left;
     if IsRed(u) then EndsInInnerLeft(path.up.up) else path.up.LeftOf? && path.RightOf?)
  }

  /** What is known around a red node with a red parent. */
  lemma RedParentEven<E>(path: Path<E>, sub: Tree<E>)
    requires LegalPath(path) && IsRed(sub) && !path.Top? && path.colour == Red
    requires Even(sub) && EvenPath(path, BlackHeight(sub))
    ensures !path.up.Top? && path.up.colour == Black && LegalPath(path.up.up)
    ensures var u := if path.up.LeftOf? then path.up.right else path.up.left;
            && NoRedRed(u) && Even(u) && BlackHeight(u) == BlackHeight(sub)
            && Even(Frame(path, Red, sub)) && BlackHeight(Frame(path, Red, sub)) == BlackHeight(sub)
            && EvenPath(path.up.up, BlackHeight(u) + 1)
  {
  }

  /** The last step of the climb, with a black uncle. */
  lemma RotationEven<E>(path: Path<E>, sub: Tree<E>, inner: Colour)
    requires LegalPath(path) && NoRedRed(sub) && IsRed(sub) && !path.Top? && path.colour == Red && !path.up.Top?
    requires Even(sub) && EvenPath(path, BlackHeight(sub))
    requires !IsRed(if path.up.LeftOf? then path.up.right else path.up.left)
    ensures Even(FixUp(path, sub, inner)) <==> inner == Red || !EndsInInnerLeft(path)
  {
    RedParentEven(path, sub);
    var up, above := path.up, path.up.up;
    var u := if up.LeftOf? then up.right else up.left;
    hide Even, NoRedRed, Frame, RotateLeftSide, RotateRightSide, Plug, BlackHeight, EvenPath;
    if up.LeftOf? {
      RotateLeftSideEven(sub, path, up.e, u, inner);
      PlugEven(above, RotateLeftSide(sub, path, Black, up.e, u, inner));
    } else {
      RotateRightSideEven(sub, path, up.e, u);
      PlugEven(above, RotateRightSide(sub, path, Black, up.e, u));
    }
  }

  /**
   With a red old parent the fix-up keeps every black height equal. With a black one it does so exactly
   when the climb does not end in the inner rotation on the left side.
   */
  lemma {:induction false} FixUpEven<E>(path: Path<E>, sub: Tree<E>, inner: Colour)
    requires LegalPath(path) && NoRedRed(sub) && IsRed(sub)
    requires Even(sub) && EvenPath(path, BlackHeight(sub))
    ensures Even(FixUp(path, sub, inner)) <==> inner == Red || !EndsInInnerLeft(path)
    decreases path
  {
    if path.Top? {
    } else if path.colour == Black {
      PlugEven(path, sub);
    } else {
      RedParentEven(path, sub);
      var up, above := path.up, path.up.up;
      var u := if up.LeftOf? then up.right else up.left;
      if IsRed(u) {
        hide Even, NoRedRed, Frame, Blacken, Plug, BlackHeight, LegalPath, EvenPath;
        FlipEven(path, sub, u, up.e);
        FlipLegal(path, sub, u, up.e);
        if up.LeftOf? {
          FixUpEven(above, Node(Red, Frame(path, Black, sub), up.e, Blacken(u)), inner);
        } else {
          FixUpEven(above, Node(Red, Blacken(u), up.e, Frame(path, Black, sub)), inner);
        }
      } else {
        hide *;
        RotationEven(path, sub, inner);
      }
    }
  }

  /** Black heights after an insertion: always equal with Red, and with Black exactly off the inner rotation. */
  lemma InsertEven<E>(t: Tree<E>, v: E, compare: E -> int, inner: Colour)
    requires Legal(t) && Even(t)
    ensures Even(Insert(t, v, compare, inner)) <==> inner == Red || !EndsInInnerLeft(Descend(t, Top, compare))
  {
    var path := Descend(t, Top, compare);
    DescendPlug(t, Top, compare);
    PlugLegal(path, Leaf);
    PlugEven(path, Leaf);
    FixUpEven(path, Node(Red, Leaf, v, Leaf), inner);
  }

  // ---------------------------------------------------------------------------------------------
  // Height, and whole runs of insertions
  // ---------------------------------------------------------------------------------------------

  function Height<E>(t: Tree<E>): nat {
    match t
    case Leaf => 0
    case Node(_, l, _, r) => 1 + if Height(l) < Height(r) then Height(r) else Height(l)
  }

  lemma {:induction false} HeightBound<E>(t: Tree<E>)
    requires NoRedRed(t) && Even(t)
    ensures Height(t) <= 2 * BlackHeight(t) + if IsRed(t) then 1 else 0
    ensures Pow2(BlackHeight(t)) <= |InOrder(t)| + 1
  {
    if t.Node? {
      HeightBound(t.left);
      HeightBound(t.right);
    }
  }

  lemma {:induction false} Pow2Grows(m: nat, n: nat)
    requires m <= n
    ensures Pow2(m) <= Pow2(n)
    decreases n
  {
    if m < n {
      Pow2Grows(m, n - 1);
    }
  }

  lemma {:induction false} Pow2Double(n: nat)
    ensures Pow2(2 * n) == Pow2(n) * Pow2(n)
  {
    if n > 0 {
      Pow2Double(n - 1);
      assert Pow2(2 * n) == 4 * Pow2(2 * n - 2);
    }
  }

  lemma SquaresGrow(b: nat, n: nat)
    requires b <= n
    ensures b * b <= n * n
  {
    assert b * b <= b * n;
    assert b * n <= n * n;
  }

  /** The height is at most twice the binary logarithm of the number of elements and one. */
  lemma LogarithmicHeight<E>(t: Tree<E>)
    requires Legal(t) && Even(t)
    ensures Pow2(Height(t)) <= (|InOrder(t)| + 1) * (|InOrder(t)| + 1)
  {
    hide Pow2, Height, InOrder, BlackHeight, Even, NoRedRed;
    HeightBound(t);
    Pow2Grows(Height(t), 2 * BlackHeight(t));
    Pow2Double(BlackHeight(t));
    SquaresGrow(Pow2(BlackHeight(t)), |InOrder(t)| + 1);
  }

  /** The comparisons of `v` with the elements. */
  function Against<E>(order: (E, E) -> int, v: E): E -> int {
    (e: E) => order(v, e)
  }

  /** Insert the elements one after the other. */
  function InsertAll<E>(t: Tree<E>, vs: seq<E>, order: (E, E) -> int, inner: Colour): Tree<E>
    decreases |vs|
  {
    if vs == [] then t
    else InsertAll(Insert(t, vs[0], Against(order, vs[0]), inner), vs[1..], order, inner)
  }

  /** The comparator ranks the elements. */
  ghost predicate Ranks<E(!new)>(order: (E, E) -> int) {
    && (forall a, b :: order(a, b) < 0 <==> order(b, a) > 0)
    && (forall a, b, c :: order(a, b) <= 0 && order(b, c) <= 0 ==> order(a, c) <= 0)
  }

  predicate InOrderOf<E>(s: seq<E>, order: (E, E) -> int) {
    forall i, j :: 0 <= i < j < |s| ==> order(s[i], s[j]) <= 0
  }

  lemma SmallerThanAll<E(!new)>(order: (E, E) -> int, v: E, x: E, y: E)
    requires Ranks(order) && order(x, y) <= 0 && order(v, x) < 0
    ensures order(v, y) < 0
  {
    assert order(x, v) > 0;
    assert order(y, v) <= 0 ==> order(x, v) <= 0;
  }

  lemma SortedAscends<E(!new)>(s: seq<E>, v: E, order: (E, E) -> int)
    requires Ranks(order) && InOrderOf(s, order)
    ensures Ascending(s, Against(order, v))
  {
    var compare := Against(order, v);
    hide Ranks;
    forall i, j | 0 <= i < j < |s| && compare(s[i]) < 0 ensures compare(s[j]) < 0 {
      SmallerThanAll(order, v, s[i], s[j]);
    }
  }

  lemma Sorted<E>(s: seq<E>, i: nat, j: nat, order: (E, E) -> int)
    requires i < j < |s| && InOrderOf(s, order)
    ensures order(s[i], s[j]) <= 0
  {
  }

  /** What was at `k` is at `k`, or one further behind the new element. */
  lemma SortedAround<E(!new)>(a: seq<E>, v: E, b: seq<E>, order: (E, E) -> int, i: nat, j: nat)
    requires Ranks(order) && InOrderOf(a + b, order) && i < j <= |a| + |b|
    requires NotLess(a, Against(order, v)) && AllLess(b, Against(order, v))
    ensures order((a + [v] + b)[i], (a + [v] + b)[j]) <= 0
  {
    var s, n := a + b, a + [v] + b;
    if i == |a| {
      assert Against(order, v)(b[j - |a| - 1]) < 0;
    } else if j == |a| {
      assert Against(order, v)(a[i]) >= 0;
      hide InOrderOf, AllLess, NotLess;
    } else {
      hide Ranks, AllLess, NotLess;
      var i0, j0 := if i < |a| then i else i - 1, if j < |a| then j else j - 1;
      Sorted(s, i0, j0, order);
      assert n[i] == s[i0] && n[j] == s[j0];
    }
  }

  lemma SortedInsertion<E(!new)>(a: seq<E>, v: E, b: seq<E>, order: (E, E) -> int)
    requires Ranks(order) && InOrderOf(a + b, order)
    requires NotLess(a, Against(order, v)) && AllLess(b, Against(order, v))
    ensures InOrderOf(a + [v] + b, order)
    ensures multiset(a + [v] + b) == multiset(a + b) + multiset{v}
  {
    hide Ranks, NotLess, AllLess, Against;
    var n := a + [v] + b;
    forall i, j | 0 <= i < j < |n| ensures order(n[i], n[j]) <= 0 {
      SortedAround(a, v, b, order, i, j);
    }
    assert InOrderOf(n, order);
  }

  lemma InsertSorted<E(!new)>(t: Tree<E>, v: E, order: (E, E) -> int, inner: Colour)
    requires Ranks(order) && InOrderOf(InOrder(t), order)
    ensures InOrderOf(InOrder(Insert(t, v, Against(order, v), inner)), order)
    ensures multiset(InOrder(Insert(t, v, Against(order, v), inner))) == multiset(InOrder(t)) + multiset{v}
  {
    hide InOrder, InOrderOf, Ascending, Ranks, NotLess, AllLess;
    SortedAscends(InOrder(t), v, order);
    InsertInOrder(t, v, Against(order, v), inner);
    var p := Descend(t, Top, Against(order, v));
    SortedInsertion(Before(p), v, After(p), order);
  }

  /** After any run of insertions: sorted, and just the new elements more. */
  lemma {:induction false} RunSorted<E(!new)>(t: Tree<E>, vs: seq<E>, order: (E, E) -> int, inner: Colour)
    requires Ranks(order) && InOrderOf(InOrder(t), order)
    ensures InOrderOf(InOrder(InsertAll(t, vs, order, inner)), order)
    ensures multiset(InOrder(InsertAll(t, vs, order, inner))) == multiset(InOrder(t)) + multiset(vs)
    decreases |vs|
  {
    hide Ranks, InOrderOf, InOrder, Insert, Against;
    if vs != [] {
      InsertSorted(t, vs[0], order, inner);
      RunSorted(Insert(t, vs[0], Against(order, vs[0]), inner), vs[1..], order, inner);
      assert vs == [vs[0]] + vs[1..];
    }
  }

  /** After any run of insertions: a legal tree, and with the red inner rotation one of logarithmic height. */
  lemma {:induction false} RunLegal<E(!new)>(t: Tree<E>, vs: seq<E>, order: (E, E) -> int, inner: Colour)
    requires Legal(t)
    ensures Legal(InsertAll(t, vs, order, inner))
    ensures inner == Red && Even(t) ==> Even(InsertAll(t, vs, order, inner))
    decreases |vs|
  {
    hide Legal, Even, Insert, Against;
    if vs != [] {
      InsertLegal(t, vs[0], Against(order, vs[0]), inner);
      if Even(t) {
        InsertEven(t, vs[0], Against(order, vs[0]), inner);
      }
      RunLegal(Insert(t, vs[0], Against(order, vs[0]), inner), vs[1..], order, inner);
    }
  }

  lemma SameSize<E>(a: seq<E>, b: seq<E>)
    requires multiset(a) == multiset([]) + multiset(b)
    ensures |a| == |b|
  {
    assert multiset(a) == multiset(b);
    assert |a| == |multiset(a)| == |multiset(b)| == |b|;
  }

  lemma EmptyTree<E>(order: (E, E) -> int)
    ensures Legal<E>(Leaf) && Even<E>(Leaf) && InOrder<E>(Leaf) == [] && InOrderOf(InOrder<E>(Leaf), order)
  {
  }

  /** A tree grown from nothing with the red inner rotation: height at most 2 log2(n + 1). */
  lemma RunHeight<E(!new)>(vs: seq<E>, order: (E, E) -> int)
    requires Ranks(order)
    ensures Pow2(Height(InsertAll(Leaf, vs, order, Red))) <= (|vs| + 1) * (|vs| + 1)
  {
    var r := InsertAll(Leaf, vs, order, Red);
    hide *;
    EmptyTree(order);
    RunSorted(Leaf, vs, order, Red);
    RunLegal(Leaf, vs, order, Red);
    LogarithmicHeight(r);
    SameSize(InOrder(r), vs);
  }

  /** Three insertions are enough to lose the balance with the black inner rotation of the program. */
  lemma BlackInnerRotationUnbalances()
    ensures var r := InsertAll(Leaf, [3, 1, 2], (a: int, b: int) => a - b, Black);
            r == Node(Black, Node(Black, Leaf, 1, Leaf), 2, Node(Red, Leaf, 3, Leaf)) && !Even(r)
  {
    var order := (a: int, b: int) => a - b;
    var t1 := Insert(Leaf, 3, (e: int) => order(3, e), Black);
    assert t1 == Node(Black, Leaf, 3, Leaf);
    var t2 := Insert(t1, 1, (e: int) => order(1, e), Black);
    assert t2 == Node(Black, Node(Red, Leaf, 1, Leaf), 3, Leaf);
    var t3 := Insert(t2, 2, (e: int) => order(2, e), Black);
    assert t3 == Node(Black, Node(Black, Leaf, 1, Leaf), 2, Node(Red, Leaf, 3, Leaf));
    assert InsertAll(Leaf, [3, 1, 2], order, Black) == InsertAll(t1, [1, 2], order, Black);
    assert InsertAll(t1, [1, 2], order, Black) == InsertAll(t2, [2], order, Black);
    assert InsertAll(t2, [2], order, Black) == InsertAll(t3, [], order, Black);
  }
}
