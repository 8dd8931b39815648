/**
 The VM heap as the program keeps it: one buffer of block records, linked in place into the free,
 used and fresh lists. A pointer to a record is its index in the buffer. Every method is proved
 against the functions of HeapModel, on every 32-bit argument.
 */
module HeapBlocks {
  import opened Basics
  import opened HeapModel

  type Ptr = i: int | -1 <= i witness -1

  const NULL: Ptr := -1

  datatype HeapBlock = HeapBlock(next: Ptr, size: nat, addr: nat)

  /** Starting at `head`, the `next` fields visit exactly the records of `s`, each once. */
  ghost predicate List(m: seq<HeapBlock>, head: Ptr, s: seq<nat>)
    decreases s
  {
    if s == [] then
      head == NULL
    else
      head == s[0] && s[0] < |m| && s[0] !in s[1..] && List(m, m[s[0]].next, s[1..])
  }

  ghost predicate Separate(s: seq<nat>, t: seq<nat>) {
    forall x :: x in s ==> x !in t
  }

  /** Every address and size in the buffer is a 32-bit value. */
  ghost predicate Words(m: seq<HeapBlock>) {
    forall i :: 0 <= i < |m| ==> m[i].addr < U32 && m[i].size < U32
  }

  ghost function Value(b: HeapBlock): Block {
    Block(b.addr, b.size)
  }

  /** The block values of the records `s`, in this order. */
  ghost function Values(m: seq<HeapBlock>, s: seq<nat>): (v: seq<Block>)
    ensures |v| == |s|
  {
    if s == [] then [] else [if s[0] < |m| then Value(m[s[0]]) else Block(0, 0)] + Values(m, s[1..])
  }

  // ---------------------------------------------------------------------------------------------
  // Lists
  // ---------------------------------------------------------------------------------------------

  lemma ValuesConcat(m: seq<HeapBlock>, s: seq<nat>, t: seq<nat>)
    ensures Values(m, s + t) == Values(m, s) + Values(m, t)
  {
    if s == [] {
      assert s + t == t;
    } else {
      assert (s + t)[1..] == s[1..] + t;
      ValuesConcat(m, s[1..], t);
    }
  }

  lemma WriteElsewhere(m: seq<HeapBlock>, x: nat, v: HeapBlock, head: Ptr, s: seq<nat>)
    requires List(m, head, s) && x < |m| && x !in s
    ensures List(m[x := v], head, s) && Values(m[x := v], s) == Values(m, s)
    decreases s
  {
    if s != [] {
      WriteElsewhere(m, x, v, m[s[0]].next, s[1..]);
    }
  }

  /** The back part of a list is the list at the pointer that leads to it. */
  lemma ListFrom(m: seq<HeapBlock>, head: Ptr, s: seq<nat>, p: nat)
    requires List(m, head, s) && p < |s|
    ensures s[p] < |m| && List(m, s[p], s[p..]) && List(m, m[s[p]].next, s[p + 1..])
    decreases s
  {
    if p == 0 {
      assert s[0..] == s;
    } else {
      var t := s[1..];
      ListFrom(m, m[s[0]].next, t, p - 1);
      assert t[p - 1..] == s[p..] && t[p..] == s[p + 1..];
    }
  }

  lemma ValueAt(m: seq<HeapBlock>, s: seq<nat>, p: nat)
    requires p < |s| && s[p] < |m|
    ensures Values(m, s)[p] == Value(m[s[p]])
    decreases s
  {
    if p > 0 {
      ValueAt(m, s[1..], p - 1);
    }
  }

  /** No record occurs twice in a list. */
  lemma NoRepeat(m: seq<HeapBlock>, head: Ptr, s: seq<nat>, p: nat)
    requires List(m, head, s) && p <= |s|
    ensures Separate(s[..p], s[p..])
    decreases s
  {
    if p > 0 {
      var t := s[1..];
      NoRepeat(m, m[s[0]].next, t, p - 1);
      assert t[p - 1..] == s[p..] && s[..p] == [s[0]] + t[..p - 1];
    }
  }

  lemma AttachList(m: seq<HeapBlock>, head: Ptr, s: seq<nat>, p: nat, v: HeapBlock, t: seq<nat>)
    requires List(m, head, s) && p < |s| && List(m, v.next, t)
    requires Separate(s[..p + 1], t)
    ensures s[p] < |m|
    ensures List(m[s[p] := v], head, s[..p + 1] + t)
    decreases s
  {
    hide Values;
    var u := s[..p + 1] + t;
    ListFrom(m, head, s, p);
    assert s[0] in s[..p + 1];
    if p == 0 {
      assert s[..1] == [s[0]] && u[1..] == t;
      WriteElsewhere(m, s[0], v, v.next, t);
    } else {
      var s', h' := s[1..], m[s[0]].next;
      assert s[..p + 1] == [s[0]] + s'[..p];
      AttachList(m, h', s', p - 1, v, t);
      assert u[1..] == s'[..p] + t;
    }
  }

  lemma ValuesElsewhere(m: seq<HeapBlock>, x: nat, v: HeapBlock, s: seq<nat>)
    requires x < |m| && x !in s
    ensures Values(m[x := v], s) == Values(m, s)
    decreases s
  {
    if s != [] {
      ValuesElsewhere(m, x, v, s[1..]);
    }
  }

  lemma SingleValue(m: seq<HeapBlock>, x: nat, t: seq<nat>)
    requires x < |m|
    ensures Values(m, [x] + t) == [Value(m[x])] + Values(m, t)
  {
    assert ([x] + t)[1..] == t;
  }

  lemma ValuesSplit(m: seq<HeapBlock>, s: seq<nat>, p: nat)
    requires p <= |s|
    ensures Values(m, s[..p]) == Values(m, s)[..p] && Values(m, s[p..]) == Values(m, s)[p..]
  {
    assert s == s[..p] + s[p..];
    ValuesConcat(m, s[..p], s[p..]);
  }

  lemma AttachValues(m: seq<HeapBlock>, s: seq<nat>, p: nat, v: HeapBlock, t: seq<nat>)
    requires p < |s| && s[p] < |m| && s[p] !in s[..p] && s[p] !in t
    ensures Values(m[s[p] := v], s[..p + 1] + t) == Values(m, s)[..p] + [Value(v)] + Values(m, t)
  {
    var m', x := m[s[p] := v], s[p];
    SingleValue(m', x, t);
    hide Values;
    assert s[..p + 1] + t == s[..p] + ([x] + t);
    ValuesConcat(m', s[..p], [x] + t);
    ValuesSplit(m, s, p);
    ValuesElsewhere(m, x, v, s[..p]);
    ValuesElsewhere(m, x, v, t);
  }

  /** Cutting a list after position `p` and attaching another list there. */
  lemma Attach(m: seq<HeapBlock>, head: Ptr, s: seq<nat>, p: nat, v: HeapBlock, t: seq<nat>)
    requires List(m, head, s) && p < |s| && List(m, v.next, t)
    requires Separate(s[..p + 1], t)
    ensures s[p] < |m|
    ensures List(m[s[p] := v], head, s[..p + 1] + t)
    ensures Values(m[s[p] := v], s[..p + 1] + t) == Values(m, s)[..p] + [Value(v)] + Values(m, t)
  {
    AttachList(m, head, s, p, v, t);
    NoRepeat(m, head, s, p);
    hide List, Values;
    var x := s[p];
    assert x in s[p..] && x in s[..p + 1];
    AttachValues(m, s, p, v, t);
  }

  lemma DistinctAt(m: seq<HeapBlock>, head: Ptr, s: seq<nat>, i: nat, j: nat)
    requires List(m, head, s) && i <= j < |s|
    ensures s[i] == s[j] <==> i == j
  {
    NoRepeat(m, head, s, i + 1);
    if i < j {
      assert s[i] in s[..i + 1] && s[j] in s[i + 1..];
    }
  }

  lemma SeparateInsert(s: seq<nat>, t: seq<nat>, p: nat, b: nat)
    requires Separate(s, t) && p <= |s| && b !in t
    ensures Separate(s[..p] + [b] + s[p..], t)
    ensures forall x :: x in s[..p] + [b] + s[p..] <==> x in s || x == b
  {
    assert s == s[..p] + s[p..];
  }

  lemma InsertAt(v: seq<Block>, b: Block, p: nat)
    requires p <= |v| && (forall i :: 0 <= i < p ==> v[i].addr < b.addr) && (p < |v| ==> b.addr <= v[p].addr)
    ensures Insert(v, b) == v[..p] + [b] + v[p..]
  {
    var q := InsertPos(v, b.addr);
    assert !(q < p) && !(p < q);
  }

  /** The 32-bit size of the run of touching blocks from `first` to `last`. */
  function RunSize(first: Block, last: Block): nat {
    (last.addr - first.addr + last.size) % U32
  }

  lemma Add32Cases(a: nat, b: nat)
    requires a < U32 && b < U32
    ensures Add32(a, b) == if a + b < U32 then a + b else a + b - U32
  {
  }

  lemma RunSizeCases(first: Block, last: Block)
    requires first.addr < U32 && last.addr < U32 && last.size < U32
    ensures var d := last.addr - first.addr + last.size;
      RunSize(first, last) == if d < 0 then d + U32 else if d < U32 then d else d - U32
  {
  }

  lemma RunStep(first: Block, last: Block, x: Block)
    requires first.addr < U32 && last.addr < U32 && last.size < U32 && x.addr < U32 && x.size < U32
    ensures var run := Block(first.addr, RunSize(first, last));
      && (Touching(run, x) <==> Touching(last, x))
      && (Touching(last, x) ==> Merged(run, x) == Block(first.addr, RunSize(first, x)))
  {
    RunSizeCases(first, last);
    RunSizeCases(first, x);
    Add32Cases(last.addr, last.size);
    Add32Cases(first.addr, RunSize(first, last));
    Add32Cases(RunSize(first, last), x.size);
    hide Add32, RunSize;
  }

  /** Merging the run of `v` from position `i` to `j` into one block, then the rest. */
  ghost predicate RunOf(v: seq<Block>, i: nat, j: nat) {
    i <= j < |v| && Compact(v[i..]) == Compact([Block(v[i].addr, RunSize(v[i], v[j]))] + v[j + 1..])
  }

  ghost predicate ValueWords(v: seq<Block>) {
    forall i :: 0 <= i < |v| ==> v[i].addr < U32 && v[i].size < U32
  }

  lemma RunStart(v: seq<Block>, i: nat)
    requires i < |v| && ValueWords(v)
    ensures RunOf(v, i, i) && RunSize(v[i], v[i]) == v[i].size
  {
    assert v[i..] == [v[i]] + v[i + 1..];
    assert RunSize(v[i], v[i]) == v[i].size;
  }

  lemma RunGrow(v: seq<Block>, i: nat, j: nat)
    requires RunOf(v, i, j) && j + 1 < |v| && ValueWords(v) && Touching(v[j], v[j + 1])
    ensures RunOf(v, i, j + 1)
  {
    RunStep(v[i], v[j], v[j + 1]);
    var run := Block(v[i].addr, RunSize(v[i], v[j]));
    var w := [run] + v[j + 1..];
    assert w[0] == run && w[1] == v[j + 1] && w[2..] == v[j + 2..];
  }

  lemma RunEnd(v: seq<Block>, i: nat, j: nat)
    requires RunOf(v, i, j) && ValueWords(v) && (j + 1 < |v| ==> !Touching(v[j], v[j + 1]))
    ensures Compact(v[i..]) == [Block(v[i].addr, RunSize(v[i], v[j]))] + Compact(v[j + 1..])
  {
    var run := Block(v[i].addr, RunSize(v[i], v[j]));
    var w := [run] + v[j + 1..];
    assert w[1..] == v[j + 1..];
    if j + 1 < |v| {
      RunStep(v[i], v[j], v[j + 1]);
      assert w[0] == run && w[1] == v[j + 1];
    }
  }

  lemma ValuesWords(m: seq<HeapBlock>, s: seq<nat>)
    requires Words(m)
    ensures ValueWords(Values(m, s))
  {
  }

  /** From `head`, the `next` fields visit exactly the records of `s` before they reach `to`. */
  ghost predicate Segment(m: seq<HeapBlock>, head: Ptr, s: seq<nat>, to: Ptr)
    decreases s
  {
    if s == [] then
      head == to
    else
      head == s[0] && s[0] < |m| && s[0] !in s[1..] && s[0] != to && Segment(m, m[s[0]].next, s[1..], to)
  }

  lemma SegmentStep(m: seq<HeapBlock>, head: Ptr, s: seq<nat>, to: Ptr)
    requires Segment(m, head, s, to) && head != to
    ensures s != [] && head == s[0] < |m| && s[0] !in s[1..] && Segment(m, m[s[0]].next, s[1..], to)
  {
  }

  lemma SegmentEnd(m: seq<HeapBlock>, head: Ptr, s: seq<nat>, to: Ptr)
    requires Segment(m, head, s, to) && head == to
    ensures s == []
  {
  }

  lemma SegmentElsewhere(m: seq<HeapBlock>, x: nat, v: HeapBlock, head: Ptr, s: seq<nat>, to: Ptr)
    requires Segment(m, head, s, to) && x < |m| && x !in s
    ensures Segment(m[x := v], head, s, to)
    decreases s
  {
    if s != [] {
      SegmentElsewhere(m, x, v, m[s[0]].next, s[1..], to);
    }
  }

  /** The part of a list between positions `i` and `j`. */
  lemma SegmentOf(m: seq<HeapBlock>, head: Ptr, s: seq<nat>, j: nat, to: Ptr)
    requires List(m, head, s) && j <= |s| && List(m, to, s[j..])
    ensures Segment(m, head, s[..j], to)
    decreases s
  {
    if j > 0 {
      var t := s[1..];
      assert t[j - 1..] == s[j..] && s[..j][1..] == t[..j - 1];
      assert to != NULL ==> to == s[j..][0] && to in t;
      SegmentOf(m, m[s[0]].next, t, j - 1, to);
    } else {
      assert s[0..] == s;
    }
  }

  /** The buffers differ at the records of `run` only. */
  ghost predicate SameExcept(m: seq<HeapBlock>, m': seq<HeapBlock>, run: seq<nat>) {
    |m| == |m'| && forall x :: 0 <= x < |m| && x !in run ==> m'[x] == m[x]
  }

  lemma ListSameExcept(m: seq<HeapBlock>, m': seq<HeapBlock>, run: seq<nat>, head: Ptr, s: seq<nat>)
    requires List(m, head, s) && SameExcept(m, m', run) && Separate(s, run)
    ensures List(m', head, s) && Values(m', s) == Values(m, s)
    decreases s
  {
    if s != [] {
      ListSameExcept(m, m', run, m[s[0]].next, s[1..]);
    }
  }

  lemma WriteWords(m: seq<HeapBlock>, x: nat, v: HeapBlock)
    requires Words(m) && x < |m| && v.addr < U32 && v.size < U32
    ensures Words(m[x := v])
  {
  }

  lemma WordsAt(m: seq<HeapBlock>, x: nat)
    requires Words(m) && x < |m|
    ensures m[x].addr < U32 && m[x].size < U32
  {
  }

  lemma NotIn(s: seq<nat>, i: nat, t: seq<nat>)
    requires Separate(s, t) && i < |s|
    ensures s[i] !in t
  {
  }

  lemma SeparatePart(s: seq<nat>, part: seq<nat>, t: seq<nat>)
    requires Separate(s, t) && forall x :: x in part ==> x in s
    ensures Separate(part, t) && Separate(t, part)
  {
  }

  lemma SeparateUnion(s: seq<nat>, a: seq<nat>, b: seq<nat>, t: seq<nat>)
    requires Separate(s, a) && Separate(s, b) && forall x :: x in t <==> x in a || x in b
    ensures Separate(s, t)
  {
  }

  /** Cutting positions i + 1 to j out of a list. */
  lemma CutMembers(m: seq<HeapBlock>, head: Ptr, s: seq<nat>, i: nat, j: nat)
    requires List(m, head, s) && i < j < |s|
    ensures var rest, run := s[..i + 1] + s[j + 1..], s[i + 1..j + 1];
      && (forall x :: x in s <==> x in rest || x in run)
      && Separate(rest, run) && Separate(s[..i + 1], s[j + 1..]) && s[i] in rest && s[i] !in run
  {
    hide List;
    NoRepeat(m, head, s, i + 1);
    NoRepeat(m, head, s, j + 1);
    assert s == s[..i + 1] + s[i + 1..j + 1] + s[j + 1..];
    assert s[i + 1..] == s[i + 1..j + 1] + s[j + 1..];
    assert s[..j + 1] == s[..i + 1] + s[i + 1..j + 1];
  }

  lemma CutSegment(m: seq<HeapBlock>, head: Ptr, s: seq<nat>, i: nat, j: nat, v: HeapBlock, next: Ptr)
    requires List(m, head, s) && i < j < |s| && List(m, next, s[j + 1..])
    requires s[i] < |m| && v.next == m[s[i]].next
    ensures Segment(m[s[i] := v], v.next, s[i + 1..j + 1], next)
  {
    hide Values, Segment;
    ListFrom(m, head, s, i);
    CutMembers(m, head, s, i, j);
    hide List;
    var t, k := s[i + 1..], j - i;
    assert t[..k] == s[i + 1..j + 1] && t[k..] == s[j + 1..];
    SegmentOf(m, v.next, t, k, next);
    SegmentElsewhere(m, s[i], v, v.next, t[..k], next);
  }

  lemma CutList(m: seq<HeapBlock>, m': seq<HeapBlock>, head: Ptr, s: seq<nat>, i: nat, j: nat, v: HeapBlock)
    requires List(m, head, s) && i < j < |s| && List(m, v.next, s[j + 1..])
    requires s[i] < |m| && SameExcept(m[s[i] := v], m', s[i + 1..j + 1])
    ensures List(m', head, s[..i + 1] + s[j + 1..])
    ensures List(m', v.next, s[j + 1..])
    ensures Values(m', s[..i + 1] + s[j + 1..]) == Values(m, s)[..i] + [Value(v)] + Values(m, s)[j + 1..]
  {
    var m2, rest, run := m[s[i] := v], s[..i + 1] + s[j + 1..], s[i + 1..j + 1];
    hide List, Values, SameExcept;
    CutMembers(m, head, s, i, j);
    Attach(m, head, s, i, v, s[j + 1..]);
    ValuesSplit(m, s, j + 1);
    ListSameExcept(m2, m', run, head, rest);
    assert s[i] in s[..i + 1];
    WriteElsewhere(m, s[i], v, v.next, s[j + 1..]);
    SeparatePart(rest, s[j + 1..], run);
    ListSameExcept(m2, m', run, v.next, s[j + 1..]);
  }

  lemma ListHead(m: seq<HeapBlock>, p: Ptr, s: seq<nat>, i: nat)
    requires i <= |s| && List(m, p, s[i..]) && p != NULL
    ensures i < |s| && p == s[i] && p < |m|
  {
  }

  lemma ListEmpty(m: seq<HeapBlock>, s: seq<nat>, i: nat)
    requires i <= |s| && List(m, NULL, s[i..])
    ensures i == |s|
  {
  }

  lemma ListNull(m: seq<HeapBlock>, head: Ptr, s: seq<nat>)
    requires List(m, head, s)
    ensures head == NULL <==> s == []
  {
  }

  lemma CompactEmpty()
    ensures Compact([]) == []
  {
  }

  /** The buffer after the record at position `i` of the list `s` is bypassed. */
  ghost function UnlinkedAt(m: seq<HeapBlock>, s: seq<nat>, i: nat): seq<HeapBlock>
    requires i < |s| && s[i] < |m| && (i > 0 ==> s[i - 1] < |m|)
  {
    if i > 0 then m[s[i - 1] := m[s[i - 1]].(next := m[s[i]].next)] else m
  }

  lemma WithoutMembers(m: seq<HeapBlock>, head: Ptr, s: seq<nat>, i: nat)
    requires List(m, head, s) && i < |s|
    ensures forall x :: x in s <==> x in Without(s, i) || x == s[i]
    ensures s[i] !in Without(s, i) && Separate(s[..i], s[i + 1..])
  {
    NoRepeat(m, head, s, i);
    NoRepeat(m, head, s, i + 1);
    assert s == s[..i] + [s[i]] + s[i + 1..] && s[i..] == [s[i]] + s[i + 1..] && s[..i + 1] == s[..i] + [s[i]];
    assert s[i] in s[..i + 1] && s[i] in s[i..];
  }

  lemma Unlink(m: seq<HeapBlock>, head: Ptr, s: seq<nat>, i: nat)
    requires List(m, head, s) && i < |s| && Words(m)
    ensures s[i] < |m| && (i > 0 ==> s[i - 1] < |m|)
    ensures List(UnlinkedAt(m, s, i), if i == 0 then m[s[0]].next else head, Without(s, i))
    ensures Values(UnlinkedAt(m, s, i), Without(s, i)) == Without(Values(m, s), i)
    ensures Words(UnlinkedAt(m, s, i))
    ensures UnlinkedAt(m, s, i)[s[i]] == m[s[i]] && Value(m[s[i]]) == Values(m, s)[i]
  {
    hide List, Values, Separate, Words;
    ListFrom(m, head, s, i);
    ValueAt(m, s, i);
    ValuesSplit(m, s, i + 1);
    if i == 0 {
      assert Without(s, 0) == s[1..] && Without(Values(m, s), 0) == Values(m, s)[1..];
    } else {
      ListFrom(m, head, s, i - 1);
      ValueAt(m, s, i - 1);
      WithoutMembers(m, head, s, i);
      var v := m[s[i - 1]].(next := m[s[i]].next);
      WordsAt(m, s[i - 1]);
      WriteWords(m, s[i - 1], v);
      Attach(m, head, s, i - 1, v, s[i + 1..]);
      DistinctAt(m, head, s, i - 1, i);
      assert Values(m, s)[..i] == Values(m, s)[..i - 1] + [Values(m, s)[i - 1]];
    }
  }

  lemma UnlinkElsewhere(m: seq<HeapBlock>, head: Ptr, t: seq<nat>, s: seq<nat>, i: nat)
    requires List(m, head, t) && Separate(s, t) && i < |s| && s[i] < |m| && (i > 0 ==> s[i - 1] < |m|)
    ensures List(UnlinkedAt(m, s, i), head, t) && Values(UnlinkedAt(m, s, i), t) == Values(m, t)
  {
    if i > 0 {
      WriteElsewhere(m, s[i - 1], m[s[i - 1]].(next := m[s[i]].next), head, t);
    }
  }

  lemma SeparateMove(s: seq<nat>, rest: seq<nat>, x: nat, t: seq<nat>, u: seq<nat>)
    requires Separate(s, t) && Separate(s, u) && Separate(t, u)
    requires x !in rest && forall y :: y in s <==> y in rest || y == x
    ensures Separate(rest, [x] + t) && Separate(rest, t) && Separate(rest, u) && Separate([x] + t, u)
    ensures x !in t && x !in u
  {
  }

  /** Rewriting the first record of a list without its `next` field. */
  lemma RewriteHead(m: seq<HeapBlock>, head: Ptr, s: seq<nat>, v: HeapBlock)
    requires List(m, head, s) && s != [] && s[0] < |m| && v.next == m[s[0]].next
    ensures List(m[s[0] := v], head, s)
    ensures Values(m[s[0] := v], s) == [Value(v)] + Values(m, s)[1..]
  {
    WriteElsewhere(m, s[0], v, v.next, s[1..]);
  }

  ghost function UpFrom(i: nat, n: nat): (s: seq<nat>)
    requires i <= n
    ensures |s| == n - i && forall x :: x in s <==> i <= x < n
    decreases n - i
  {
    if i == n then [] else [i] + UpFrom(i + 1, n)
  }

  /** Records that each point at the next one form one list. */
  lemma UpFromList(m: seq<HeapBlock>, i: nat)
    requires i < |m|
    requires forall k :: i <= k < |m| ==> m[k].next == if k + 1 < |m| then k + 1 else NULL
    ensures List(m, i, UpFrom(i, |m|))
    decreases |m| - i
  {
    if i + 1 < |m| {
      UpFromList(m, i + 1);
    }
  }

  lemma FindIs(s: seq<Block>, a: nat, i: nat)
    requires i <= |s| && (forall k :: 0 <= k < i ==> s[k].addr != a) && (i < |s| ==> s[i].addr == a)
    ensures Find(s, a) == i
  {
    var j := Find(s, a);
    assert !(j < i) && !(i < j);
  }

  lemma FirstFitIs(h: Heap, size: nat, i: nat)
    requires i <= |h.free| && (forall k :: 0 <= k < i ==> !Fits(h, h.free[k], size))
    requires i < |h.free| ==> Fits(h, h.free[i], size)
    ensures FirstFit(h, size, 0) == i
  {
    var j := FirstFit(h, size, 0);
    assert !(j < i) && !(i < j);
  }

  /** The buffer after record `b` is linked in at position `p` of the list `s`. */
  ghost function LinkedAt(m: seq<HeapBlock>, s: seq<nat>, p: nat, b: nat, next: Ptr): seq<HeapBlock>
    requires p <= |s| && b < |m| && (p > 0 ==> s[p - 1] < |m|)
  {
    var m1 := m[b := m[b].(next := next)];
    if p > 0 then m1[s[p - 1] := m1[s[p - 1]].(next := b)] else m1
  }

  lemma LinkFront(m: seq<HeapBlock>, b: nat, v: HeapBlock, s: seq<nat>)
    requires b < |m| && b !in s && List(m, v.next, s)
    ensures List(m[b := v], b, [b] + s) && Values(m[b := v], [b] + s) == [Value(v)] + Values(m, s)
  {
    WriteElsewhere(m, b, v, v.next, s);
    assert ([b] + s)[1..] == s;
  }

  lemma LinkInside(m: seq<HeapBlock>, head: Ptr, s: seq<nat>, p: nat, b: nat, next: Ptr)
    requires List(m, head, s) && 0 < p <= |s| && b !in s && b < |m| && List(m, next, s[p..]) && Words(m)
    ensures s[p - 1] < |m|
    ensures List(LinkedAt(m, s, p, b, next), head, s[..p] + [b] + s[p..])
    ensures Values(LinkedAt(m, s, p, b, next), s[..p] + [b] + s[p..]) ==
            Values(m, s)[..p] + [Value(m[b])] + Values(m, s)[p..]
    ensures Words(LinkedAt(m, s, p, b, next))
  {
    hide List, Values;
    var v, t := m[b].(next := next), [b] + s[p..];
    LinkFront(m, b, v, s[p..]);
    WriteElsewhere(m, b, v, head, s);
    ListFrom(m, head, s, p - 1);
    NoRepeat(m, head, s, p);
    ValuesSplit(m, s, p);
    assert s[..p] + [b] + s[p..] == s[..p] + t;
    Attach(m[b := v], head, s, p - 1, m[s[p - 1]].(next := b), t);
    ValueAt(m, s, p - 1);
    assert Values(m, s)[..p - 1] + [Value(m[s[p - 1]])] == Values(m, s)[..p];
  }

  lemma LinkAt(m: seq<HeapBlock>, head: Ptr, s: seq<nat>, p: nat, b: nat, next: Ptr)
    requires List(m, head, s) && p <= |s| && b !in s && b < |m| && List(m, next, s[p..]) && Words(m)
    ensures p > 0 ==> s[p - 1] < |m|
    ensures List(LinkedAt(m, s, p, b, next), if p == 0 then b else head, s[..p] + [b] + s[p..])
    ensures Values(LinkedAt(m, s, p, b, next), s[..p] + [b] + s[p..]) ==
            Values(m, s)[..p] + [Value(m[b])] + Values(m, s)[p..]
    ensures Words(LinkedAt(m, s, p, b, next))
  {
    if p > 0 {
      LinkInside(m, head, s, p, b, next);
    } else {
      var v := m[b].(next := next);
      LinkFront(m, b, v, s);
      WriteElsewhere(m, b, v, head, s);
      assert s[0..] == s && s[..0] == [] && [] + [b] + s == [b] + s;
      assert Values(m, s)[..0] + [Value(m[b])] + Values(m, s)[0..] == [Value(m[b])] + Values(m, s);
      hide List, Values;
    }
  }

  lemma LinkAtElsewhere(m: seq<HeapBlock>, head: Ptr, t: seq<nat>, s: seq<nat>, p: nat, b: nat, next: Ptr)
    requires List(m, head, t) && p <= |s| && b < |m| && (p > 0 ==> s[p - 1] < |m|)
    requires b !in t && Separate(s, t)
    ensures List(LinkedAt(m, s, p, b, next), head, t) && Values(LinkedAt(m, s, p, b, next), t) == Values(m, t)
  {
    WriteElsewhere(m, b, m[b].(next := next), head, t);
    if p > 0 {
      var m1 := m[b := m[b].(next := next)];
      WriteElsewhere(m1, s[p - 1], m1[s[p - 1]].(next := b), head, t);
    }
  }

  class Heap32 {
    var freeList: Ptr
    var usedList: Ptr
    var freshList: Ptr
    var top: nat
    var mem: seq<HeapBlock>
    const sth: nat
    const lmt: nat
    const aln: nat
    ghost var frees: seq<nat>
    ghost var useds: seq<nat>
    ghost var spares: seq<nat>

    /** The three lists are well linked, share no record, and hold 32-bit values. */
    ghost predicate Valid()
      reads this
    {
      && List(mem, freeList, frees) && List(mem, usedList, useds) && List(mem, freshList, spares)
      && Separate(frees, useds) && Separate(frees, spares) && Separate(useds, spares)
      && Words(mem)
      && 0 < aln && top < U32 && lmt < U32
    }

    ghost function View(): Heap
      reads this
    {
      Heap(Values(mem, frees), Values(mem, useds), |spares|, top, sth, lmt, aln)
    }

    method ReleaseHeapBlocks(from: Ptr, to: Ptr, ghost run: seq<nat>)
      requires Segment(mem, from, run, to) && List(mem, freshList, spares) && Separate(run, spares) && Words(mem)
      modifies this`freshList, this`spares, this`mem
      ensures SameExcept(old(mem), mem, run) && Words(mem)
      ensures List(mem, freshList, spares) && |spares| == |old(spares)| + |run|
      ensures forall x :: x in spares <==> x in old(spares) || x in run
    {
      hide List, Segment, Values, Words;
      var scan := from;
      ghost var k := 0;
      while scan != to
        invariant 0 <= k <= |run| && Segment(mem, scan, run[k..], to)
        invariant List(mem, freshList, spares) && |spares| == |old(spares)| + k
        invariant SameExcept(old(mem), mem, run) && Words(mem)
        invariant forall x :: x in spares <==> x in old(spares) || x in run[..k]
        invariant Separate(run[k..], spares)
        decreases |run| - k
      {
        SegmentStep(mem, scan, run[k..], to);
        var snext := mem[scan].next;
        ghost var m, v := mem, HeapBlock(freshList, 0, 0);
        WriteWords(m, scan, v);
        assert run[k..][1..] == run[k + 1..] && run[..k + 1] == run[..k] + [run[k]] && scan == run[k];
        SegmentElsewhere(mem, scan, v, snext, run[k + 1..], to);
        LinkFront(mem, scan, v, spares);
        mem := mem[scan := mem[scan].(next := freshList)];
        freshList := scan;
        mem := mem[scan := mem[scan].(addr := 0)];
        mem := mem[scan := mem[scan].(size := 0)];
        assert mem == m[scan := v];
        spares := [scan] + spares;
        scan := snext;
        k := k + 1;
      }
      SegmentEnd(mem, scan, run[k..], to);
    }

    /** The inner loop of CompactBlocks: the last record of the run that starts at `ptr`, and its successor. */
    method FindRun(ptr: nat, ghost i: nat) returns (prev: nat, scan: Ptr, ghost j: nat)
      requires Valid() && i < |frees| && ptr == frees[i] && ptr < |mem|
      ensures i <= j < |frees| && prev == frees[j] && prev < |mem|
      ensures List(mem, scan, frees[j + 1..]) && scan == mem[prev].next
      ensures Values(mem, frees)[i] == Value(mem[ptr]) && Values(mem, frees)[j] == Value(mem[prev])
      ensures ptr == prev <==> i == j
      ensures RunSize(Value(mem[ptr]), Value(mem[ptr])) == mem[ptr].size
      ensures Compact(Values(mem, frees)[i..]) ==
              [Block(mem[ptr].addr, RunSize(Value(mem[ptr]), Value(mem[prev])))] + Compact(Values(mem, frees)[j + 1..])
    {
      hide List, Values, Words, Separate, Compact, RunOf, RunSize;
      ghost var v := Values(mem, frees);
      ListFrom(mem, freeList, frees, i);
      ValueAt(mem, frees, i);
      ValuesWords(mem, frees);
      RunStart(v, i);
      prev, scan, j := ptr, mem[ptr].next, i;
      if scan != NULL {
        ListHead(mem, scan, frees, j + 1);
        ValueAt(mem, frees, j + 1);
      } else {
        ListEmpty(mem, frees, j + 1);
      }
      while scan != NULL && Add32(mem[prev].addr, mem[prev].size) == mem[scan].addr
        invariant i <= j < |frees| && RunOf(v, i, j)
        invariant prev == frees[j] && prev < |mem| && v[j] == Value(mem[prev])
        invariant List(mem, scan, frees[j + 1..]) && scan == mem[prev].next
        invariant scan != NULL ==> j + 1 < |frees| && scan == frees[j + 1] && scan < |mem|
        invariant scan != NULL ==> j + 1 < |v| && v[j + 1] == Value(mem[scan])
        invariant scan == NULL ==> j + 1 == |frees|
        decreases |frees| - j
      {
        ListFrom(mem, freeList, frees, j + 1);
        RunGrow(v, i, j);
        prev := scan;
        scan := mem[scan].next;
        j := j + 1;
        if scan != NULL {
          ListHead(mem, scan, frees, j + 1);
          ValueAt(mem, frees, j + 1);
        } else {
          ListEmpty(mem, frees, j + 1);
        }
      }
      RunEnd(v, i, j);
      DistinctAt(mem, freeList, frees, i, j);
    }

    /** Merges the run frees[i..j + 1] into its first record, and releases the other records. */
    method MergeRun(ptr: nat, prev: nat, ghost i: nat, ghost j: nat)
      requires Valid() && i < j < |frees| && ptr == frees[i] && prev == frees[j] && prev < |mem| && ptr < |mem|
      requires List(mem, mem[prev].next, frees[j + 1..])
      modifies this`freshList, this`spares, this`frees, this`mem
      ensures Valid() && |mem| == old(|mem|) && ptr < |mem|
      ensures frees == old(frees)[..i + 1] + old(frees)[j + 1..] && useds == old(useds)
      ensures forall x :: x in frees || x in spares <==> x in old(frees) || x in old(spares)
      ensures |spares| == |old(spares)| + (j - i)
      ensures View().free == old(View()).free[..i]
                + [Block(old(mem[ptr].addr), RunSize(old(Value(mem[ptr])), old(Value(mem[prev]))))]
                + old(View()).free[j + 1..]
      ensures View().used == old(View()).used
      ensures List(mem, mem[ptr].next, frees[i + 1..])
    {
      hide List, Values, Words, Segment, Separate;
      ghost var m, run := mem, frees[i + 1..j + 1];
      var newSize := (mem[prev].addr - mem[ptr].addr + mem[prev].size) % U32;
      var next := mem[prev].next;
      mem := mem[ptr := mem[ptr].(size := newSize)];
      ghost var v := mem[ptr].(next := next);
      CutMembers(m, freeList, frees, i, j);
      WordsAt(m, ptr);
      WriteWords(m, ptr, mem[ptr]);
      CutSegment(m, freeList, frees, i, j, mem[ptr], next);
      SeparatePart(frees, run, spares);
      assert ptr !in useds && ptr !in spares by {
        NotIn(frees, i, useds);
        NotIn(frees, i, spares);
      }
      WriteElsewhere(m, ptr, mem[ptr], freshList, spares);
      ReleaseHeapBlocks(mem[ptr].next, next, run);
      WriteElsewhere(mem, ptr, v, freshList, spares);
      WriteWords(mem, ptr, v);
      mem := mem[ptr := mem[ptr].(next := next)];
      assert SameExcept(m[ptr := v], mem, run);
      CutList(m, mem, freeList, frees, i, j, v);
      SeparatePart(frees, run, useds);
      WriteElsewhere(m, ptr, v, usedList, useds);
      ListSameExcept(m[ptr := v], mem, run, usedList, useds);
      SeparatePart(frees, frees[..i + 1] + frees[j + 1..], useds);
      frees := frees[..i + 1] + frees[j + 1..];
      SeparatePart(old(frees), frees, old(spares));
      SeparateUnion(frees, old(spares), run, spares);
      SeparateUnion(useds, old(spares), run, spares);
    }

    /** The body of the outer loop of CompactBlocks: record `i` becomes the block of its whole run. */
    method CompactAt(ptr: nat, ghost i: nat) returns (next: Ptr)
      requires Valid() && i < |frees| && ptr == frees[i] && ptr < |mem|
      modifies this`freshList, this`spares, this`frees, this`mem
      ensures Valid() && |mem| == old(|mem|) && i < |frees| <= |old(frees)|
      ensures |frees| + |spares| == |old(frees)| + |old(spares)|
      ensures List(mem, next, frees[i + 1..])
      ensures View().free[..i + 1] + Compact(View().free[i + 1..]) ==
              old(View()).free[..i] + Compact(old(View()).free[i..])
      ensures View().used == old(View()).used && useds == old(useds)
      ensures forall x :: x in frees || x in spares <==> x in old(frees) || x in old(spares)
    {
      hide List, Values, Words, Separate, Compact, RunSize;
      var prev, scan;
      ghost var j;
      prev, scan, j := FindRun(ptr, i);
      ghost var u := View().free;
      next := scan;
      if prev != ptr {
        MergeRun(ptr, prev, i, j);
        next := mem[ptr].next;
      }
      assert View().free == u[..i] + [View().free[i]] + u[j + 1..];
      assert View().free[..i + 1] == u[..i] + [View().free[i]] && View().free[i + 1..] == u[j + 1..];
    }

    method CompactBlocks()
      requires Valid()
      modifies this`freshList, this`spares, this`frees, this`mem
      ensures Valid() && |mem| == old(|mem|)
      ensures View() == old(View()).(free := Compact(old(View()).free),
                                     spare := old(View()).spare + |old(View()).free| - |Compact(old(View()).free)|)
      ensures useds == old(useds)
      ensures forall x :: x in frees || x in spares <==> x in old(frees) || x in old(spares)
    {
      hide List, Values, Words, Separate, Compact;
      var ptr := freeList;
      ghost var i, v := 0, View().free;
      assert v[0..] == v && frees[0..] == frees;
      while ptr != NULL
        invariant Valid() && |mem| == old(|mem|) && i <= |frees|
        invariant List(mem, ptr, frees[i..])
        invariant Compact(v) == View().free[..i] + Compact(View().free[i..])
        invariant |frees| + |spares| == |v| + old(|spares|)
        invariant View().used == old(View()).used && useds == old(useds)
        invariant forall x :: x in frees || x in spares <==> x in old(frees) || x in old(spares)
        decreases |frees| - i
      {
        ListHead(mem, ptr, frees, i);
        ptr := CompactAt(ptr, i);
        i := i + 1;
      }
      ListEmpty(mem, frees, i);
      assert View().free[..i] == View().free && View().free[i..] == [];
      CompactEmpty();
    }

    /** The search loop of InsertHeapBlock: the place of `block` in the free list. */
    method FindSlot(block: nat) returns (ptr: Ptr, prev: Ptr, ghost p: nat)
      requires Valid() && block < |mem|
      ensures p <= |frees| && List(mem, ptr, frees[p..])
      ensures prev == if p > 0 then frees[p - 1] else NULL
      ensures Insert(View().free, Value(mem[block])) == View().free[..p] + [Value(mem[block])] + View().free[p..]
    {
      hide Insert, InsertPos;
      ptr, prev, p := freeList, NULL, 0;
      while ptr != NULL
        invariant 0 <= p <= |frees|
        invariant List(mem, ptr, frees[p..])
        invariant prev == if p > 0 then frees[p - 1] else NULL
        invariant forall i :: 0 <= i < p ==> Values(mem, frees)[i].addr < mem[block].addr
        decreases |frees| - p
      {
        ListFrom(mem, freeList, frees, p);
        ValueAt(mem, frees, p);
        if mem[block].addr <= mem[ptr].addr {
          InsertAt(Values(mem, frees), Value(mem[block]), p);
          return;
        }
        prev := ptr;
        ptr := mem[ptr].next;
        p := p + 1;
      }
      InsertAt(Values(mem, frees), Value(mem[block]), p);
    }

    method InsertHeapBlock(block: nat)
      requires Valid() && block < |mem|
      requires block !in frees && block !in useds && block !in spares
      modifies this`freeList, this`frees, this`mem
      ensures Valid() && |mem| == old(|mem|)
      ensures View() == old(View()).(free := Insert(old(View()).free, old(Value(mem[block]))))
      ensures useds == old(useds) && spares == old(spares)
      ensures forall x :: x in frees <==> x in old(frees) || x == block
    {
      hide List, Values, Words, Insert, InsertPos;
      var ptr, prev;
      ghost var p;
      ptr, prev, p := FindSlot(block);
      LinkAt(mem, freeList, frees, p, block, ptr);
      LinkAtElsewhere(mem, usedList, useds, frees, p, block, ptr);
      LinkAtElsewhere(mem, freshList, spares, frees, p, block, ptr);
      SeparateInsert(frees, useds, p, block);
      SeparateInsert(frees, spares, p, block);
      hide Separate;
      if prev != NULL {
        mem := mem[prev := mem[prev].(next := block)];
      } else {
        freeList := block;
      }
      mem := mem[block := mem[block].(next := ptr)];
      assert mem == LinkedAt(old(mem), frees, p, block, ptr);
      frees := frees[..p] + [block] + frees[p..];
    }

    /** The search loop of AllocHeapBlock: the first free block that fits. */
    method FindFit(size: nat) returns (ptr: Ptr, prev: Ptr, ghost i: nat)
      requires Valid()
      ensures i == FirstFit(View(), size, 0) && ptr == (if i < |frees| then frees[i] else NULL)
      ensures i < |frees| ==> ptr < |mem| && View().free[i] == Value(mem[ptr])
      ensures prev == if 0 < i <= |frees| then frees[i - 1] else NULL
    {
      hide List, Values, Words, FirstFit;
      ptr, prev, i := freeList, NULL, 0;
      assert frees[0..] == frees;
      while ptr != NULL
        invariant i <= |frees| && List(mem, ptr, frees[i..])
        invariant prev == if i > 0 then frees[i - 1] else NULL
        invariant forall k :: 0 <= k < i ==> !Fits(View(), View().free[k], size)
        decreases |frees| - i
      {
        ListHead(mem, ptr, frees, i);
        ListFrom(mem, freeList, frees, i);
        ValueAt(mem, frees, i);
        var isTop := Add32(mem[ptr].addr, mem[ptr].size) >= top && Add32(mem[ptr].addr, size) <= lmt;
        if isTop || mem[ptr].size >= size {
          FirstFitIs(View(), size, i);
          return;
        }
        prev := ptr;
        ptr := mem[ptr].next;
        i := i + 1;
      }
      ListEmpty(mem, frees, i);
      FirstFitIs(View(), size, i);
    }

    /** Moves a free record to the front of the used list. */
    method MoveToUsed(ptr: nat, prev: Ptr, ghost i: nat)
      requires Valid() && i < |frees| && ptr == frees[i] && ptr < |mem|
      requires prev == if i > 0 then frees[i - 1] else NULL
      modifies this`freeList, this`usedList, this`frees, this`useds, this`mem
      ensures Valid() && |mem| == old(|mem|)
      ensures frees == Without(old(frees), i) && useds == [ptr] + old(useds)
      ensures Value(mem[ptr]) == old(Value(mem[ptr]))
      ensures View() == old(View()).(free := Without(old(View()).free, i),
                                     used := [old(View()).free[i]] + old(View()).used)
      ensures forall x :: x in frees || x in useds <==> x in old(frees) || x in old(useds)
    {
      hide List, Values, Words;
      ghost var m := mem;
      Unlink(m, freeList, frees, i);
      WithoutMembers(m, freeList, frees, i);
      UnlinkElsewhere(m, usedList, useds, frees, i);
      UnlinkElsewhere(m, freshList, spares, frees, i);
      SeparateMove(frees, Without(frees, i), ptr, useds, spares);
      hide Separate;
      if prev != NULL {
        mem := mem[prev := mem[prev].(next := mem[ptr].next)];
      } else {
        freeList := mem[ptr].next;
      }
      frees := Without(frees, i);
      ghost var v := mem[ptr].(next := usedList);
      WordsAt(mem, ptr);
      WriteWords(mem, ptr, v);
      WriteElsewhere(mem, ptr, v, freeList, frees);
      WriteElsewhere(mem, ptr, v, freshList, spares);
      LinkFront(mem, ptr, v, useds);
      mem := mem[ptr := mem[ptr].(next := usedList)];
      usedList := ptr;
      useds := [ptr] + useds;
    }

    /** Resizes the first used block. */
    method ResizeUsed(ptr: nat, size: nat)
      requires Valid() && useds != [] && ptr == useds[0] && ptr < |mem| && size < U32
      modifies this`mem
      ensures Valid() && |mem| == old(|mem|)
      ensures Value(mem[ptr]) == Block(old(mem[ptr].addr), size)
      ensures View() == old(View()).(used := [Block(old(mem[ptr].addr), size)] + old(View()).used[1..])
    {
      hide List, Values, Words;
      ghost var v := mem[ptr].(size := size);
      WordsAt(mem, ptr);
      WriteWords(mem, ptr, v);
      RewriteHead(mem, usedList, useds, v);
      SeparatePart(frees, frees, useds);
      WriteElsewhere(mem, ptr, v, freeList, frees);
      WriteElsewhere(mem, ptr, v, freshList, spares);
      mem := mem[ptr := mem[ptr].(size := size)];
    }

    /** Takes the first fresh record and gives it an address and a size. */
    method TakeFresh(addr: nat, size: nat) returns (ptr: nat)
      requires Valid() && freshList != NULL && addr < U32 && size < U32
      modifies this`freshList, this`spares, this`mem
      ensures Valid() && |mem| == old(|mem|) && ptr < |mem| && Value(mem[ptr]) == Block(addr, size)
      ensures old(spares) == [ptr] + spares && ptr !in frees && ptr !in useds && ptr !in spares
      ensures View() == old(View()).(spare := old(View()).spare - 1)
    {
      hide List, Values, Words;
      assert spares[0..] == spares;
      ListHead(mem, freshList, spares, 0);
      ListFrom(mem, freshList, spares, 0);
      WithoutMembers(mem, freshList, spares, 0);
      ghost var rest := spares[1..];
      assert Without(spares, 0) == rest && spares == [spares[0]] + rest;
      SeparatePart(spares, rest, frees) by { SeparatePart(frees, frees, spares); }
      SeparatePart(spares, rest, useds) by { SeparatePart(useds, useds, spares); }
      ptr := freshList;
      ghost var v := HeapBlock(mem[ptr].next, size, addr);
      WriteWords(mem, ptr, v);
      WriteElsewhere(mem, ptr, v, freeList, frees);
      WriteElsewhere(mem, ptr, v, usedList, useds);
      WriteElsewhere(mem, ptr, v, v.next, rest);
      freshList := mem[ptr].next;
      spares := rest;
      mem := mem[ptr := mem[ptr].(addr := addr, size := size)];
    }

    /** Puts a record that is in no list at the front of the used list. */
    method PushUsed(ptr: nat)
      requires Valid() && ptr < |mem| && ptr !in frees && ptr !in useds && ptr !in spares
      modifies this`usedList, this`useds, this`mem
      ensures Valid() && |mem| == old(|mem|)
      ensures useds == [ptr] + old(useds) && Value(mem[ptr]) == old(Value(mem[ptr]))
      ensures View() == old(View()).(used := [old(Value(mem[ptr]))] + old(View()).used)
    {
      hide List, Values, Words;
      ghost var v := mem[ptr].(next := usedList);
      WordsAt(mem, ptr);
      WriteWords(mem, ptr, v);
      WriteElsewhere(mem, ptr, v, freeList, frees);
      WriteElsewhere(mem, ptr, v, freshList, spares);
      LinkFront(mem, ptr, v, useds);
      mem := mem[ptr := mem[ptr].(next := usedList)];
      usedList := ptr;
      useds := [ptr] + useds;
    }

    /** The end of the block in use that is taken off and put back as a free block of its own. */
    method SplitOff(ptr: nat, size: nat)
      requires Valid() && useds != [] && ptr == useds[0] && ptr < |mem| && freshList != NULL && size <= mem[ptr].size
      modifies this`freeList, this`freshList, this`mem, this`frees, this`spares
      ensures Valid() && |mem| == old(|mem|) && Value(mem[ptr]) == Block(old(mem[ptr].addr), size)
      ensures var g := old(View());
              g.used != [] && g.spare > 0 &&
              View() == PutBack(g.(used := [Value(mem[ptr])] + g.used[1..], spare := g.spare - 1),
                                Block(Add32(old(mem[ptr].addr), size), old(mem[ptr].size) - size))
      ensures forall x :: x in frees || x in useds || x in spares <==>
              x in old(frees) || x in old(useds) || x in old(spares)
    {
      hide List, Values, Words, Separate, Insert, Compact, InsertPos, Add32;
      ListNull(mem, freshList, spares);
      WordsAt(mem, ptr);
      var addr, excess := mem[ptr].addr, mem[ptr].size - size;
      ResizeUsed(ptr, size);
      var split := TakeFresh(Add32(addr, size), excess);
      InsertHeapBlock(split);
      CompactBlocks();
      ListFrom(mem, usedList, useds, 0);
      ValueAt(mem, useds, 0);
    }

    /** The part of AllocHeapBlock for a free block that fits. */
    method TakeFit(ptr: nat, prev: Ptr, size: nat, ghost i: nat)
      requires Valid() && i < |frees| && ptr == frees[i] && ptr < |mem| && size < U32
      requires prev == (if i > 0 then frees[i - 1] else NULL) && View().free[i] == Value(mem[ptr])
      requires Fits(View(), View().free[i], size)
      modifies this`freeList, this`usedList, this`freshList, this`top, this`mem, this`frees, this`useds, this`spares
      ensures Valid() && |mem| == old(|mem|)
      ensures forall x :: x in frees || x in useds || x in spares <==>
              x in old(frees) || x in old(useds) || x in old(spares)
      ensures (View(), Value(mem[ptr])) == Take(old(View()), size, i)
    {
      hide List, Values, Words, Separate, Insert, Compact, InsertPos, Add32, PutBack;
      ListNull(mem, freshList, spares);
      var isTop := Add32(mem[ptr].addr, mem[ptr].size) >= top && Add32(mem[ptr].addr, size) <= lmt;
      MoveToUsed(ptr, prev, i);
      if isTop {
        ResizeUsed(ptr, size);
        top := Add32(mem[ptr].addr, size);
      } else if freshList != NULL {
        var excess := mem[ptr].size - size;
        if excess >= sth {
          SplitOff(ptr, size);
        }
      }
    }

    /** The part of AllocHeapBlock for a block above the top. */
    method GrowHeap(size: nat) returns (ptr: Ptr)
      requires Valid() && size < U32
      modifies this`usedList, this`freshList, this`top, this`mem, this`useds, this`spares
      ensures Valid() && |mem| == old(|mem|)
      ensures forall x :: x in useds || x in spares <==> x in old(useds) || x in old(spares)
      ensures ptr == NULL <==> old(View()).spare == 0 || lmt < Add32(old(top), size)
      ensures ptr == NULL ==> View() == old(View())
      ensures ptr != NULL ==> ptr < |mem| && Value(mem[ptr]) == Block(old(top), size) && old(View()).spare > 0
      ensures ptr != NULL ==>
                View() == old(View()).(used := [Value(mem[ptr])] + old(View()).used, spare := old(View()).spare - 1,
                                       top := Add32(old(top), size))
    {
      hide List, Values, Words, Separate, Add32;
      ListNull(mem, freshList, spares);
      ptr := NULL;
      var newTop := Add32(top, size);
      if freshList != NULL && newTop <= lmt {
        ptr := TakeFresh(top, size);
        PushUsed(ptr);
        top := newTop;
      }
    }

    method AllocHeapBlock(request: nat) returns (ptr: Ptr)
      requires Valid() && request < U32
      modifies this`freeList, this`usedList, this`freshList, this`top, this`mem, this`frees, this`useds, this`spares
      ensures Valid() && |mem| == old(|mem|)
      ensures forall x :: x in frees || x in useds || x in spares <==>
              x in old(frees) || x in old(useds) || x in old(spares)
      ensures ptr == NULL <==> Alloc(old(View()), request).Refused?
      ensures ptr == NULL ==> View() == old(View())
      ensures ptr != NULL ==> ptr < |mem| && Alloc(old(View()), request) == Granted(View(), Value(mem[ptr]))
    {
      hide List, Values, Words, Separate, FirstFit, Take, Fits, Align32, Add32;
      var size := Align32(request, aln);
      var prev;
      ghost var i;
      ptr, prev, i := FindFit(size);
      if ptr != NULL {
        TakeFit(ptr, prev, size, i);
      } else {
        ptr := GrowHeap(size);
      }
    }

    /** VM_alloc: the address of the granted block, or 0. */
    method VmAlloc(request: nat) returns (addr: nat)
      requires Valid() && request < U32
      modifies this`freeList, this`usedList, this`freshList, this`top, this`mem, this`frees, this`useds, this`spares
      ensures Valid() && |mem| == old(|mem|)
      ensures forall x :: x in frees || x in useds || x in spares <==>
              x in old(frees) || x in old(useds) || x in old(spares)
      ensures match Alloc(old(View()), request)
              case Granted(h, b) => View() == h && addr == b.addr
              case Refused => View() == old(View()) && addr == 0
    {
      var block := AllocHeapBlock(request);
      if block != NULL {
        return mem[block].addr;
      }
      return 0;
    }

    /** The search loop of VmFree: the used block that starts at `a`. */
    method FindUsed(a: nat) returns (block: Ptr, prev: Ptr, ghost i: nat)
      requires Valid()
      ensures i == Find(View().used, a) && block == (if i < |useds| then useds[i] else NULL)
      ensures i < |useds| ==> block < |mem| && View().used[i] == Value(mem[block])
      ensures prev == if 0 < i <= |useds| then useds[i - 1] else NULL
    {
      hide List, Values, Words, Find;
      block, prev, i := usedList, NULL, 0;
      assert useds[0..] == useds;
      while block != NULL
        invariant i <= |useds| && List(mem, block, useds[i..])
        invariant prev == if i > 0 then useds[i - 1] else NULL
        invariant forall k :: 0 <= k < i ==> View().used[k].addr != a
        decreases |useds| - i
      {
        ListHead(mem, block, useds, i);
        ListFrom(mem, usedList, useds, i);
        ValueAt(mem, useds, i);
        if a == mem[block].addr {
          FindIs(View().used, a, i);
          return;
        }
        prev := block;
        block := mem[block].next;
        i := i + 1;
      }
      ListEmpty(mem, useds, i);
      FindIs(View().used, a, i);
    }

    method UnlinkUsed(ptr: nat, prev: Ptr, ghost i: nat)
      requires Valid() && i < |useds| && ptr == useds[i] && ptr < |mem|
      requires prev == if i > 0 then useds[i - 1] else NULL
      modifies this`usedList, this`useds, this`mem
      ensures Valid() && |mem| == old(|mem|)
      ensures useds == Without(old(useds), i) && ptr !in useds && ptr !in frees && ptr !in spares
      ensures forall x :: x in old(useds) <==> x in useds || x == ptr
      ensures Value(mem[ptr]) == old(View()).used[i]
      ensures View() == old(View()).(used := Without(old(View()).used, i))
    {
      hide List, Values, Words;
      SeparatePart(frees, frees, useds);
      Unlink(mem, usedList, useds, i);
      WithoutMembers(mem, usedList, useds, i);
      UnlinkElsewhere(mem, freeList, frees, useds, i);
      UnlinkElsewhere(mem, freshList, spares, useds, i);
      SeparateMove(useds, Without(useds, i), ptr, frees, spares) by {
        SeparatePart(frees, frees, spares);
      }
      SeparatePart(Without(useds, i), Without(useds, i), frees);
      hide Separate;
      if prev != NULL {
        mem := mem[prev := mem[prev].(next := mem[ptr].next)];
      } else {
        usedList := mem[ptr].next;
      }
      useds := Without(useds, i);
    }

    /** VM_free: whether `a` was the address of a used block, which is then free. */
    method VmFree(a: nat) returns (freed: bool)
      requires Valid()
      modifies this`freeList, this`usedList, this`freshList, this`mem, this`frees, this`useds, this`spares
      ensures Valid() && |mem| == old(|mem|)
      ensures forall x :: x in frees || x in useds || x in spares <==>
              x in old(frees) || x in old(useds) || x in old(spares)
      ensures (View(), freed) == Free(old(View()), a)
    {
      hide List, Values, Words, Separate, Find, Insert, Compact, InsertPos;
      if a == 0 {
        return false;
      }
      var block, prev;
      ghost var i;
      block, prev, i := FindUsed(a);
      if block == NULL {
        return false;
      }
      UnlinkUsed(block, prev, i);
      InsertHeapBlock(block);
      CompactBlocks();
      return true;
    }

    /** VM_heap_init_: links the records of an uninitialised buffer into the fresh list. */
    constructor (raw: seq<HeapBlock>, sth: nat, aln: nat, hb: nat, lmt: nat)
      requires raw != [] && Words(raw) && 0 < aln && hb < U32 && lmt < U32
      ensures Valid() && |mem| == |raw| && View() == Init(|raw|, sth, aln, hb, lmt)
      ensures forall x :: x in spares <==> 0 <= x < |raw|
    {
      this.sth, this.aln, this.lmt, top := sth, aln, lmt, hb;
      freeList, usedList, freshList := NULL, NULL, 0;
      frees, useds := [], [];
      var m := raw;
      var block, i := 0, |raw| - 1;
      while i > 0
        invariant 0 <= i && block + i == |raw| - 1 == |m| - 1 && Words(m)
        invariant forall k :: 0 <= k < block ==> m[k].next == k + 1
      {
        m := m[block := m[block].(next := block + 1)];
        block := block + 1;
        i := i - 1;
      }
      m := m[block := m[block].(next := NULL)];
      mem := m;
      spares := UpFrom(0, |m|);
      UpFromList(m, 0);
    }
  }
}
