/**
 The exception library: a stack of frames, each in a stage of its try block, and one cell for the last
 error. Blocks are entered again by long jumps. The machine of frames and jumps is related to what a
 nested try, catch and finally means.
 */
module E4c {
  import opened Basics

  const MAX_FRAMES: nat := 16

  /** An exception type and its supertype: another type, itself, or none. Names tell the types apart. */
  datatype Type = Type(name: nat, super: Super)
  datatype Super = Itself | Nothing | Of(parent: Type)

  const RUNTIME_EXCEPTION := Type(0, Itself)
  const NULL_POINTER_EXCEPTION := Type(1, Of(RUNTIME_EXCEPTION))

  /** e4c_extends */
  function Extends(child: Type, parent: Type): bool
    decreases child
  {
    child.super.Of? && (child.super.parent == parent || Extends(child.super.parent, parent))
  }

  function IsInstance(t: Type, of: Type): bool {
    t == of || Extends(t, of)
  }

  // ---------------------------------------------------------------------------------------------
  // The context
  // ---------------------------------------------------------------------------------------------

  const BEGINNING: nat := 0
  const TRYING: nat := 1
  const CATCHING: nat := 2
  const FINALIZING: nat := 3
  const COMPLETED: nat := 4

  datatype Cell = Cell(stage: nat, uncaught: bool)

  /** frame[0] belongs to the code outside of all try blocks. */
  datatype Context = Context(frame: seq<Cell>, frames: nat, err: Option<Type>)

  predicate Sound(c: Context) {
    |c.frame| == MAX_FRAMES + 1 && c.frames <= MAX_FRAMES
  }

  /** Where a call goes: back with a result, to the set jump of a frame, or out of the program. */
  datatype Control = Returns(value: bool) | JumpTo(index: nat) | Exit

  function Mark(c: Context, caught: bool): Context
    requires Sound(c)
  {
    c.(frame := c.frame[c.frames := c.frame[c.frames].(uncaught := !caught)])
  }

  /** e4c_propagate */
  function Propagated(c: Context): (r: (Context, Control))
    requires Sound(c)
    ensures Sound(r.0)
  {
    (Mark(c, false), if c.frames > 0 then JumpTo(c.frames - 1) else Exit)
  }

  /** e4c_throw; no type stands for a null pointer. */
  function Thrown(c: Context, t: Option<Type>): (r: (Context, Control))
    requires Sound(c)
    ensures Sound(r.0)
  {
    Propagated(c.(err := Some(if t.Some? then t.value else NULL_POINTER_EXCEPTION)))
  }

  /** e4c_try */
  function Entered(c: Context): (r: (Context, Control))
    requires Sound(c)
    ensures Sound(r.0)
  {
    if c.frames >= MAX_FRAMES then Thrown(c, Some(RUNTIME_EXCEPTION))
    else (c.(frames := c.frames + 1, frame := c.frame[c.frames + 1 := Cell(BEGINNING, false)]), Returns(true))
  }

  /** e4c_hook(0) */
  function Hooked(c: Context): (r: (Context, Control))
    requires Sound(c) && c.frames > 0
    ensures Sound(r.0)
  {
    var cell := c.frame[c.frames];
    var stage := if cell.stage + 1 == CATCHING && !cell.uncaught then FINALIZING else cell.stage + 1;
    var c1 := c.(frame := c.frame[c.frames := cell.(stage := stage)]);
    if stage < COMPLETED then (c1, Returns(true))
    else if cell.uncaught then Propagated(c1.(frames := c.frames - 1))
    else (c1.(frames := c.frames - 1), Returns(false))
  }

  class E4cContext {
    var frame: array<Cell>
    var frames: nat
    var err: Option<Type>

    ghost function Value(): Context
      reads this, frame
    {
      Context(frame[..], frames, err)
    }

    ghost predicate Valid()
      reads this, frame
    {
      Sound(Value())
    }

    constructor ()
      ensures Valid() && fresh(frame)
      ensures frames == 0 && err == None && forall i :: 0 <= i <= MAX_FRAMES ==> frame[i] == Cell(BEGINNING, false)
    {
      frame := new Cell[MAX_FRAMES + 1](_ => Cell(BEGINNING, false));
      frames, err := 0, None;
    }

    method Propagate() returns (control: Control)
      requires Valid()
      modifies frame
      ensures Valid() && (Value(), control) == Propagated(old(Value()))
    {
      frame[frames] := frame[frames].(uncaught := true);
      if frames > 0 {
        return JumpTo(frames - 1);
      }
      return Exit;
    }

    method Throw(t: Option<Type>) returns (control: Control)
      requires Valid()
      modifies this`err, frame
      ensures Valid() && (Value(), control) == Thrown(old(Value()), t)
    {
      err := Some(if t.Some? then t.value else NULL_POINTER_EXCEPTION);
      control := Propagate();
    }

    method Try() returns (control: Control)
      requires Valid()
      modifies this`frames, this`err, frame
      ensures Valid() && (Value(), control) == Entered(old(Value()))
    {
      if frames >= MAX_FRAMES {
        control := Throw(Some(RUNTIME_EXCEPTION));
        return;
      }
      frames := frames + 1;
      frame[frames] := frame[frames].(stage := BEGINNING);
      frame[frames] := frame[frames].(uncaught := false);
      assert frame[..] == old(frame[..])[frames := Cell(BEGINNING, false)];
      return Returns(true);
    }

    method Hook(isCatch: bool) returns (control: Control)
      requires Valid() && frames > 0
      modifies this`frames, frame
      ensures Valid()
      ensures (Value(), control) == if isCatch then (Mark(old(Value()), true), Returns(true)) else Hooked(old(Value()))
    {
      if isCatch {
        frame[frames] := frame[frames].(uncaught := false);
        return Returns(true);
      }
      var uncaught := frame[frames].uncaught;
      frame[frames] := frame[frames].(stage := frame[frames].stage + 1);
      if frame[frames].stage == CATCHING && !uncaught {
        frame[frames] := frame[frames].(stage := frame[frames].stage + 1);
      }
      assert frame[..] == old(frame[..])[frames := frame[frames]];
      if frame[frames].stage < COMPLETED {
        return Returns(true);
      }
      frames := frames - 1;
      if uncaught {
        control := Propagate();
        return;
      }
      return Returns(false);
    }

    method IsExtension(child: Type, parent: Type) returns (r: bool)
      ensures r == Extends(child, parent)
    {
      var at := child;
      while at.super.Of?
        invariant Extends(child, parent) == Extends(at, parent)
        decreases at
      {
        if at.super.parent == parent {
          return true;
        }
        at := at.super.parent;
      }
      return false;
    }
  }

  // ---------------------------------------------------------------------------------------------
  // Programs, and the machine of jumps
  // ---------------------------------------------------------------------------------------------

  datatype Stmt = Skip
                | Act(event: int)
                | Throw(what: Option<Type>)
                | IfInstance(of: Type, yes: Stmt, no: Stmt)
                | Seq(first: Stmt, second: Stmt)
                | Try(body: Stmt, handlers: Handlers, last: Stmt)

  /** The catch blocks in their order. */
  datatype Handlers = End | Catch(of: Type, block: Stmt, more: Handlers)

  /** What is still to be done. Loop is the loop over the stages of a try block. */
  datatype Rest = Stop | Do(s: Stmt, then_: Rest) | Loop(try_: Stmt, after: Rest)

  datatype Machine = Machine(c: Context, jumps: seq<Rest>, rest: Rest, trace: seq<int>, exited: bool)

  predicate Ready(m: Machine) {
    Sound(m.c) && |m.jumps| == MAX_FRAMES && !m.exited
  }

  predicate IsError(e: Option<Type>, t: Type) {
    e.Some? && IsInstance(e.value, t)
  }

  /** The first catch block for the error. */
  function FirstMatch(hs: Handlers, e: Option<Type>): Option<Stmt> {
    match hs
    case End => None
    case Catch(t, block, more) => if IsError(e, t) then Some(block) else FirstMatch(more, e)
  }

  /** Control after a call that may jump. */
  function Go(m: Machine, to: (Context, Control), back: Rest): Machine
    requires Ready(m) && Sound(to.0)
  {
    match to.1
    case Returns(_) => m.(c := to.0, rest := back)
    case JumpTo(i) => m.(c := to.0, rest := if i < MAX_FRAMES then m.jumps[i] else Stop)
    case Exit => m.(c := to.0, exited := true)
  }

  /** The condition of the loop and the block it selects. */
  function Turn(m: Machine, t: Stmt, k: Rest): Machine
    requires Ready(m) && m.c.frames > 0 && t.Try?
  {
    var r := Hooked(m.c);
    if r.1 != Returns(true) then Go(m, r, k)
    else
      var c, again := r.0, Loop(t, k);
      var stage := c.frame[c.frames].stage;
      if stage == TRYING then m.(c := c, rest := Do(t.body, again))
      else if stage == CATCHING && FirstMatch(t.handlers, c.err).Some? then
        m.(c := Mark(c, true), rest := Do(FirstMatch(t.handlers, c.err).value, again))
      else if stage == FINALIZING then m.(c := c, rest := Do(t.last, again))
      else m.(c := c, rest := again)
  }

  function Step(m: Machine): Machine
    requires Ready(m)
  {
    match m.rest
    case Stop => m
    case Loop(t, k) => if t.Try? && m.c.frames > 0 then Turn(m, t, k) else m
    case Do(s, k) =>
      match s
      case Skip => m.(rest := k)
      case Act(e) => m.(rest := k, trace := m.trace + [e])
      case Throw(t) => Go(m, Thrown(m.c, t), k)
      case IfInstance(t, a, b) => m.(rest := Do(if IsError(m.c.err, t) then a else b, k))
      case Seq(a, b) => m.(rest := Do(a, Do(b, k)))
      case Try(_, _, _) =>
        var r := Entered(m.c);
        if r.1 != Returns(true) then Go(m, r, k)
        else m.(c := r.0, jumps := m.jumps[r.0.frames - 1 := Loop(s, k)], rest := Loop(s, k))
  }

  function Steps(m: Machine, n: nat): Machine
    decreases n
  {
    if n == 0 || !Ready(m) then m else Steps(Step(m), n - 1)
  }

  // ---------------------------------------------------------------------------------------------
  // What nested blocks mean
  // ---------------------------------------------------------------------------------------------

  /** How a statement ends, the error cell it leaves, and the events on the way. */
  datatype Outcome = Outcome(failed: bool, err: Option<Type>, trace: seq<int>)

  function Then(a: Outcome, b: Outcome): Outcome {
    Outcome(b.failed, b.err, a.trace + b.trace)
  }

  /** `depth` is the number of try blocks around the statement. */
  function Exec(s: Stmt, depth: nat, err: Option<Type>): Outcome
    decreases s, 1
  {
    match s
    case Skip => Outcome(false, err, [])
    case Act(e) => Outcome(false, err, [e])
    case Throw(t) => Outcome(true, Some(if t.Some? then t.value else NULL_POINTER_EXCEPTION), [])
    case IfInstance(t, a, b) => if IsError(err, t) then Exec(a, depth, err) else Exec(b, depth, err)
    case Seq(a, b) =>
      var r := Exec(a, depth, err);
      if r.failed then r else Then(r, Exec(b, depth, r.err))
    case Try(body, handlers, last) =>
      if depth >= MAX_FRAMES then Outcome(true, Some(RUNTIME_EXCEPTION), [])
      else
        var tried := Exec(body, depth + 1, err);
        var caught := if tried.failed then Then(tried, Handle(handlers, depth + 1, tried.err)) else tried;
        var end := Exec(last, depth + 1, caught.err);
        Outcome(end.failed || caught.failed, end.err, caught.trace + end.trace)
  }

  /** The first matching catch block, or the error as it was. */
  function Handle(hs: Handlers, depth: nat, err: Option<Type>): Outcome
    decreases hs, 0
  {
    match hs
    case End => Outcome(true, err, [])
    case Catch(t, block, more) => if IsError(err, t) then Exec(block, depth, err) else Handle(more, depth, err)
  }

  // ---------------------------------------------------------------------------------------------
  // The machine does what the blocks mean
  // ---------------------------------------------------------------------------------------------

  /** Nothing that belongs to the frames in use has changed. */
  predicate Untouched(m: Machine, e: Machine) {
    && Ready(m) && Ready(e) && e.c.frames == m.c.frames
    && e.c.frame[..m.c.frames + 1] == m.c.frame[..m.c.frames + 1] && e.jumps[..m.c.frames] == m.jumps[..m.c.frames]
  }

  /** The machine where `e` says, either at the rest or at the jump for an error. */
  function Arrived(e: Machine, failed: bool, k: Rest): Machine
    requires Ready(e)
  {
    if failed then Go(e, Propagated(e.c), k) else e.(rest := k)
  }

  lemma {:induction false} StepsAdd(m: Machine, a: nat, b: nat)
    ensures Steps(m, a + b) == Steps(Steps(m, a), b)
    decreases a
  {
    if a > 0 && Ready(m) {
      StepsAdd(Step(m), a - 1, b);
    }
  }

  /** The place in the trace, the error cell and the frames after a statement. */
  predicate Ends(m: Machine, e: Machine, r: Outcome) {
    Untouched(m, e) && e.c.err == r.err && e.trace == m.trace + r.trace
  }

  lemma ExecSeq(a: Stmt, b: Stmt, depth: nat, err: Option<Type>)
    ensures var r := Exec(a, depth, err);
            Exec(Seq(a, b), depth, err) == if r.failed then r else Then(r, Exec(b, depth, r.err))
  {
  }

  /** A try block that is in use: its frame is the last, its cell is as given, and its jump leads back to its loop. */
  predicate Inside(m: Machine, b: Machine, t: Stmt, k: Rest, cell: Cell) {
    && Ready(m) && Ready(b) && m.c.frames < MAX_FRAMES && b.c.frames == m.c.frames + 1
    && b.c.frame[..m.c.frames + 1] == m.c.frame[..m.c.frames + 1] && b.c.frame[b.c.frames] == cell
    && b.jumps[..m.c.frames] == m.jumps[..m.c.frames] && b.jumps[m.c.frames] == Loop(t, k)
  }

  lemma LoopAgain(m: Machine, b: Machine, f: Machine, t: Stmt, k: Rest, cell: Cell, r: Outcome)
    requires Inside(m, b, t, k, cell) && Ends(b, f, r)
    ensures var e := Arrived(f, r.failed, Loop(t, k));
            Inside(m, e, t, k, cell.(uncaught := cell.uncaught || r.failed)) && e.rest == Loop(t, k) &&
            e.c.err == r.err && e.trace == b.trace + r.trace
  {
    assert f.c.frame[f.c.frames] == b.c.frame[..b.c.frames + 1][b.c.frames] == cell;
    assert f.jumps[m.c.frames] == b.jumps[..b.c.frames][m.c.frames] == Loop(t, k);
    assert f.c.frame[..m.c.frames + 1] == f.c.frame[..b.c.frames + 1][..m.c.frames + 1];
    assert f.jumps[..m.c.frames] == f.jumps[..b.c.frames][..m.c.frames];
  }

  lemma EnterTry(t: Stmt, k: Rest, m: Machine) returns (b: Machine)
    requires Ready(m) && m.rest == Do(t, k) && t.Try? && m.c.frames < MAX_FRAMES
    ensures b == Step(Step(m)) && Inside(m, b, t, k, Cell(TRYING, false)) && b.rest == Do(t.body, Loop(t, k))
    ensures Ready(Step(m)) && b.c.err == m.c.err && b.trace == m.trace
  {
    b := Step(Step(m));
  }

  lemma ExecTry(t: Stmt, depth: nat, err: Option<Type>)
    requires t.Try? && depth < MAX_FRAMES
    ensures var tried := Exec(t.body, depth + 1, err);
            var caught := if tried.failed then Then(tried, Handle(t.handlers, depth + 1, tried.err)) else tried;
            var end := Exec(t.last, depth + 1, caught.err);
            Exec(t, depth, err) == Outcome(end.failed || caught.failed, end.err, caught.trace + end.trace)
  {
  }

  lemma Chain(m: Machine, b: Machine, e1: Machine, e2: Machine, e3: Machine, n1: nat, n2: nat, n3: nat)
    requires Ready(m) && Ready(Step(m)) && b == Step(Step(m)) && Ready(e3)
    requires Steps(b, n1) == e1 && Steps(e1, n2) == e2 && Steps(e2, n3) == e3
    ensures Steps(m, 2 + n1 + n2 + n3 + 1) == Step(e3)
  {
    assert Steps(Step(m), 1) == b;
    assert Steps(m, 2) == b;
    StepsAdd(m, 2, n1);
    StepsAdd(m, 2 + n1, n2);
    StepsAdd(m, 2 + n1 + n2, n3);
    StepsAdd(m, 2 + n1 + n2 + n3, 1);
    assert Steps(e3, 1) == Step(e3);
  }

  lemma {:induction false} HandleIs(hs: Handlers, depth: nat, err: Option<Type>)
    ensures var h := FirstMatch(hs, err);
            Handle(hs, depth, err) == if h.Some? then Exec(h.value, depth, err) else Outcome(true, err, [])
  {
    if hs.Catch? {
      HandleIs(hs.more, depth, err);
    }
  }

  lemma {:induction false} MatchSmaller(hs: Handlers, err: Option<Type>)
    ensures FirstMatch(hs, err).Some? ==> FirstMatch(hs, err).value < hs
  {
    if hs.Catch? {
      MatchSmaller(hs.more, err);
    }
  }

  lemma StepsNone(m: Machine)
    ensures Steps(m, 0) == m
  {
  }

  lemma OneStep(t: Stmt, k: Rest, m: Machine, b: Machine, cell: Cell)
    requires Inside(m, b, t, k, cell)
    ensures Ready(b) && Steps(b, 1) == Step(b)
  {
    assert Steps(Step(b), 0) == Step(b);
  }

  /** The turn behind the body: to the catch block for an error, and otherwise past the catch blocks. */
  lemma StartCatching(t: Stmt, k: Rest, m: Machine, b: Machine, failed: bool)
    requires t.Try? && Inside(m, b, t, k, Cell(TRYING, failed)) && b.rest == Loop(t, k)
    ensures var e, h := Step(b), FirstMatch(t.handlers, b.c.err);
            && e.c.err == b.c.err && e.trace == b.trace
            && (!failed ==> Inside(m, e, t, k, Cell(FINALIZING, false)) && e.rest == Do(t.last, Loop(t, k)))
            && (failed && h.Some? ==> Inside(m, e, t, k, Cell(CATCHING, false)) && e.rest == Do(h.value, Loop(t, k)))
            && (failed && h.None? ==> Inside(m, e, t, k, Cell(CATCHING, true)) && e.rest == Loop(t, k))
  {
    hide FirstMatch;
  }

  /** The turn behind the catch blocks. */
  lemma StartFinalizing(t: Stmt, k: Rest, m: Machine, b: Machine, failed: bool)
    requires t.Try? && Inside(m, b, t, k, Cell(CATCHING, failed)) && b.rest == Loop(t, k)
    ensures var e := Step(b);
            && Inside(m, e, t, k, Cell(FINALIZING, failed)) && e.rest == Do(t.last, Loop(t, k))
            && e.c.err == b.c.err && e.trace == b.trace
  {
  }

  /** The last turn of the loop takes the frame away. */
  lemma LeaveTry(t: Stmt, k: Rest, m: Machine, b: Machine, failed: bool) returns (e: Machine)
    requires t.Try? && Inside(m, b, t, k, Cell(FINALIZING, failed)) && b.rest == Loop(t, k)
    ensures Untouched(m, e) && e.c.err == b.c.err && e.trace == b.trace && Step(b) == Arrived(e, failed, k)
  {
    var c := b.c.(frames := m.c.frames, frame := b.c.frame[b.c.frames := Cell(COMPLETED, failed)]);
    e := b.(c := c);
  }

  lemma EnteredTryRuns(t: Stmt, k: Rest, m: Machine) returns (n: nat, e: Machine)
    requires Ready(m) && m.rest == Do(t, k) && t.Try? && m.c.frames < MAX_FRAMES
    ensures var r := Exec(t, m.c.frames, m.c.err);
            Ends(m, e, r) && Steps(m, n) == Arrived(e, r.failed, k)
    decreases t, 0
  {
    hide Exec, Step, Steps, Inside, Ready, Untouched, Handle, Arrived;
    ExecTry(t, m.c.frames, m.c.err);
    var b := EnterTry(t, k, m);
    var n1, e1 := BlockRuns(t.body, t, k, m, b, Cell(TRYING, false));
    var tried := Exec(t.body, m.c.frames + 1, m.c.err);
    var n2, e2, caught := CatchRuns(t, k, m, e1, tried);
    var n3, e3 := BlockRuns(t.last, t, k, m, e2, Cell(FINALIZING, caught.failed));
    var last := Exec(t.last, m.c.frames + 1, caught.err);
    e := LeaveTry(t, k, m, e3, caught.failed || last.failed);
    n := 2 + n1 + n2 + n3 + 1;
    Chain(m, b, e1, e2, e3, n1, n2, n3);
    assert m.trace + caught.trace + last.trace == m.trace + (caught.trace + last.trace);
  }

  lemma {:induction false} TryRuns(t: Stmt, k: Rest, m: Machine) returns (n: nat, e: Machine)
    requires Ready(m) && m.rest == Do(t, k) && t.Try?
    ensures var r := Exec(t, m.c.frames, m.c.err);
            Ends(m, e, r) && Steps(m, n) == Arrived(e, r.failed, k)
    decreases t, 1
  {
    if m.c.frames >= MAX_FRAMES {
      n, e := 1, m.(c := m.c.(err := Some(RUNTIME_EXCEPTION)));
      assert Steps(m, 1) == Step(m);
    } else {
      n, e := EnteredTryRuns(t, k, m);
    }
  }

  lemma SeqRuns(a: Stmt, b: Stmt, k: Rest, m: Machine) returns (n: nat, e: Machine)
    requires Ready(m) && m.rest == Do(a, Do(b, k))
    ensures var r := Exec(Seq(a, b), m.c.frames, m.c.err);
            Ends(m, e, r) && Steps(m, n) == Arrived(e, r.failed, k)
    decreases Seq(a, b), 1
  {
    var r := Exec(a, m.c.frames, m.c.err);
    ExecSeq(a, b, m.c.frames, m.c.err);
    hide Exec, Step, Steps;
    n, e := ExecRuns(a, Do(b, k), m);
    if !r.failed {
      var n2, middle := 0, e;
      n2, e := ExecRuns(b, k, middle.(rest := Do(b, k)));
      StepsAdd(m, n, n2);
      n := n + n2;
      var r2 := Exec(b, m.c.frames, r.err);
      assert m.trace + r.trace + r2.trace == m.trace + (r.trace + r2.trace);
    }
  }

  lemma {:induction false} ExecRuns(s: Stmt, k: Rest, m: Machine) returns (n: nat, e: Machine)
    requires Ready(m) && m.rest == Do(s, k)
    ensures var r := Exec(s, m.c.frames, m.c.err);
            Ends(m, e, r) && Steps(m, n) == Arrived(e, r.failed, k)
    decreases s, 2
  {
    match s {
      case Skip => n, e := 1, m;
        assert Steps(m, 1) == Step(m);
      case Act(x) => n, e := 1, m.(trace := m.trace + [x]);
        assert Steps(m, 1) == Step(m);
      case Throw(t) => n, e := 1, m.(c := m.c.(err := Some(if t.Some? then t.value else NULL_POINTER_EXCEPTION)));
        assert Steps(m, 1) == Step(m);
      case IfInstance(t, a, b) =>
        n, e := ExecRuns(if IsError(m.c.err, t) then a else b, k, Step(m));
        n := n + 1;
      case Seq(a, b) =>
        n, e := SeqRuns(a, b, k, Step(m));
        n := n + 1;
      case Try(_, _, _) =>
        n, e := TryRuns(s, k, m);
    }
  }

  /** A block of a try statement comes back to the loop, and its error is marked. */
  lemma BlockRuns(s: Stmt, t: Stmt, k: Rest, m: Machine, b: Machine, cell: Cell) returns (n: nat, e: Machine)
    requires Inside(m, b, t, k, cell) && b.rest == Do(s, Loop(t, k))
    ensures var r := Exec(s, m.c.frames + 1, b.c.err);
            Inside(m, e, t, k, cell.(uncaught := cell.uncaught || r.failed)) && e.rest == Loop(t, k) &&
            e.c.err == r.err && e.trace == b.trace + r.trace && Steps(b, n) == e
    decreases s, 3
  {
    var f;
    n, f := ExecRuns(s, Loop(t, k), b);
    e := Arrived(f, Exec(s, b.c.frames, b.c.err).failed, Loop(t, k));
    LoopAgain(m, b, f, t, k, cell, Exec(s, b.c.frames, b.c.err));
  }

  /** From the end of the body to the start of the finally block. */
  lemma CatchRuns(t: Stmt, k: Rest, m: Machine, b: Machine, tried: Outcome)
    returns (n: nat, e: Machine, caught: Outcome)
    requires t.Try? && Inside(m, b, t, k, Cell(TRYING, tried.failed)) && b.rest == Loop(t, k)
    requires b.c.err == tried.err && b.trace == m.trace + tried.trace
    ensures caught == if tried.failed then Then(tried, Handle(t.handlers, m.c.frames + 1, tried.err)) else tried
    ensures Inside(m, e, t, k, Cell(FINALIZING, caught.failed)) && e.rest == Do(t.last, Loop(t, k))
    ensures e.c.err == caught.err && e.trace == m.trace + caught.trace && Steps(b, n) == e
    decreases t.handlers, 3
  {
    hide Exec, Step, Steps, Inside, Ready, Handle, FirstMatch;
    caught := if tried.failed then Then(tried, Handle(t.handlers, m.c.frames + 1, tried.err)) else tried;
    OneStep(t, k, m, b, Cell(TRYING, tried.failed));
    StartCatching(t, k, m, b, tried.failed);
    n, e := 1, Step(b);
    if tried.failed {
      var h := FirstMatch(t.handlers, b.c.err);
      HandleIs(t.handlers, m.c.frames + 1, b.c.err);
      var n1, e1 := 0, e;
      if h.None? {
        StepsNone(e);
      } else {
        MatchSmaller(t.handlers, b.c.err);
        n1, e1 := BlockRuns(h.value, t, k, m, e, Cell(CATCHING, false));
      }
      StartFinalizing(t, k, m, e1, caught.failed);
      OneStep(t, k, m, e1, Cell(CATCHING, caught.failed));
      StepsAdd(b, 1, n1);
      StepsAdd(b, 1 + n1, 1);
      n, e := 1 + n1 + 1, Step(e1);
    }
  }

  /** At the start of a program. */
  predicate Started(m: Machine, s: Stmt) {
    Ready(m) && m.c.frames == 0 && m.rest == Do(s, Stop) && m.trace == []
  }

  /**
   A program run on its own: it stops with all frames gone, or leaves the program with the error that no
   block has caught; and it shows just the events of the nested meaning.
   */
  lemma ProgramRuns(s: Stmt, m: Machine) returns (n: nat)
    requires Started(m, s)
    ensures var r := Exec(s, 0, m.c.err);
            var e := Steps(m, n);
            e.exited == r.failed && (!r.failed ==>
                e.rest == Stop) && e.c.frames == 0 && e.c.err == r.err && e.trace == r.trace
  {
    var e;
    n, e := ExecRuns(s, Stop, m);
  }

  // ---------------------------------------------------------------------------------------------
  // What the blocks promise
  // ---------------------------------------------------------------------------------------------

  function Count(events: seq<int>, e: int): nat {
    multiset(events)[e]
  }

  /** No statement inside shows the event. */
  predicate Silent(s: Stmt, e: int)
    decreases s, 1
  {
    match s
    case Act(x) => x != e
    case IfInstance(_, a, b) => Silent(a, e) && Silent(b, e)
    case Seq(a, b) => Silent(a, e) && Silent(b, e)
    case Try(body, hs, last) => Silent(body, e) && SilentHandlers(hs, e) && Silent(last, e)
    case _ => true
  }

  predicate SilentHandlers(hs: Handlers, e: int)
    decreases hs, 0
  {
    match hs
    case End => true
    case Catch(_, block, more) => Silent(block, e) && SilentHandlers(more, e)
  }

  /** How the body and the catch block end. */
  function Caught(body: Stmt, hs: Handlers, depth: nat, err: Option<Type>): Outcome {
    var tried := Exec(body, depth + 1, err);
    if tried.failed then Then(tried, Handle(hs, depth + 1, tried.err)) else tried
  }

  lemma CountAdd(a: seq<int>, b: seq<int>, e: int)
    ensures Count(a + b, e) == Count(a, e) + Count(b, e)
  {
  }

  lemma TryTrace(body: Stmt, hs: Handlers, last: Stmt, depth: nat, err: Option<Type>, e: int)
    requires depth < MAX_FRAMES
    ensures var tried, caught := Exec(body, depth + 1, err), Caught(body, hs, depth, err);
            var end := Exec(last, depth + 1, caught.err);
            Exec(Try(body, hs, last), depth, err).trace == caught.trace + end.trace &&
            Count(caught.trace + end.trace, e) == Count(caught.trace, e) + Count(end.trace, e) &&
            Count(caught.trace, e) <= Count(tried.trace, e) + Count(Handle(hs, depth + 1, tried.err).trace, e)
  {
    var tried, caught := Exec(body, depth + 1, err), Caught(body, hs, depth, err);
    ExecTry(Try(body, hs, last), depth, err);
    hide Exec, Handle, Count;
    CountAdd(caught.trace, Exec(last, depth + 1, caught.err).trace, e);
    CountAdd(tried.trace, Handle(hs, depth + 1, tried.err).trace, e);
  }

  lemma CountNone(e: int)
    ensures Count([], e) == 0
  {
  }

  lemma CountOne(x: int, e: int)
    ensures Count([x], e) == if x == e then 1 else 0
  {
  }

  lemma {:induction false} SilentShowsNothing(s: Stmt, depth: nat, err: Option<Type>, e: int)
    requires Silent(s, e)
    ensures Count(Exec(s, depth, err).trace, e) == 0
    decreases s, 1
  {
    hide Count;
    CountNone(e);
    match s {
      case Act(x) => CountOne(x, e);
      case IfInstance(t, a, b) => SilentShowsNothing(if IsError(err, t) then a else b, depth, err, e);
      case Seq(a, b) =>
        var r, r2 := Exec(a, depth, err), Exec(b, depth, Exec(a, depth, err).err);
        SilentShowsNothing(a, depth, err, e);
        SilentShowsNothing(b, depth, r.err, e);
        CountAdd(r.trace, r2.trace, e);
      case Try(body, hs, last) =>
        if depth < MAX_FRAMES {
          SilentShowsNothing(body, depth + 1, err, e);
          SilentHandlersShowNothing(hs, depth + 1, Exec(body, depth + 1, err).err, e);
          SilentShowsNothing(last, depth + 1, Caught(body, hs, depth, err).err, e);
          TryTrace(body, hs, last, depth, err, e);
        }
      case _ =>
    }
  }

  lemma {:induction false} SilentHandlersShowNothing(hs: Handlers, depth: nat, err: Option<Type>, e: int)
    requires SilentHandlers(hs, e)
    ensures Count(Handle(hs, depth, err).trace, e) == 0
    decreases hs, 0
  {
    if hs.Catch? {
      SilentShowsNothing(hs.block, depth, err, e);
      SilentHandlersShowNothing(hs.more, depth, err, e);
    }
  }

  lemma FinallyComesLast(body: Stmt, hs: Handlers, last: Stmt, e: int, depth: nat, err: Option<Type>)
    returns (before: seq<int>)
    requires Silent(body, e) && SilentHandlers(hs, e) && depth < MAX_FRAMES
    ensures Count(before, e) == 0
    ensures Exec(Try(body, hs, last), depth, err).trace ==
            before + Exec(last, depth + 1, Caught(body, hs, depth, err).err).trace
  {
    before := Caught(body, hs, depth, err).trace;
    hide Exec, Handle, Count, Caught, Silent, SilentHandlers;
    TryTrace(body, hs, last, depth, err, e);
    SilentShowsNothing(body, depth + 1, err, e);
    SilentHandlersShowNothing(hs, depth + 1, Exec(body, depth + 1, err).err, e);
  }

  /**
   The finally block of every try block that is entered runs exactly once, after the body and the catch
   block, whatever they do: its events are the last ones, and an event that only it shows occurs just as
   often as in one run of it. One that is nested too deep does not run at all.
   */
  lemma FinallyRunsOnce(body: Stmt, hs: Handlers, last: Stmt, e: int, depth: nat, err: Option<Type>)
    requires Silent(body, e) && SilentHandlers(hs, e)
    ensures var r := Exec(Try(body, hs, last), depth, err);
            if depth < MAX_FRAMES then
              var end := Exec(last, depth + 1, Caught(body, hs, depth, err).err);
              |end.trace| <= |r.trace| && r.trace[|r.trace| - |end.trace|..] == end.trace &&
              Count(r.trace, e) == Count(end.trace, e)
            else r.trace == []
  {
    if depth < MAX_FRAMES {
      var before := FinallyComesLast(body, hs, last, e, depth, err);
      var end := Exec(last, depth + 1, Caught(body, hs, depth, err).err);
      hide Exec, Handle, Count, Silent, SilentHandlers, Caught;
      CountAdd(before, end.trace, e);
      assert (before + end.trace)[|before|..] == end.trace;
    }
  }

  function Max(a: nat, b: nat): nat {
    if a < b then b else a
  }

  /** How many try blocks lie inside each other. */
  function Nesting(s: Stmt): nat
    decreases s, 1
  {
    match s
    case IfInstance(_, a, b) => Max(Nesting(a), Nesting(b))
    case Seq(a, b) => Max(Nesting(a), Nesting(b))
    case Try(body, hs, last) => 1 + Max(Nesting(body), Max(HandlersNesting(hs), Nesting(last)))
    case _ => 0
  }

  function HandlersNesting(hs: Handlers): nat
    decreases hs, 0
  {
    match hs
    case End => 0
    case Catch(_, block, more) => Max(Nesting(block), HandlersNesting(more))
  }

  lemma SamePlain(s: Stmt, d1: nat, d2: nat, err: Option<Type>)
    requires s.Skip? || s.Act? || s.Throw?
    ensures Exec(s, d1, err) == Exec(s, d2, err)
  {
  }

  lemma ExecIf(s: Stmt, depth: nat, err: Option<Type>)
    requires s.IfInstance?
    ensures Exec(s, depth, err) == Exec(if IsError(err, s.of) then s.yes else s.no, depth, err)
  {
    hide IsInstance;
  }

  lemma SameSeq(s: Stmt, d1: nat, d2: nat, err: Option<Type>)
    requires s.Seq? && Exec(s.first, d1, err) == Exec(s.first, d2, err)
    requires Exec(s.second, d1, Exec(s.first, d1, err).err) == Exec(s.second, d2, Exec(s.first, d1, err).err)
    ensures Exec(s, d1, err) == Exec(s, d2, err)
  {
  }

  /** A try statement means the same at two depths when its parts do. */
  lemma SameTry(s: Stmt, d1: nat, d2: nat, err: Option<Type>, tried: Outcome, caught: Outcome)
    requires s.Try? && d1 < MAX_FRAMES && d2 < MAX_FRAMES
    requires Exec(s.body, d1 + 1, err) == tried == Exec(s.body, d2 + 1, err)
    requires caught == if tried.failed then Then(tried, Handle(s.handlers, d1 + 1, tried.err)) else tried
    requires Handle(s.handlers, d1 + 1, tried.err) == Handle(s.handlers, d2 + 1, tried.err)
    requires Exec(s.last, d1 + 1, caught.err) == Exec(s.last, d2 + 1, caught.err)
    ensures Exec(s, d1, err) == Exec(s, d2, err)
  {
    hide Exec, Handle;
    ExecTry(s, d1, err);
    ExecTry(s, d2, err);
  }

  /** As long as the frames suffice, a statement means the same at every depth. */
  lemma {:induction false} DepthDoesNotMatter(s: Stmt, d1: nat, d2: nat, err: Option<Type>)
    requires d1 + Nesting(s) <= MAX_FRAMES && d2 + Nesting(s) <= MAX_FRAMES
    ensures Exec(s, d1, err) == Exec(s, d2, err)
    decreases s, 1
  {
    hide Exec, Handle;
    match s {
      case IfInstance(t, a, b) =>
        ExecIf(s, d1, err);
        ExecIf(s, d2, err);
        DepthDoesNotMatter(if IsError(err, t) then a else b, d1, d2, err);
      case Seq(a, b) =>
        DepthDoesNotMatter(a, d1, d2, err);
        DepthDoesNotMatter(b, d1, d2, Exec(a, d1, err).err);
        SameSeq(s, d1, d2, err);
      case Try(body, hs, last) =>
        var tried := Exec(body, d1 + 1, err);
        var caught := if tried.failed then Then(tried, Handle(hs, d1 + 1, tried.err)) else tried;
        DepthDoesNotMatter(body, d1 + 1, d2 + 1, err);
        HandlersDepth(hs, d1 + 1, d2 + 1, tried.err);
        DepthDoesNotMatter(last, d1 + 1, d2 + 1, caught.err);
        SameTry(s, d1, d2, err, tried, caught);
      case _ =>
        SamePlain(s, d1, d2, err);
    }
  }

  lemma {:induction false} HandlersDepth(hs: Handlers, d1: nat, d2: nat, err: Option<Type>)
    requires d1 + HandlersNesting(hs) <= MAX_FRAMES && d2 + HandlersNesting(hs) <= MAX_FRAMES
    ensures Handle(hs, d1, err) == Handle(hs, d2, err)
    decreases hs, 0
  {
    if hs.Catch? {
      DepthDoesNotMatter(hs.block, d1, d2, err);
      HandlersDepth(hs.more, d1, d2, err);
    }
  }

  /** Nothing inside throws. */
  predicate Quiet(s: Stmt)
    decreases s, 1
  {
    match s
    case Throw(_) => false
    case IfInstance(_, a, b) => Quiet(a) && Quiet(b)
    case Seq(a, b) => Quiet(a) && Quiet(b)
    case Try(body, _, last) => Quiet(body) && Quiet(last)
    case _ => true
  }

  lemma {:induction false} QuietKeepsError(s: Stmt, depth: nat, err: Option<Type>)
    requires Quiet(s) && depth + Nesting(s) <= MAX_FRAMES
    ensures !Exec(s, depth, err).failed && Exec(s, depth, err).err == err
    decreases s
  {
    match s {
      case IfInstance(t, a, b) => QuietKeepsError(if IsError(err, t) then a else b, depth, err);
      case Seq(a, b) =>
        QuietKeepsError(a, depth, err);
        QuietKeepsError(b, depth, err);
      case Try(body, hs, last) =>
        QuietKeepsError(body, depth + 1, err);
        QuietKeepsError(last, depth + 1, err);
      case _ =>
    }
  }

  /**
   An error that no block catches goes out to the enclosing frame after the finally block. It is the same
   error as long as nothing is thrown in the finally block.
   */
  lemma UncaughtGoesOut(body: Stmt, hs: Handlers, last: Stmt, depth: nat, err: Option<Type>)
    requires depth < MAX_FRAMES && Exec(body, depth + 1, err).failed
    requires FirstMatch(hs, Exec(body, depth + 1, err).err).None?
    ensures Exec(Try(body, hs, last), depth, err).failed
    ensures Quiet(last) && depth + 1 + Nesting(last) <= MAX_FRAMES ==>
              Exec(Try(body, hs, last), depth, err).err == Exec(body, depth + 1, err).err
  {
    HandleIs(hs, depth + 1, Exec(body, depth + 1, err).err);
    if Quiet(last) && depth + 1 + Nesting(last) <= MAX_FRAMES {
      QuietKeepsError(last, depth + 1, Exec(body, depth + 1, err).err);
    }
  }

  /**
   An error thrown and caught within the finally block replaces the one that is on its way: there is one
   cell for both.
   */
  lemma CaughtErrorReplacesPending(a: Type, b: Type)
    requires a != b
    ensures var s := Try(Throw(Some(a)), End, Try(Throw(Some(b)), Catch(b, Skip, End), Skip));
            Exec(s, 0, None) == Outcome(true, Some(b), [])
  {
    var inner := Try(Throw(Some(b)), Catch(b, Skip, End), Skip);
    var blocks := Catch(b, Skip, End);
    assert Handle(blocks, 2, Some(b)) == Exec(Skip, 2, Some(b));
    assert Exec(inner, 1, Some(a)) == Outcome(false, Some(b), []);
    assert Handle(End, 1, Some(a)) == Outcome(true, Some(a), []);
    assert Exec(Throw(Some(a)), 1, None) == Outcome(true, Some(a), []);
  }

  /** A type extends exactly the types above it: the relation is transitive and never leads back. */
  lemma {:induction false} ExtendsOrders(a: Type, b: Type, c: Type)
    ensures Extends(a, b) && Extends(b, c) ==> Extends(a, c)
    ensures Extends(a, b) ==> b < a && a != b
    decreases a
  {
    if a.super.Of? {
      ExtendsOrders(a.super.parent, b, c);
    }
  }
}
