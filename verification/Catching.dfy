/** Which catch block an error runs: the first one whose type is that of the error or a supertype at any distance. */
module Catching {
  import opened Basics
  import opened E4c

  // ---------------------------------------------------------------------------------------------
  // Supertypes
  // ---------------------------------------------------------------------------------------------

  /** The n-th supertype of a type, if there are as many; a type that is its own supertype has no further ones. */
  function Ancestor(t: Type, n: nat): Option<Type>
    decreases n
  {
    if n == 0 then Some(t) else if t.super.Of? then Ancestor(t.super.parent, n - 1) else None
  }

  ghost predicate KindOf(t: Type, of: Type) {
    exists n: nat :: Ancestor(t, n) == Some(of)
  }

  lemma {:induction false} ExtendsReaches(a: Type, b: Type) returns (n: nat)
    requires Extends(a, b)
    ensures n > 0 && Ancestor(a, n) == Some(b)
    decreases a
  {
    if a.super.parent == b {
      n := 1;
      assert Ancestor(b, 0) == Some(b);
    } else {
      var m := ExtendsReaches(a.super.parent, b);
      n := m + 1;
    }
  }

  lemma {:induction false} ReachedExtends(a: Type, b: Type, n: nat)
    requires n > 0 && Ancestor(a, n) == Some(b)
    ensures Extends(a, b)
    decreases n
  {
    if n > 1 {
      ReachedExtends(a.super.parent, b, n - 1);
    } else {
      assert Ancestor(a.super.parent, 0) == Some(a.super.parent);
    }
  }

  /** e4c_extends tells exactly whether some number of steps to the supertype lead from the one type to the other. */
  lemma ExtendsExact(a: Type, b: Type)
    ensures Extends(a, b) <==> exists n: nat :: n > 0 && Ancestor(a, n) == Some(b)
  {
    if Extends(a, b) {
      var n := ExtendsReaches(a, b);
    }
    if n: nat :| n > 0 && Ancestor(a, n) == Some(b) {
      ReachedExtends(a, b, n);
    }
  }

  lemma InstanceExact(t: Type, of: Type)
    ensures IsInstance(t, of) <==> KindOf(t, of)
  {
    if t == of {
      assert Ancestor(t, 0) == Some(of);
    } else if KindOf(t, of) {
      var n: nat :| Ancestor(t, n) == Some(of);
      ReachedExtends(t, of, n);
    } else if Extends(t, of) {
      var n := ExtendsReaches(t, of);
    }
  }

  // ---------------------------------------------------------------------------------------------
  // Catch blocks
  // ---------------------------------------------------------------------------------------------

  function Blocks(hs: Handlers): seq<(Type, Stmt)> {
    match hs
    case End => []
    case Catch(t, block, more) => [(t, block)] + Blocks(more)
  }

  /** The first catch block whose type is that of the error or a supertype of it. */
  ghost predicate Chosen(hs: Handlers, t: Type, i: nat) {
    i < |Blocks(hs)| && KindOf(t, Blocks(hs)[i].0) && forall j :: 0 <= j < i ==> !KindOf(t, Blocks(hs)[j].0)
  }

  ghost predicate NoneFor(hs: Handlers, t: Type) {
    forall j :: 0 <= j < |Blocks(hs)| ==> !KindOf(t, Blocks(hs)[j].0)
  }

  lemma {:induction false} FirstOne(hs: Handlers, t: Type, from: nat) returns (i: nat)
    requires from <= |Blocks(hs)| && (forall j :: 0 <= j < from ==> !KindOf(t, Blocks(hs)[j].0)) && !NoneFor(hs, t)
    ensures Chosen(hs, t, i)
    decreases |Blocks(hs)| - from
  {
    hide KindOf;
    if KindOf(t, Blocks(hs)[from].0) {
      i := from;
    } else {
      i := FirstOne(hs, t, from + 1);
    }
  }

  lemma {:induction false} ChosenOrNone(hs: Handlers, t: Type)
    ensures NoneFor(hs, t) <==> !exists i: nat :: Chosen(hs, t, i)
  {
    hide KindOf;
    if !NoneFor(hs, t) {
      var i := FirstOne(hs, t, 0);
    }
  }

  lemma {:induction false} HandleChosen(hs: Handlers, depth: nat, t: Type, i: nat)
    requires Chosen(hs, t, i)
    ensures Handle(hs, depth, Some(t)) == Exec(Blocks(hs)[i].1, depth, Some(t))
    decreases hs
  {
    hide KindOf, IsInstance, Exec;
    InstanceExact(t, hs.of);
    if i > 0 {
      assert !KindOf(t, Blocks(hs)[0].0);
      forall j | 0 <= j < i - 1 ensures !KindOf(t, Blocks(hs.more)[j].0) {
        assert Blocks(hs)[j + 1] == Blocks(hs.more)[j];
      }
      HandleChosen(hs.more, depth, t, i - 1);
    }
  }

  lemma {:induction false} HandleNone(hs: Handlers, depth: nat, t: Type)
    requires NoneFor(hs, t)
    ensures Handle(hs, depth, Some(t)) == Outcome(true, Some(t), [])
    decreases hs
  {
    hide KindOf, IsInstance, Exec;
    if hs.Catch? {
      InstanceExact(t, hs.of);
      assert !KindOf(t, Blocks(hs)[0].0);
      forall j | 0 <= j < |Blocks(hs.more)| ensures !KindOf(t, Blocks(hs.more)[j].0) {
        assert Blocks(hs)[j + 1] == Blocks(hs.more)[j];
      }
      HandleNone(hs.more, depth, t);
    }
  }

  lemma {:induction false} HandleHasError(hs: Handlers, depth: nat, err: Option<Type>)
    requires err.Some?
    ensures Handle(hs, depth, err).err.Some?
    decreases hs, 0
  {
    hide Exec;
    if hs.Catch? {
      KeepsError(hs.block, depth, err);
      HandleHasError(hs.more, depth, err);
    }
  }

  /** The cell is never emptied. */
  lemma {:induction false} KeepsError(s: Stmt, depth: nat, err: Option<Type>)
    ensures err.Some? ==> Exec(s, depth, err).err.Some?
    decreases s, 1
  {
    match s {
      case IfInstance(t, a, b) =>
        KeepsError(a, depth, err);
        KeepsError(b, depth, err);
      case Seq(a, b) =>
        KeepsError(a, depth, err);
        KeepsError(b, depth, Exec(a, depth, err).err);
      case Try(body, hs, last) =>
        if depth < MAX_FRAMES && err.Some? {
          var tried := Exec(body, depth + 1, err);
          var caught := if tried.failed then Then(tried, Handle(hs, depth + 1, tried.err)) else tried;
          ExecTry(s, depth, err);
          hide Exec, Handle;
          KeepsError(body, depth + 1, err);
          HandleHasError(hs, depth + 1, tried.err);
          KeepsError(last, depth + 1, caught.err);
        }
      case _ =>
    }
  }

  /** What fails has left its error in the cell. */
  lemma {:induction false} FailedHasError(s: Stmt, depth: nat, err: Option<Type>)
    requires Exec(s, depth, err).failed
    ensures Exec(s, depth, err).err.Some?
    decreases s, 1
  {
    match s {
      case IfInstance(t, a, b) =>
        FailedHasError(if IsError(err, t) then a else b, depth, err);
      case Seq(a, b) =>
        FailedHasError(if Exec(a, depth, err).failed then a else b, depth,
                       if Exec(a, depth, err).failed then err else Exec(a, depth, err).err);
      case Try(_, _, _) =>
        if depth < MAX_FRAMES {
          TryFailed(s, depth, err);
        }
      case _ =>
    }
  }

  lemma {:induction false} TryFailed(s: Stmt, depth: nat, err: Option<Type>)
    requires s.Try? && depth < MAX_FRAMES && Exec(s, depth, err).failed
    ensures Exec(s, depth, err).err.Some?
    decreases s, 0
  {
    var tried := Exec(s.body, depth + 1, err);
    var caught := if tried.failed then Then(tried, Handle(s.handlers, depth + 1, tried.err)) else tried;
    ExecTry(s, depth, err);
    hide Exec, Handle;
    if tried.failed {
      FailedHasError(s.body, depth + 1, err);
      HandleHasError(s.handlers, depth + 1, tried.err);
    }
    KeepsError(s.last, depth + 1, caught.err);
    if Exec(s.last, depth + 1, caught.err).failed {
      FailedHasError(s.last, depth + 1, caught.err);
    }
  }

  // ---------------------------------------------------------------------------------------------
  // Try statements
  // ---------------------------------------------------------------------------------------------

  /** A try statement whose blocks end like `tried`, `caught` and `end`, the second only when the first has failed. */
  function Together(tried: Outcome, caught: Outcome, end: Outcome): Outcome {
    Outcome(caught.failed || end.failed, end.err, tried.trace + caught.trace + end.trace)
  }

  /** The outcome `r` of a try statement is that of its blocks, of which the error chooses the middle one. */
  ghost predicate RunsBlocks(t: Stmt, depth: nat, err: Option<Type>, r: Outcome)
    requires t.Try?
  {
    var tried := Exec(t.body, depth + 1, err);
    if !tried.failed then
      var end := Exec(t.last, depth + 1, tried.err);
      r == Together(tried, Outcome(false, tried.err, []), end)
    else
      tried.err.Some? &&
      var e := tried.err.value;
      (forall i: nat :: Chosen(t.handlers, e, i) ==>
        var caught := Exec(Blocks(t.handlers)[i].1, depth + 1, tried.err);
        r == Together(tried, caught, Exec(t.last, depth + 1, caught.err))) &&
      (NoneFor(t.handlers, e) ==>
        r == Together(tried, Outcome(true, tried.err, []), Exec(t.last, depth + 1, tried.err)))
  }

  /**
   A try statement whose body fails runs the first catch block whose type is that of the error or a supertype
   of it, and none if and only if there is no such block; the finally block runs in any case.
   */
  lemma TryExact(t: Stmt, depth: nat, err: Option<Type>)
    requires t.Try? && depth < MAX_FRAMES
    ensures RunsBlocks(t, depth, err, Exec(t, depth, err))
  {
    var tried := Exec(t.body, depth + 1, err);
    ExecTry(t, depth, err);
    if tried.failed {
      FailedHasError(t.body, depth + 1, err);
      var e := tried.err.value;
      hide Exec, Handle, Chosen, NoneFor;
      forall i: nat | Chosen(t.handlers, e, i)
        ensures Exec(Blocks(t.handlers)[i].1, depth + 1, tried.err) == Handle(t.handlers, depth + 1, tried.err)
      {
        HandleChosen(t.handlers, depth + 1, e, i);
      }
      if NoneFor(t.handlers, e) {
        HandleNone(t.handlers, depth + 1, e);
      }
    }
  }

  /** The machine of frames and jumps does so: behind the try statement it stands where that outcome says. */
  lemma TryStepsExact(t: Stmt, k: Rest, m: Machine) returns (n: nat, e: Machine, r: Outcome)
    requires Ready(m) && m.rest == Do(t, k) && t.Try? && m.c.frames < MAX_FRAMES
    ensures RunsBlocks(t, m.c.frames, m.c.err, r)
    ensures Ends(m, e, r) && Steps(m, n) == Arrived(e, r.failed, k)
  {
    hide *;
    r := Exec(t, m.c.frames, m.c.err);
    TryExact(t, m.c.frames, m.c.err);
    n, e := ExecRuns(t, k, m);
  }

  /** The test for the type of the error decides the same. */
  lemma IfExact(t: Type, yes: Stmt, no: Stmt, depth: nat, e: Type)
    ensures Exec(IfInstance(t, yes, no), depth, Some(e)) == Exec(if KindOf(e, t) then yes else no, depth, Some(e))
  {
    InstanceExact(e, t);
    hide IsInstance, KindOf;
  }

  /** A catch block for the run-time exception catches a null pointer. */
  lemma NullPointerIsCaught()
    ensures Exec(Try(Throw(None), Catch(RUNTIME_EXCEPTION, Act(1), End), Skip), 0, None) ==
            Outcome(false, Some(NULL_POINTER_EXCEPTION), [1])
  {
    var t := Try(Throw(None), Catch(RUNTIME_EXCEPTION, Act(1), End), Skip);
    assert Ancestor(RUNTIME_EXCEPTION, 0) == Some(RUNTIME_EXCEPTION);
    assert Ancestor(NULL_POINTER_EXCEPTION, 1) == Some(RUNTIME_EXCEPTION);
    assert Blocks(t.handlers) == [(RUNTIME_EXCEPTION, Act(1))];
    assert Chosen(t.handlers, NULL_POINTER_EXCEPTION, 0);
    TryExact(t, 0, None);
    assert Exec(Throw(None), 1, None) == Outcome(true, Some(NULL_POINTER_EXCEPTION), []);
    assert Exec(Act(1), 1, Some(NULL_POINTER_EXCEPTION)) == Outcome(false, Some(NULL_POINTER_EXCEPTION), [1]);
    assert Exec(Skip, 1, Some(NULL_POINTER_EXCEPTION)) == Outcome(false, Some(NULL_POINTER_EXCEPTION), []);
  }

  /** With all frames in use a try statement throws the run-time exception, and none of its blocks runs. */
  lemma TooManyFrames(t: Stmt, err: Option<Type>)
    requires t.Try?
    ensures Exec(t, 16, err) == Outcome(true, Some(RUNTIME_EXCEPTION), [])
  {
  }
}
