/**
 The span tree of api/metrics.py: spans nest like a stack, each keeps a running count of
 the spans started below it, and a bounded breadth-first selection is reported.
 */
module SpanMetrics {
  import opened Common

  datatype Error = Error(message: string)

  class Span {
    const name: string
    const startTime: real
    const parent: Span?
    const spanDepth: nat
    var executionTime: Option<real>
    var error: Option<Error>
    var spanCountInSubtree: nat
    var children: set<Span>
    ghost const ancestors: seq<Span>  // from the root down to the parent

    /** The chain of parents is recorded truthfully; it never changes. */
    ghost predicate Rooted()
      decreases |ancestors|
    {
      if parent == null then ancestors == [] && spanDepth == 1
      else ancestors == parent.ancestors + [parent] && spanDepth == parent.spanDepth + 1 && parent.Rooted()
    }

    constructor (name: string, startTime: real, parent: Span?)
      requires parent != null ==> parent.Rooted()
      modifies ChainUpTo(parent)`spanCountInSubtree, Single(parent)`children
      ensures this.name == name && this.startTime == startTime && this.parent == parent
      ensures Rooted()
      ensures executionTime == None && error == None && spanCountInSubtree == 1 && children == {}
      ensures forall a: Span :: a in ancestors ==> a.spanCountInSubtree == old(a.spanCountInSubtree) + 1
      ensures parent != null ==> parent.children == old(parent.children) + {this}
    {
      this.name := name;
      this.startTime := startTime;
      this.parent := parent;
      this.spanDepth := if parent == null then 1 else parent.spanDepth + 1;
      this.ancestors := if parent == null then [] else parent.ancestors + [parent];
      executionTime := None;
      error := None;
      spanCountInSubtree := 1;
      children := {};
      new;
      if parent != null {
        parent.AddChild(this);
      }
    }

    method IncrementSubtreeNodeCount()
      requires Rooted()
      modifies ChainUpTo(this)`spanCountInSubtree
      ensures forall a: Span :: a == this || a in ancestors ==> a.spanCountInSubtree == old(a.spanCountInSubtree) + 1
      decreases |ancestors|
    {
      ChainOrder(this);
      spanCountInSubtree := spanCountInSubtree + 1;
      if parent != null {
        parent.IncrementSubtreeNodeCount();
      }
    }

    method AddChild(child: Span)
      requires Rooted() && child != this && child !in ancestors
      modifies ChainUpTo(this)`spanCountInSubtree, this`children
      ensures forall a: Span :: a in ChainUpTo(this) ==> a.spanCountInSubtree == old(a.spanCountInSubtree) + 1
      ensures children == old(children) + {child}
    {
      ChainOrder(this);
      children := children + {child};
      IncrementSubtreeNodeCount();
    }

    /** Records the execution time, and the error if any; later calls do nothing. */
    method Finish(err: Option<Error>, elapsed: real)
      modifies this`executionTime, this`error
      ensures executionTime == if old(executionTime).Some? then old(executionTime) else Some(elapsed)
      ensures error == if old(executionTime).Some? || err == None then old(error) else err
    {
      if executionTime.Some? {
        return;
      }
      if err.Some? {
        error := err;
      }
      executionTime := Some(elapsed);
    }
  }

  /** A span and its ancestors; nothing for no span. */
  ghost function ChainUpTo(s: Span?): set<Span> {
    if s == null then {} else (set a | a in s.ancestors) + {s}
  }

  ghost function Single(s: Span?): set<Span> {
    if s == null then {} else {s}
  }

  /** Depth tells the members of a parent chain apart, and each member's own chain is
      the part of the chain above it. */
  lemma {:induction false} ChainOrder(s: Span)
    requires s.Rooted()
    ensures s.spanDepth == |s.ancestors| + 1
    ensures forall i :: 0 <= i < |s.ancestors| ==>
      && s.ancestors[i].Rooted() && s.ancestors[i].ancestors == s.ancestors[..i]
      && s.ancestors[i].spanDepth == i + 1
    ensures s !in s.ancestors
    decreases |s.ancestors|
  {
    if s.parent != null {
      ChainOrder(s.parent);
      var n := |s.ancestors| - 1;
      forall i | 0 <= i < |s.ancestors|
        ensures s.ancestors[i].Rooted() && s.ancestors[i].ancestors == s.ancestors[..i]
                && s.ancestors[i].spanDepth == i + 1
      {
        if i < n { assert s.ancestors[i] == s.parent.ancestors[i]; assert s.parent.ancestors[..i] == s.ancestors[..i]; }
        else { assert s.ancestors[..n] == s.parent.ancestors; }
      }
    }
  }

  lemma ElementsAppend<T>(xs: seq<T>, x: T)
    ensures Elements(xs + [x]) == Elements(xs) + {x}
  {
  }

  /** The spans form one chain of parents. */
  ghost predicate Chain(spans: seq<Span>) {
    forall i :: 0 <= i < |spans| ==> spans[i].ancestors == spans[..i]
  }

  /** Every started span is in progress or completed, once, and not both. */
  ghost predicate Partition(inProgress: seq<Span>, completed: seq<Span>, started: set<Span>) {
    && Elements(inProgress) + Elements(completed) == started
    && Elements(inProgress) !! Elements(completed)
    && Distinct(completed)
  }

  lemma ChainAppend(spans: seq<Span>, s: Span)
    requires Chain(spans) && s.ancestors == spans
    ensures Chain(spans + [s])
  {
    forall i | 0 <= i <= |spans|
      ensures (spans + [s])[i].ancestors == (spans + [s])[..i]
    {
      assert (spans + [s])[..i] == spans[..i];
    }
  }

  /** The current span and its ancestors are the spans in progress. */
  lemma CurrentChain(inProgress: seq<Span>, completed: seq<Span>, started: set<Span>)
    requires Chain(inProgress) && Partition(inProgress, completed, started)
    requires inProgress != []
    ensures var p := inProgress[|inProgress| - 1];
            p in started && inProgress == p.ancestors + [p] && ChainUpTo(p) == Elements(inProgress) <= started
  {
    var p := inProgress[|inProgress| - 1];
    ElementsAppend(p.ancestors, p);
    assert p in Elements(inProgress);
  }

  lemma PartitionEnter(inProgress: seq<Span>, completed: seq<Span>, started: set<Span>, s: Span)
    requires Partition(inProgress, completed, started) && s !in started
    ensures Partition(inProgress + [s], completed, started + {s})
  {
    ElementsAppend(inProgress, s);
  }

  /** The spans started at or under `s`. */
  ghost function Subtree(started: set<Span>, s: Span): set<Span> {
    set t | t in started && (t == s || s in t.ancestors)
  }

  ghost function ChildrenOf(started: set<Span>, s: Span): set<Span> {
    set c | c in started && c.parent == s
  }

  /** A span's parents, children and count tell the truth about the started spans. */
  ghost predicate Counted(s: Span, started: set<Span>, children: set<Span>, count: nat) {
    && s.Rooted() && Elements(s.ancestors) <= started
    && children == ChildrenOf(started, s)
    && count == |Subtree(started, s)|
  }

  lemma CountedGrown(started: set<Span>, s: Span, t: Span, children: set<Span>, count: nat)
    requires s !in started && t in started && Counted(t, started, children, count)
    ensures Counted(t, started + {s}, if s.parent == t then children + {s} else children,
                    if t in s.ancestors then count + 1 else count)
  {
    ChildrenGrown(started, s, t);
    SubtreeGrown(started, s, t);
  }

  lemma ChildrenGrown(started: set<Span>, s: Span, t: Span)
    ensures ChildrenOf(started + {s}, t) == ChildrenOf(started, t) + (if s.parent == t then {s} else {})
  {
  }

  lemma SubtreeGrown(started: set<Span>, s: Span, t: Span)
    requires s !in started && t in started
    ensures |Subtree(started + {s}, t)| == |Subtree(started, t)| + (if t in s.ancestors then 1 else 0)
  {
    assert Subtree(started + {s}, t) == Subtree(started, t) + (if t in s.ancestors then {s} else {});
  }

  lemma CountedNew(started: set<Span>, s: Span)
    requires s !in started && s.Rooted() && Elements(s.ancestors) <= started
    requires forall t :: t in started ==> t.Rooted() && Elements(t.ancestors) <= started
    ensures Counted(s, started + {s}, {}, 1)
  {
    forall t | t in started
      ensures t.parent != s && s !in t.ancestors
    {
      assert t.parent != null ==> t.parent in Elements(t.ancestors);
    }
    assert s.parent != s by { ChainOrder(s); }
    assert ChildrenOf(started + {s}, s) == {};
    assert Subtree(started + {s}, s) == {s} by { ChainOrder(s); }
  }

  class CLIMetrics {
    var inProgress: seq<Span>
    var completed: seq<Span>
    ghost var started: set<Span>

    ghost predicate Valid()
      reads this, started
    {
      && Chain(inProgress)
      && Partition(inProgress, completed, started)
      && (forall s :: s in started ==> Counted(s, started, s.children, s.spanCountInSubtree))
      && (forall s :: s in started && s in completed ==> s.executionTime.Some?)
      && (forall s :: s in started && s.executionTime.None? ==> s.error.None?)
    }

    /** What the spans in progress show, and what the completed ones report. */
    ghost predicate Tells(open: seq<OpenSpan>, done: seq<DoneSpan>)
      reads this, inProgress, completed
    {
      Shows(inProgress, open) && Reports(completed, done)
    }

    constructor ()
      ensures Valid() && started == {} && inProgress == [] && completed == []
    {
      inProgress, completed, started := [], [], {};
    }

    function CurrentSpan(): Span?
      reads this
    {
      if inProgress == [] then null else inProgress[|inProgress| - 1]
    }

    /** Counts and children stay true when a span joins its parents' subtrees. */
    twostate lemma CountsGrown(new s: Span)
      requires old(Valid()) && s !in old(started) && started == old(started) + {s}
      requires s.Rooted() && s.ancestors == old(inProgress) && s.children == {} && s.spanCountInSubtree == 1
      requires forall t :: t in old(started) ==>
        && t.spanCountInSubtree == old(t.spanCountInSubtree) + (if t in s.ancestors then 1 else 0)
        && t.children == old(t.children) + (if t == s.parent then {s} else {})
      ensures forall t :: t in started ==> Counted(t, started, t.children, t.spanCountInSubtree)
    {
      forall t | t in old(started)
        ensures Counted(t, started, t.children, t.spanCountInSubtree)
      {
        CountedGrown(old(started), s, t, old(t.children), old(t.spanCountInSubtree));
      }
      assert Elements(s.ancestors) <= old(started);
      CountedNew(old(started), s);
    }

    /** A new span below the current one, counted by all its ancestors. */
    method NewSpan(name: string, now: real) returns (s: Span)
      requires Valid()
      modifies started`spanCountInSubtree, started`children
      ensures fresh(s) && s.name == name && s.startTime == now && s.executionTime == None && s.error == None
      ensures s.Rooted() && s.ancestors == inProgress && s.children == {} && s.spanCountInSubtree == 1
      ensures forall t :: t in started ==>
        && t.spanCountInSubtree == old(t.spanCountInSubtree) + (if t in s.ancestors then 1 else 0)
        && t.children == old(t.children) + (if t == s.parent then {s} else {})
    {
      var p := CurrentSpan();
      if inProgress != [] { CurrentChain(inProgress, completed, started); }
      assert ChainUpTo(p) <= started && Single(p) <= started;
      s := new Span(name, now, p);
    }

    /** The new span becomes the current one. */
    method Push(name: string, now: real) returns (s: Span)
      requires Valid()
      modifies `inProgress, `started, started`spanCountInSubtree, started`children
      ensures Valid() && fresh(s) && started == old(started) + {s} && inProgress == old(inProgress) + [s]
      ensures s.name == name && s.startTime == now && s.executionTime == None && s.error == None
    {
      s := NewSpan(name, now);
      inProgress := inProgress + [s];
      started := started + {s};
      CountsGrown(s);
      ChainAppend(old(inProgress), s);
      PartitionEnter(old(inProgress), completed, old(started), s);
    }

    /** Starting a span; an empty name is refused and changes nothing. */
    method Enter(name: string, now: real, ghost open: seq<OpenSpan>, ghost done: seq<DoneSpan>)
      returns (r: Option<Span>)
      requires Valid() && Tells(open, done)
      modifies `inProgress, `started, started`spanCountInSubtree, started`children
      ensures Valid() && r.None? == (name == "")
      ensures r.None? ==> started == old(started) && inProgress == old(inProgress)
      ensures r.Some? ==> fresh(r.value) && started == old(started) + {r.value}
                          && inProgress == old(inProgress) + [r.value]
                          && r.value.name == name && r.value.startTime == now && r.value.executionTime == None
      ensures Tells(if name == "" then open else open + [OpenSpan(name, None)], done)
    {
      if name == "" {
        return None;
      }
      var s := Push(name, now);
      assert Shows(old(inProgress), open) && Reports(completed, done);
      assert Shows(old(inProgress) + [s], open + [OpenSpan(name, None)]);
      return Some(s);
    }

    /** Finishing a span that is still open. */
    method FinishEarly(s: Span, err: Option<Error>, elapsed: real)
      requires Valid() && s in started
      modifies s`executionTime, s`error
      ensures Valid()
      ensures s.executionTime == if old(s.executionTime).Some? then old(s.executionTime) else Some(elapsed)
      ensures s.error == if old(s.executionTime).Some? || err == None then old(s.error) else err
    {
      s.Finish(err, elapsed);
    }

    /** Finishing the k-th open span: it shows what it has recorded, nothing else changes. */
    method FinishOpen(s: Span, err: Option<Error>, elapsed: real,
                      ghost k: nat, ghost open: seq<OpenSpan>, ghost done: seq<DoneSpan>)
      requires Valid() && k < |inProgress| && s == inProgress[k] && Tells(open, done)
      modifies s`executionTime, s`error
      ensures Valid() && Tells(open[k := open[k].Finish(err)], done)
      ensures s.executionTime == if old(s.executionTime).Some? then old(s.executionTime) else Some(elapsed)
      ensures s.error == if old(s.executionTime).Some? || err == None then old(s.error) else err
    {
      assert s in Elements(inProgress);
      assert forall x :: x in completed ==> x in Elements(completed);
      FinishEarly(s, err, elapsed);
      ChainDistinct(inProgress);
    }

    /** list.remove: drops the first occurrence. */
    method RemoveInProgress(s: Span)
      requires s in inProgress
      modifies `inProgress
      ensures exists i :: 0 <= i < |old(inProgress)| && old(inProgress)[i] == s
                && inProgress == old(inProgress)[..i] + old(inProgress)[i + 1..]
    {
      var i := 0;
      while inProgress[i] != s
        invariant 0 <= i < |inProgress| && inProgress == old(inProgress)
        invariant s in inProgress[i..]
        decreases |inProgress| - i
      {
        i := i + 1;
      }
      inProgress := inProgress[..i] + inProgress[i + 1..];
    }

    /** A finished innermost span moves from the spans in progress to the completed ones. */
    method Complete(s: Span)
      requires Valid() && inProgress != [] && s == inProgress[|inProgress| - 1] && s.executionTime.Some?
      modifies `inProgress, `completed
      ensures Valid()
      ensures inProgress == old(inProgress)[..|old(inProgress)| - 1] && completed == old(completed) + [s]
    {
      completed := completed + [s];
      RemoveInProgress(s);
      LastRemoved(old(inProgress), inProgress, s);
      PartitionLeave(old(inProgress), old(completed), started, s);
    }

    /** Leaving the innermost span: it is finished if it was not already, and completed. */
    method Leave(s: Span, err: Option<Error>, elapsed: real, ghost t: Trace)
      requires Valid() && inProgress != [] && s == inProgress[|inProgress| - 1]
      requires Tells(t.open, t.done) && t.raised == err
      modifies `inProgress, `completed, s`executionTime, s`error
      ensures Valid()
      ensures inProgress == old(inProgress)[..|old(inProgress)| - 1] && completed == old(completed) + [s]
      ensures s.executionTime == if old(s.executionTime).Some? then old(s.executionTime) else Some(elapsed)
      ensures s.error == if old(s.executionTime).Some? || err == None then old(s.error) else err
      ensures Tells(t.Left().open, t.Left().done)
    {
      FinishOpen(s, err, elapsed, |inProgress| - 1, t.open, t.done);
      LeftShown(inProgress, completed, t);
      Complete(s);
    }

    /** What a finished span has recorded stays. */
    twostate predicate RecordsKept(spans: set<Span>)
      reads spans
    {
      forall s :: s in spans && old(s.executionTime).Some? ==>
        s.executionTime == old(s.executionTime) && s.error == old(s.error)
    }

    /** Runs a block of nested spans. Whatever is raised inside, every span opened here
        is completed, in nesting order, and no recorded time is overwritten. What is raised,
        what the open spans show and what the completed ones report is what the program says. */
    method Run(steps: seq<Step>, ghost open: seq<OpenSpan>, ghost done: seq<DoneSpan>) returns (raised: Option<Error>)
      requires Valid() && Tells(open, done)
      modifies this, started
      ensures Valid() && inProgress == old(inProgress)
      ensures old(started) <= started && fresh(started - old(started)) && old(completed) <= completed
      ensures Elements(completed) == old(Elements(completed)) + (started - old(started))
      ensures RecordsKept(old(started))
      ensures raised == RunOf(steps, open).raised
      ensures Tells(RunOf(steps, open).open, done + RunOf(steps, open).done)
      decreases steps, 0
    {
      if steps == [] {
        assert done + [] == done;
        return None;
      }
      ghost var t := StepOf(steps[0], open);
      FirstThenRest(steps, open, done);
      raised := RunStep(steps[0], open, done);
      if raised.None? {
        raised := Run(steps[1..], t.open, done + t.done);
      }
    }

    method RunStep(step: Step, ghost open: seq<OpenSpan>, ghost done: seq<DoneSpan>) returns (raised: Option<Error>)
      requires Valid() && Tells(open, done)
      modifies this, started
      ensures Valid() && inProgress == old(inProgress)
      ensures old(started) <= started && fresh(started - old(started)) && old(completed) <= completed
      ensures Elements(completed) == old(Elements(completed)) + (started - old(started))
      ensures RecordsKept(old(started))
      ensures raised == StepOf(step, open).raised
      ensures Tells(StepOf(step, open).open, done + StepOf(step, open).done)
      decreases step
    {
      var now: real := *;
      assert done + [] == done;
      match step
      case Raise(e) =>
        return Some(e);
      case FinishSpan(k, err) =>
        if k < |inProgress| {
          FinishOpen(inProgress[k], err, now, k, open, done);
        }
        return None;
      case Try(body) =>
        var caught := Run(body, open, done);
        return None;
      case With(name, body) =>
        raised := RunSpan(name, body, open, done);
    }

    /** with metrics.span(name): body */
    method RunSpan(name: string, body: seq<Step>, ghost open: seq<OpenSpan>, ghost done: seq<DoneSpan>)
      returns (raised: Option<Error>)
      requires Valid() && Tells(open, done)
      modifies this, started
      ensures Valid() && inProgress == old(inProgress)
      ensures old(started) <= started && fresh(started - old(started)) && old(completed) <= completed
      ensures Elements(completed) == old(Elements(completed)) + (started - old(started))
      ensures RecordsKept(old(started))
      ensures raised == StepOf(With(name, body), open).raised
      ensures Tells(StepOf(With(name, body), open).open, done + StepOf(With(name, body), open).done)
      decreases body, 2
    {
      var now: real := *;
      assert done + [] == done;
      var span := Enter(name, now, open, done);
      if span.None? {
        return Some(EMPTY_NAME);
      }
      assert span.value !in old(started) && RecordsKept(old(started));
      assert inProgress[..|inProgress| - 1] == old(inProgress);
      ghost var entered := started;
      raised := RunInside(span.value, body, open + [OpenSpan(name, None)], done);
      assert fresh(started - entered);
      assert forall x :: x in started - old(started) ==> x == span.value || x in started - entered;
      assert fresh(started - old(started));
      OneSpanMore(old(completed), completed, old(started), entered, started, span.value);
    }

    /** The body of an entered span, and leaving the span whichever way the body ends. */
    method RunInside(s: Span, body: seq<Step>, ghost open: seq<OpenSpan>, ghost done: seq<DoneSpan>)
      returns (raised: Option<Error>)
      requires Valid() && inProgress != [] && s == inProgress[|inProgress| - 1] && Tells(open, done)
      modifies this, started
      ensures Valid() && inProgress == old(inProgress)[..|old(inProgress)| - 1]
      ensures old(started) <= started && fresh(started - old(started)) && old(completed) <= completed
      ensures Elements(completed) == old(Elements(completed)) + (started - old(started)) + {s}
      ensures RecordsKept(old(started))
      ensures raised == RunOf(body, open).raised
      ensures var t := RunOf(body, open).Left(); Tells(t.open, done + t.done)
      decreases body, 1
    {
      ghost var t := RunOf(body, open);
      LeftAfter(t, done);
      raised := Run(body, open, done);
      var end: real := *;
      ghost var inner := completed;
      label Ran:
      Leave(s, raised, end, t.After(done));
      assert RecordsKept@Ran(old(started));
      ElementsAppend(inner, s);
    }
  }

  /** A program over `with metrics.span(...)`: a span around a body, an early call of
      finish on the k-th open span, an exception, or a block whose exceptions are caught. */
  datatype Step =
    | With(name: string, body: seq<Step>)
    | FinishSpan(k: nat, err: Option<Error>)
    | Raise(error: Error)
    | Try(body: seq<Step>)

  const EMPTY_NAME := Error("span name must not be empty")

  /** A span in progress: its name and, once it has been finished, the error it recorded. */
  datatype OpenSpan = OpenSpan(name: string, finished: Option<Option<Error>>) {
    function Finish(err: Option<Error>): OpenSpan {
      if finished.Some? then this else OpenSpan(name, Some(err))
    }
  }

  /** A completed span: the names from the root down to it, and the error it recorded. */
  datatype DoneSpan = DoneSpan(path: seq<string>, error: Option<Error>)

  /** What a program does: to the spans open around it, the spans it completes, in order,
      and what it raises. */
  datatype Trace = Trace(open: seq<OpenSpan>, done: seq<DoneSpan>, raised: Option<Error>) {
    function After(before: seq<DoneSpan>): Trace {
      this.(done := before + done)
    }

    /** The innermost open span is left with what was raised in it. */
    ghost function Left(): Trace
      requires open != []
    {
      var n := |open| - 1;
      Trace(open[..n], done + [DoneSpan(Names(open), open[n].Finish(raised).finished.value)], raised)
    }
  }

  ghost function Names(open: seq<OpenSpan>): seq<string> {
    seq(|open|, i requires 0 <= i < |open| => open[i].name)
  }

  ghost function RunOf(steps: seq<Step>, open: seq<OpenSpan>): (t: Trace)
    ensures |t.open| == |open|
    ensures forall i :: 0 <= i < |open| ==>
              t.open[i].name == open[i].name && (open[i].finished.Some? ==> t.open[i] == open[i])
    decreases steps, 0
  {
    if steps == [] then Trace(open, [], None)
    else
      var t := StepOf(steps[0], open);
      if t.raised.Some? then t else RunOf(steps[1..], t.open).After(t.done)
  }

  ghost function StepOf(step: Step, open: seq<OpenSpan>): (t: Trace)
    ensures |t.open| == |open|
    ensures forall i :: 0 <= i < |open| ==>
              t.open[i].name == open[i].name && (open[i].finished.Some? ==> t.open[i] == open[i])
    decreases step
  {
    match step
    case Raise(e) => Trace(open, [], Some(e))
    case FinishSpan(k, err) => Trace(if k < |open| then open[k := open[k].Finish(err)] else open, [], None)
    case Try(body) => RunOf(body, open).(raised := None)
    case With(name, body) =>
      if name == "" then Trace(open, [], Some(EMPTY_NAME))
      else RunOf(body, open + [OpenSpan(name, None)]).Left()
  }

  lemma FirstThenRest(steps: seq<Step>, open: seq<OpenSpan>, done: seq<DoneSpan>)
    requires steps != []
    ensures var t := StepOf(steps[0], open);
            var rest := RunOf(steps[1..], t.open);
            if t.raised.Some? then RunOf(steps, open) == t
            else RunOf(steps, open).open == rest.open && RunOf(steps, open).raised == rest.raised
                 && done + RunOf(steps, open).done == done + t.done + rest.done
  {
  }

  lemma LeftAfter(t: Trace, done: seq<DoneSpan>)
    requires t.open != []
    ensures t.After(done).Left() == t.Left().After(done)
  {
    assert t.After(done).Left().done == done + t.Left().done;
  }

  ghost function PathOf(s: Span): seq<string> {
    seq(|s.ancestors|, i requires 0 <= i < |s.ancestors| => s.ancestors[i].name) + [s.name]
  }

  ghost predicate Shows(spans: seq<Span>, open: seq<OpenSpan>)
    reads spans
  {
    && |spans| == |open|
    && forall i :: 0 <= i < |spans| ==>
         open[i] == OpenSpan(spans[i].name, if spans[i].executionTime.None? then None else Some(spans[i].error))
  }

  ghost predicate Reports(spans: seq<Span>, done: seq<DoneSpan>)
    reads spans
  {
    |spans| == |done| && forall i :: 0 <= i < |spans| ==> done[i] == DoneSpan(PathOf(spans[i]), spans[i].error)
  }

  lemma ChainDistinct(spans: seq<Span>)
    requires Chain(spans)
    ensures forall i, j :: 0 <= i < j < |spans| ==> spans[i] != spans[j]
  {
    assert forall i :: 0 <= i < |spans| ==> |spans[i].ancestors| == i;
  }

  lemma LeftShown(during: seq<Span>, completed: seq<Span>, t: Trace)
    requires Chain(during) && t.open != [] && Reports(completed, t.done)
    requires Shows(during, t.open[|t.open| - 1 := t.open[|t.open| - 1].Finish(t.raised)])
    ensures var n := |during| - 1;
            Shows(during[..n], t.Left().open) && Reports(completed + [during[n]], t.Left().done)
  {
    var n := |during| - 1;
    assert PathOf(during[n]) == Names(t.open) by {
      assert during[n].ancestors == during[..n];
      assert forall i :: 0 <= i < n ==> t.open[i].name == during[i].name;
    }
  }

  lemma OneSpanMore(c0: seq<Span>, c1: seq<Span>, s0: set<Span>, entered: set<Span>, s1: set<Span>, s: Span)
    requires s !in s0 && entered == s0 + {s} && entered <= s1
    requires Elements(c1) == Elements(c0) + (s1 - entered) + {s}
    ensures Elements(c1) == Elements(c0) + (s1 - s0)
  {
  }

  lemma LastRemoved(before: seq<Span>, after: seq<Span>, s: Span)
    requires Chain(before) && before != [] && s == before[|before| - 1]
    requires exists i :: 0 <= i < |before| && before[i] == s && after == before[..i] + before[i + 1..]
    ensures after == before[..|before| - 1] && Chain(after)
  {
    var i :| 0 <= i < |before| && before[i] == s && after == before[..i] + before[i + 1..];
    var n := |before| - 1;
    assert before[i].ancestors == before[..i] && before[n].ancestors == before[..n];
    assert |before[..i]| == i && |before[..n]| == n;
    forall j | 0 <= j < n
      ensures before[..n][j].ancestors == before[..n][..j]
    {
      assert before[..n][..j] == before[..j];
    }
  }

  lemma PartitionLeave(inProgress: seq<Span>, completed: seq<Span>, started: set<Span>, s: Span)
    requires Chain(inProgress) && Partition(inProgress, completed, started)
    requires inProgress != [] && s == inProgress[|inProgress| - 1]
    ensures Partition(inProgress[..|inProgress| - 1], completed + [s], started)
    ensures s in started
  {
    var n := |inProgress| - 1;
    var rest := inProgress[..n];
    assert inProgress == rest + [s];
    ElementsAppend(rest, s);
    ElementsAppend(completed, s);
    assert s !in rest by {
      forall i | 0 <= i < n
        ensures inProgress[i] != s
      {
        assert |inProgress[i].ancestors| == i;
      }
    }
    assert s in Elements(inProgress);
    assert Distinct(completed + [s]) by {
      assert forall i :: 0 <= i < |completed| ==> completed[i] in Elements(completed);
    }
  }

  /** The children of a completed span are completed. */
  lemma ChildrenOfCompleted(m: CLIMetrics, s: Span)
    requires m.Valid() && s in m.completed
    ensures s.children <= Elements(m.completed)
  {
    assert s in Elements(m.completed);
    forall c | c in m.inProgress && c.parent != null
      ensures c.parent in Elements(m.inProgress)
    {
      var i :| 0 <= i < |m.inProgress| && m.inProgress[i] == c;
      assert c.Rooted() by { assert c in Elements(m.inProgress); }
      assert c.parent == c.ancestors[i - 1] == m.inProgress[i - 1];
    }
  }
}
