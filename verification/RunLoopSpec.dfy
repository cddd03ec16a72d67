/** Nested run loops as a state machine.

    Entering and leaving a loop each have two halves, because the nesting observers are called in
    between and may quit loops themselves. */
module RunLoopSpec {

  datatype Phase<L> = Idle | Entering(l: L) | Leaving

  /** `told` says of each nesting level whether the delegate was told to quit while it was the
      innermost; that is what makes the delegate's `Run` at that level return. */
  datatype State<!L> = State(
    stack: seq<L>,
    told: seq<bool>,
    running: set<L>,
    quitCalled: set<L>,
    ran: set<L>,
    phase: Phase<L>)

  datatype Event<L> =
    | Enter(l: L)      // BeforeRun, up to the observers
    | Entered          // the rest of BeforeRun
    | Leave            // AfterRun, up to the observers
    | Left             // the rest of AfterRun
    | Quit(l: L)

  function Init<L>(): State<L> {
    State([], [], {}, {}, {}, Idle)
  }

  predicate HasTop<L(==)>(s: State<L>, l: L) {
    s.stack != [] && s.stack[|s.stack| - 1] == l
  }

  /** `Delegate::Quit`. */
  function Tell<L>(s: State<L>): State<L>
    requires s.told != []
  {
    s.(told := s.told[|s.told| - 1 := true])
  }

  /** Whether other code may run: the tasks of a running loop, or the nesting observers.  These are
      called when a loop is entered or left inside another one, and not for an outermost loop. */
  predicate OthersRun<L(==)>(s: State<L>) {
    match s.phase
    case Idle => true
    case Entering(_) => |s.stack| > 1
    case Leaving => s.stack != []
  }

  /** A loop runs at most once; observers quit loops but run none; only the innermost loop leaves. */
  predicate Enabled<L(==)>(s: State<L>, e: Event<L>) {
    match e
    case Enter(l) => s.phase.Idle? && l !in s.ran
    case Entered => s.phase.Entering?
    case Leave => s.phase.Idle? && s.stack != []
    case Left => s.phase.Leaving?
    case Quit(_) => OthersRun(s)
  }

  function Step<L>(s: State<L>, e: Event<L>): State<L>
    requires |s.told| == |s.stack| && Enabled(s, e)
  {
    match e
    case Enter(l) =>
      var t := s.(ran := s.ran + {l});
      if l in s.quitCalled then t else t.(stack := s.stack + [l], told := s.told + [false], phase := Entering(l))
    case Entered => s.(running := s.running + {s.phase.l}, phase := Idle)
    case Leave =>
      var n := |s.stack| - 1;
      s.(running := s.running - {s.stack[n]}, stack := s.stack[..n], told := s.told[..n], phase := Leaving)
    case Left =>
      var t := s.(phase := Idle);
      if s.stack != [] && s.stack[|s.stack| - 1] in s.quitCalled then Tell(t) else t
    case Quit(l) =>
      var t := s.(quitCalled := s.quitCalled + {l});
      if l in s.running && HasTop(s, l) then Tell(t) else t
  }

  predicate NoDuplicates<L(==)>(stack: seq<L>) {
    forall i, j :: 0 <= i < j < |stack| ==> stack[i] != stack[j]
  }

  /** The stack is the running loops, each once, and the one that is being entered.  Nobody was told
      to quit unasked. */
  ghost predicate Stacked<L>(s: State<L>) {
    && |s.told| == |s.stack| && NoDuplicates(s.stack)
    && (forall l :: l in s.stack ==> l in s.running || s.phase == Entering(l))
    && (forall l :: l in s.running ==> l in s.stack)
    && (s.phase.Entering? ==> HasTop(s, s.phase.l) && s.phase.l !in s.running && !s.told[|s.told| - 1])
    && (forall l :: l in s.stack ==> l in s.ran)
    && (forall i :: 0 <= i < |s.told| && s.told[i] ==> s.stack[i] in s.quitCalled)
  }

  /** Outside the enter and leave code, the innermost loop was told to quit if and only if somebody
      quit it. */
  predicate Delivered<L(==)>(s: State<L>)
    requires |s.told| == |s.stack|
  {
    s.stack != [] && !s.phase.Leaving? ==>
      (s.told[|s.told| - 1] <==> s.stack[|s.stack| - 1] in s.quitCalled)
  }

  /** The observers that are called while a loop is entered do not quit that loop. */
  predicate Courteous<L(==)>(s: State<L>, e: Event<L>) {
    !(e.Quit? && s.phase == Entering(e.l))
  }

  lemma EnterKeepsStacked<L>(s: State<L>, l: L)
    requires Stacked(s) && Enabled(s, Enter(l))
    ensures Stacked(Step(s, Enter(l)))
  {
    var t := Step(s, Enter(l));
    if l !in s.quitCalled {
      assert t.stack == s.stack + [l];
    }
  }

  lemma LeaveKeepsStacked<L>(s: State<L>)
    requires Stacked(s) && Enabled(s, Leave)
    ensures Stacked(Step(s, Leave))
  {
    var t := Step(s, Leave);
    var last := s.stack[|s.stack| - 1];
    assert s.stack == t.stack + [last];
    assert last !in t.stack;
  }

  lemma StepKeepsStacked<L>(s: State<L>, e: Event<L>)
    requires Stacked(s) && Enabled(s, e)
    ensures Stacked(Step(s, e))
  {
    match e
    case Enter(l) => EnterKeepsStacked(s, l);
    case Leave => LeaveKeepsStacked(s);
    case _ =>
  }

  /** Exactly the courteous steps keep this. */
  lemma StepKeepsDelivered<L>(s: State<L>, e: Event<L>)
    requires Stacked(s) && Delivered(s) && Enabled(s, e)
    ensures Delivered(Step(s, e)) <==> Courteous(s, e)
  {
  }

  ghost predicate AllEnabled<L>(s: State<L>, es: seq<Event<L>>)
    requires Stacked(s)
    decreases |es|
  {
    es == [] || (Enabled(s, es[0]) && (StepKeepsStacked(s, es[0]); AllEnabled(Step(s, es[0]), es[1..])))
  }

  ghost function Run<L>(s: State<L>, es: seq<Event<L>>): (t: State<L>)
    requires Stacked(s) && AllEnabled(s, es)
    ensures Stacked(t)
    decreases |es|
  {
    if es == [] then s else
      StepKeepsStacked(s, es[0]);
      Run(Step(s, es[0]), es[1..])
  }

  ghost predicate AllCourteous<L>(s: State<L>, es: seq<Event<L>>)
    requires Stacked(s) && AllEnabled(s, es)
    decreases |es|
  {
    es == [] || (Courteous(s, es[0]) && (StepKeepsStacked(s, es[0]); AllCourteous(Step(s, es[0]), es[1..])))
  }

  /** Over every courteous run, what was asked is delivered. */
  lemma {:induction false} RunKeepsDelivered<L>(s: State<L>, es: seq<Event<L>>)
    requires Stacked(s) && Delivered(s) && AllEnabled(s, es) && AllCourteous(s, es)
    ensures Delivered(Run(s, es))
    decreases |es|
  {
    if es != [] {
      StepKeepsStacked(s, es[0]);
      StepKeepsDelivered(s, es[0]);
      RunKeepsDelivered(Step(s, es[0]), es[1..]);
    }
  }

  /** Before the run and after each step of it, what was asked is delivered. */
  ghost predicate AlwaysDelivered<L>(s: State<L>, es: seq<Event<L>>)
    requires Stacked(s) && AllEnabled(s, es)
    decreases |es|
  {
    Delivered(s) && (es == [] || (StepKeepsStacked(s, es[0]); AlwaysDelivered(Step(s, es[0]), es[1..])))
  }

  /** That is so at every moment exactly when the run is courteous. */
  lemma {:induction false} DeliveredExactly<L>(s: State<L>, es: seq<Event<L>>)
    requires Stacked(s) && Delivered(s) && AllEnabled(s, es)
    ensures AlwaysDelivered(s, es) <==> AllCourteous(s, es)
    decreases |es|
  {
    if es != [] {
      StepKeepsStacked(s, es[0]);
      StepKeepsDelivered(s, es[0]);
      if Courteous(s, es[0]) {
        DeliveredExactly(Step(s, es[0]), es[1..]);
      }
    }
  }

  /** The loop at `depth` stays in place during the run. */
  ghost predicate StaysIn<L>(s: State<L>, es: seq<Event<L>>, depth: nat)
    requires Stacked(s) && AllEnabled(s, es)
    decreases |es|
  {
    && depth < |s.stack|
    && (es == [] || (StepKeepsStacked(s, es[0]); StaysIn(Step(s, es[0]), es[1..], depth)))
  }

  /** There is always another loop above it. */
  ghost predicate StaysBuried<L>(s: State<L>, es: seq<Event<L>>, depth: nat)
    requires Stacked(s) && AllEnabled(s, es)
    decreases |es|
  {
    && depth + 1 < |s.stack|
    && (es == [] || (StepKeepsStacked(s, es[0]); StaysBuried(Step(s, es[0]), es[1..], depth)))
  }

  /** While a loop is buried, quitting it is withheld: nothing changes what its level was told. */
  lemma {:induction false} Withheld<L>(s: State<L>, es: seq<Event<L>>, depth: nat)
    requires Stacked(s) && AllEnabled(s, es) && StaysBuried(s, es, depth)
    ensures var t := Run(s, es);
            depth < |t.stack| && t.stack[depth] == s.stack[depth] && t.told[depth] == s.told[depth]
    decreases |es|
  {
    if es != [] {
      StepKeepsStacked(s, es[0]);
      Withheld(Step(s, es[0]), es[1..], depth);
    }
  }

  lemma {:induction false} StaysAsked<L>(s: State<L>, es: seq<Event<L>>, depth: nat)
    requires Stacked(s) && AllEnabled(s, es) && StaysIn(s, es, depth)
    ensures var t := Run(s, es);
            && depth < |t.stack| && t.stack[depth] == s.stack[depth] && s.quitCalled <= t.quitCalled
            && (s.told[depth] ==> t.told[depth])
    decreases |es|
  {
    if es != [] {
      StepKeepsStacked(s, es[0]);
      StaysAsked(Step(s, es[0]), es[1..], depth);
    }
  }

  /** And then it is delivered: once the loops above have left, the level has been told to quit. */
  lemma QuitIsDelivered<L>(s: State<L>, es: seq<Event<L>>, depth: nat)
    requires Stacked(s) && Delivered(s) && AllEnabled(s, es) && AllCourteous(s, es) && StaysIn(s, es, depth)
    requires s.stack[depth] in s.quitCalled
    requires |Run(s, es).stack| == depth + 1 && !Run(s, es).phase.Leaving?
    ensures Run(s, es).told[depth]
  {
    RunKeepsDelivered(s, es);
    StaysAsked(s, es, depth);
  }

  lemma RunFirst<L>(s: State<L>, es: seq<Event<L>>, t: State<L>)
    requires Stacked(s) && es != [] && Enabled(s, es[0]) && Stacked(Step(s, es[0]))
    requires AllEnabled(Step(s, es[0]), es[1..]) && Run(Step(s, es[0]), es[1..]) == t
    ensures AllEnabled(s, es) && Run(s, es) == t
  {
  }

  /** Inside any running loop: a loop that is quit by an observer while it is entered runs without
      being told, although it has been quit. */
  lemma QuitWhileEnteringIsLost<L>(s: State<L>, b: L)
    requires Stacked(s) && s.phase.Idle? && s.stack != [] && b !in s.ran && b !in s.quitCalled
    ensures var es := [Enter(b), Quit(b), Entered];
            && AllEnabled(s, es)
            && var t := Run(s, es);
            t.phase.Idle? && t.stack == s.stack + [b] && t.told == s.told + [false] && b in t.running && b in t.quitCalled
  {
    var es := [Enter(b), Quit(b), Entered];
    var s1 := Step(s, Enter(b));
    var s2 := Step(s1, Quit(b));
    var s3 := Step(s2, Entered);
    StepKeepsStacked(s, Enter(b));
    StepKeepsStacked(s1, Quit(b));
    StepKeepsStacked(s2, Entered);
    RunFirst(s2, es[2..], s3);
    RunFirst(s1, es[1..], s3);
    RunFirst(s, es, s3);
  }

  /** Such a state is reached by entering any first loop. */
  lemma FirstLoopRuns<L>(a: L)
    ensures var es := [Enter(a), Entered];
            && Stacked(Init<L>()) && Delivered(Init<L>()) && AllEnabled(Init<L>(), es)
            && var t := Run(Init<L>(), es);
            Delivered(t) && t.phase.Idle? && t.stack == [a] && t.ran == {a} && t.quitCalled == {}
  {
    var es := [Enter(a), Entered];
    var s0: State<L> := Init();
    var s1 := Step(s0, Enter(a));
    var s2 := Step(s1, Entered);
    StepKeepsStacked(s0, Enter(a));
    StepKeepsStacked(s1, Entered);
    RunFirst(s1, es[1..], s2);
    RunFirst(s0, es, s2);
  }

  /** So a quit can be lost, from the start. */
  lemma LostFromTheStart<L>(a: L, b: L)
    requires a != b
    ensures var first := [Enter(a), Entered];
            && AllEnabled(Init<L>(), first)
            && var s := Run(Init<L>(), first);
            var es := [Enter(b), Quit(b), Entered];
            AllEnabled(s, es) && !Delivered(Run(s, es))
  {
    FirstLoopRuns(a);
    var s := Run(Init<L>(), [Enter(a), Entered]);
    QuitWhileEnteringIsLost(s, b);
    var t := Run(s, [Enter(b), Quit(b), Entered]);
    assert t.told[|t.told| - 1] == false && t.stack[|t.stack| - 1] == b;
    assert t.phase.Idle?;
  }
}
