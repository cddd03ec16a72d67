/** Nested run loops balance: whoever entered leaves, and what lies below is as it was. */
module RunLoopNesting {
  import opened RunLoopSpec

  /** Whether the event puts a loop on the stack: an entry that was not quit before. */
  predicate Opens<L(==)>(s: State<L>, e: Event<L>) {
    e.Enter? && e.l !in s.quitCalled
  }

  /** With `open` loops entered since the start, the rest of the run closes as many as are open, and
      never one that was there at the start. */
  ghost predicate Balanced<L>(s: State<L>, es: seq<Event<L>>, open: nat)
    requires Stacked(s) && AllEnabled(s, es)
    decreases |es|
  {
    if es == [] then open == 0
    else
      StepKeepsStacked(s, es[0]);
      if Opens(s, es[0]) then Balanced(Step(s, es[0]), es[1..], open + 1)
      else if es[0].Leave? then open > 0 && Balanced(Step(s, es[0]), es[1..], open - 1)
      else Balanced(Step(s, es[0]), es[1..], open)
  }

  ghost function Opened<L>(s: State<L>, es: seq<Event<L>>): nat
    requires Stacked(s) && AllEnabled(s, es)
    decreases |es|
  {
    if es == [] then 0
    else
      StepKeepsStacked(s, es[0]);
      (if Opens(s, es[0]) then 1 else 0) + Opened(Step(s, es[0]), es[1..])
  }

  function Left<L(==)>(es: seq<Event<L>>): nat {
    if es == [] then 0 else (if es[0].Leave? then 1 else 0) + Left(es[1..])
  }

  /** The stack is as high as loops were entered and not yet left. */
  lemma {:induction false} HeightIs<L>(s: State<L>, es: seq<Event<L>>)
    requires Stacked(s) && AllEnabled(s, es)
    ensures |Run(s, es).stack| + Left(es) == |s.stack| + Opened(s, es)
    decreases |es|
  {
    if es != [] {
      StepKeepsStacked(s, es[0]);
      HeightIs(Step(s, es[0]), es[1..]);
    }
  }

  /** What lies under `height` loops, the innermost of these aside. */
  ghost predicate SameBelow<L>(s: State<L>, t: State<L>, height: nat) {
    && height <= |s.stack| && height <= |t.stack| && |s.told| == |s.stack| && |t.told| == |t.stack|
    && t.stack[..height] == s.stack[..height]
    && (forall k :: 0 <= k < height - 1 ==> t.told[k] == s.told[k])
    && (height > 0 && s.told[height - 1] ==> t.told[height - 1])
    && (height > 0 && t.told[height - 1] ==> s.told[height - 1] || t.stack[height - 1] in t.quitCalled)
  }

  lemma BelowStep<L>(s: State<L>, e: Event<L>, height: nat)
    requires Stacked(s) && Enabled(s, e) && height <= |s.stack| && (e.Leave? ==> height < |s.stack|)
    ensures SameBelow(s, Step(s, e), height) && s.quitCalled <= Step(s, e).quitCalled
  {
  }

  lemma {:induction false} BelowStays<L>(s: State<L>, es: seq<Event<L>>, open: nat)
    requires Stacked(s) && AllEnabled(s, es) && open <= |s.stack| && Balanced(s, es, open)
    ensures var t := Run(s, es);
            |t.stack| == |s.stack| - open && SameBelow(s, t, |s.stack| - open) && s.quitCalled <= t.quitCalled
    decreases |es|
  {
    if es != [] {
      var height := |s.stack| - open;
      StepKeepsStacked(s, es[0]);
      BelowStep(s, es[0], height);
      BelowStays(Step(s, es[0]), es[1..],
                 if Opens(s, es[0]) then open + 1 else if es[0].Leave? then open - 1 else open);
    }
  }

  /** A run that leaves the loops it enters, and no others, gives back the stack and the running
      loops.  What the levels were told is as before, but that the innermost one may have been told to
      quit, if it was quit. */
  lemma NestingBalances<L>(s: State<L>, es: seq<Event<L>>)
    requires Stacked(s) && s.phase.Idle? && AllEnabled(s, es) && Balanced(s, es, 0) && Run(s, es).phase.Idle?
    ensures var t := Run(s, es);
            && t.stack == s.stack && t.running == s.running && |t.told| == |s.told|
            && (forall k :: 0 <= k < |s.told| - 1 ==> t.told[k] == s.told[k])
            && (s.told != [] ==>
                  var n := |s.told| - 1;
                  (s.told[n] ==> t.told[n]) && (t.told[n] ==> s.told[n] || t.stack[n] in t.quitCalled))
  {
    var t := Run(s, es);
    BelowStays(s, es, 0);
    assert t.stack[..|s.stack|] == t.stack && s.stack[..|s.stack|] == s.stack;
    RunningIsStack(s);
    RunningIsStack(t);
  }

  lemma RunningIsStack<L>(s: State<L>)
    requires Stacked(s) && s.phase.Idle?
    ensures forall l :: l in s.running <==> l in s.stack
  {
  }

  lemma TwoSteps<L>(s: State<L>, e: Event<L>, f: Event<L>)
    requires Stacked(s) && Enabled(s, e) && Stacked(Step(s, e)) && Enabled(Step(s, e), f)
    ensures AllEnabled(s, [e, f]) && Run(s, [e, f]) == Step(Step(s, e), f)
  {
    var t, u := Step(s, e), Step(Step(s, e), f);
    StepKeepsStacked(t, f);
    assert [f][1..] == [] && [e, f][1..] == [f];
    RunFirst(t, [f], u);
    RunFirst(s, [e, f], u);
  }

  lemma Enters<L>(s: State<L>, l: L)
    requires Stacked(s) && s.phase.Idle? && l !in s.ran && l !in s.quitCalled
    ensures AllEnabled(s, [Enter(l), Entered])
    ensures Run(s, [Enter(l), Entered])
         == State(s.stack + [l], s.told + [false], s.running + {l}, s.quitCalled, s.ran + {l}, Idle)
  {
    EnterKeepsStacked(s, l);
    TwoSteps(s, Enter(l), Entered);
  }

  lemma Leaves<L>(s: State<L>)
    requires Stacked(s) && s.phase.Idle? && s.stack != []
    ensures var es, n := [Leave, Event.Left], |s.stack| - 1;
            && AllEnabled(s, es)
            && Run(s, es) == State(
                 s.stack[..n],
                 if n > 0 && s.stack[n - 1] in s.quitCalled then s.told[..n][n - 1 := true] else s.told[..n],
                 s.running - {s.stack[n]}, s.quitCalled, s.ran, Idle)
  {
    LeaveKeepsStacked(s);
    TwoSteps(s, Leave, Event.Left);
  }

  /** A loop that is entered, runs and leaves: the stack and the running loops are as before, and at
      most the loop it was in is told to quit, which it is exactly if it was quit. */
  lemma EnterAndLeave<L>(s: State<L>, l: L)
    requires Stacked(s) && s.phase.Idle? && l !in s.ran && l !in s.quitCalled
    ensures AllEnabled(s, [Enter(l), Entered]) && AllEnabled(Run(s, [Enter(l), Entered]), [Leave, Event.Left])
    ensures var t, n := Run(Run(s, [Enter(l), Entered]), [Leave, Event.Left]), |s.stack|;
            && t.stack == s.stack && t.running == s.running && t.quitCalled == s.quitCalled && t.phase == Idle
            && t.ran == s.ran + {l}
            && t.told == if n > 0 && s.stack[n - 1] in s.quitCalled then s.told[n - 1 := true] else s.told
  {
    Enters(s, l);
    Leaves(Run(s, [Enter(l), Entered]));
    assert (s.stack + [l])[..|s.stack|] == s.stack && (s.told + [false])[..|s.stack|] == s.told;
    assert l !in s.running;
    assert s.running + {l} - {l} == s.running;
  }

  /** Quits and entries are on record: over any run, a loop counts as quit exactly when it did or was
      quit in the run, and as run exactly when it did or was entered, even in vain. */
  lemma {:induction false} RunsAreRecorded<L>(s: State<L>, es: seq<Event<L>>, l: L)
    requires Stacked(s) && AllEnabled(s, es)
    ensures l in Run(s, es).quitCalled <==> l in s.quitCalled || Quit(l) in es
    ensures l in Run(s, es).ran <==> l in s.ran || Enter(l) in es
    decreases |es|
  {
    if es != [] {
      StepKeepsStacked(s, es[0]);
      RunsAreRecorded(Step(s, es[0]), es[1..], l);
      assert forall e :: e in es <==> e == es[0] || e in es[1..];
    }
  }

  /** A loop that was quit before it was entered does not run. */
  lemma QuitBeforeRun<L>(s: State<L>, l: L)
    requires Stacked(s) && Enabled(s, Enter(l)) && l in s.quitCalled
    ensures var t := Step(s, Enter(l));
            t.stack == s.stack && t.running == s.running && t.told == s.told && t.phase == Idle
  {
  }

  /** So quitting reaches its loop: one that is quit in a run of courteous observers, and is the
      innermost at the end, has been told. */
  lemma QuitInRunIsDelivered<L>(s: State<L>, es: seq<Event<L>>, l: L)
    requires Stacked(s) && Delivered(s) && AllEnabled(s, es) && AllCourteous(s, es) && Quit(l) in es
    requires HasTop(Run(s, es), l) && !Run(s, es).phase.Leaving?
    ensures Run(s, es).told[|Run(s, es).told| - 1]
  {
    RunKeepsDelivered(s, es);
    RunsAreRecorded(s, es, l);
  }
}
