/** Calls come to an end: a waiting thread leaves its loop once the pointer is there. */
module LazyProgress {
  import opened LazyInstances

  /** Inside a call for `i`, with nothing to build. */
  predicate Waits(pc: PC, i: Instance) {
    (pc.FastLoad? || pc.Swap? || pc.Spin? || pc.Reload? || pc.Register? || pc.Return?) && pc.i == i
  }

  /** How many of its own steps a thread is from the end of its call, once the pointer is there. */
  function ToGo(pc: PC): nat {
    match pc
    case Idle => 0
    case Return(_, _) => 1
    case FastLoad(_) => 2
    case Reload(_) => 2
    case Register(_, _) => 2
    case Spin(_) => 3
    case Swap(_) => 4
    case Publish(_, _) => 3
    case Create(_) => 4
  }

  function Gos(actions: seq<Action>, th: Thread): nat {
    if actions == [] then 0 else (if actions[0] == Go(th) then 1 else 0) + Gos(actions[1..], th)
  }

  predicate NoCall(actions: seq<Action>, th: Thread) {
    forall k :: 0 <= k < |actions| ==> !(actions[k].Call? && actions[k].t == th)
  }

  /** The call is under way, and there is a pointer for it to return. */
  ghost predicate Served(s: State, th: Thread, i: Instance) {
    Inv(s) && Waits(At(s, th), i) && IsPointer(Word(s, i))
  }

  /** A step of its own brings a served call nearer to its end, by exactly one; the last one returns
      the pointer. */
  lemma OwnStep(s: State, th: Thread, i: Instance)
    requires Served(s, th, i)
    ensures var t := Step(s, Go(th));
            && Enabled(s, Go(th)) && Inv(t) && ToGo(At(t, th)) == ToGo(At(s, th)) - 1
            && Word(t, i) == Word(s, i) && Generation(t, i) == Generation(s, i)
            && if At(t, th).Idle? then t.returned == s.returned + [Entry(i, Generation(s, i), Word(s, i))]
               else Served(t, th, i) && t.returned == s.returned
  {
    assert ThreadInv(s, At(s, th));
    StepKeepsInv(s, Go(th));
  }

  /** What others do leaves a served call alone. */
  lemma OtherStep(s: State, a: Action, th: Thread, i: Instance)
    requires Served(s, th, i) && Enabled(s, a) && Builds(a)
    requires a != Go(th) && !(a.Call? && a.t == th)
    ensures var t := Step(s, a);
            && Served(t, th, i) && At(t, th) == At(s, th)
            && Word(t, i) == Word(s, i) && Generation(t, i) == Generation(s, i)
            && forall e :: e in s.returned ==> e in t.returned
  {
    assert !At(s, th).Idle?;
    StepKeepsInv(s, a);
    WordMoves(s, a, i);
    assert WordInv(s, i);
  }

  lemma {:induction false} IdleStays(s: State, actions: seq<Action>, th: Thread)
    requires At(s, th).Idle? && Runs(s, actions) && NoCall(actions, th)
    ensures Gos(actions, th) == 0 && At(Run(s, actions), th).Idle?
    ensures forall e :: e in s.returned ==> e in Run(s, actions).returned
    decreases |actions|
  {
    if actions != [] {
      var a := actions[0];
      assert a != Go(th) && !(a.Call? && a.t == th);
      if a == Exit {
        ExitOthers(s.(exitStack := []), s.exitStack);
      }
      assert NoCall(actions[1..], th) by {
        assert forall k :: 0 <= k < |actions| - 1 ==> actions[1..][k] == actions[k + 1];
      }
      IdleStays(Step(s, a), actions[1..], th);
    }
  }

  lemma {:induction false} ExitOthers(s: State, stack: seq<Instance>)
    ensures Destroyed(s, stack).threads == s.threads && Destroyed(s, stack).returned == s.returned
    decreases |stack|
  {
    if stack != [] {
      ExitOthers(OnExit(s, stack[|stack| - 1]), stack[..|stack| - 1]);
    }
  }

  /** However the threads interleave, a call for which there is a pointer takes at most four more steps
      of its own thread: each brings it one nearer to its end, and no step of another thread sets it
      back.  When it ends, it has returned that pointer. */
  lemma {:induction false} WaitersReturn(s: State, actions: seq<Action>, th: Thread, i: Instance)
    requires Served(s, th, i) && Runs(s, actions) && AllBuild(actions) && NoCall(actions, th)
    ensures var t := Run(s, actions);
            && Gos(actions, th) + ToGo(At(t, th)) == ToGo(At(s, th)) <= 4
            && (At(t, th).Idle? ==> Entry(i, Generation(s, i), Word(s, i)) in t.returned)
    decreases |actions|
  {
    if actions != [] {
      var a, rest, t := actions[0], actions[1..], Step(s, actions[0]);
      assert NoCall(rest, th) && AllBuild(rest) by {
        assert forall k :: 0 <= k < |rest| ==> rest[k] == actions[k + 1];
      }
      assert Builds(a) && !(a.Call? && a.t == th);
      if a != Go(th) {
        OtherStep(s, a, th, i);
        WaitersReturn(t, rest, th, i);
      } else {
        OwnStep(s, th, i);
        if At(t, th).Idle? {
          IdleStays(t, rest, th);
          assert Entry(i, Generation(s, i), Word(s, i)) in t.returned;
        } else {
          WaitersReturn(t, rest, th, i);
        }
      }
    }
  }

  function Own(th: Thread, n: nat): (r: seq<Action>)
    ensures |r| == n
  {
    if n == 0 then [] else [Go(th)] + Own(th, n - 1)
  }

  /** And its thread alone can take it there, returning that pointer and nothing else. */
  lemma {:induction false} WaiterAlone(s: State, th: Thread, i: Instance)
    requires Served(s, th, i)
    ensures var steps := Own(th, ToGo(At(s, th)));
            && |steps| <= 4 && Runs(s, steps) && AllBuild(steps) && At(Run(s, steps), th).Idle?
            && Run(s, steps).returned == s.returned + [Entry(i, Generation(s, i), Word(s, i))]
    decreases ToGo(At(s, th))
  {
    var n, t := ToGo(At(s, th)), Step(s, Go(th));
    OwnStep(s, th, i);
    var steps := Own(th, n);
    assert steps[0] == Go(th) && steps[1..] == Own(th, n - 1);
    RunsFrom(s, steps);
    if At(t, th).Idle? {
      assert steps[1..] == [];
    } else {
      WaiterAlone(t, th, i);
      assert forall k :: 0 < k < |steps| ==> steps[k] == steps[1..][k - 1];
    }
  }

  // ----- every call can return -----

  ghost predicate Ends(s: State, actions: seq<Action>, th: Thread) {
    Runs(s, actions) && AllBuild(actions) && At(Run(s, actions), th).Idle?
  }

  lemma EndsAfter(s: State, first: seq<Action>, then_: seq<Action>, th: Thread)
    requires Runs(s, first) && AllBuild(first) && Ends(Run(s, first), then_, th)
    ensures Ends(s, first + then_, th)
  {
    RunAppend(s, first, then_);
  }

  lemma OneStep(s: State, a: Action)
    requires Enabled(s, a)
    ensures Runs(s, [a]) && Run(s, [a]) == Step(s, a)
  {
    assert [a][1..] == [];
  }

  /** The thread that holds the word builds, publishes and returns. */
  lemma HolderReturns(s: State, th: Thread, i: Instance, p: int) returns (actions: seq<Action>)
    requires Inv(s) && Holds(At(s, th), i) && IsPointer(p)
    ensures Ends(s, actions, th)
    decreases ToGo(At(s, th))
  {
    var a := if At(s, th).Create? then Construct(th, p) else Go(th);
    assert WordInv(s, i);
    HolderMakesHeld(s, th, i);
    StepKeepsInv(s, a);
    OneStep(s, a);
    var t := Step(s, a);
    var rest;
    if At(s, th).Create? {
      assert At(t, th) == Publish(i, p);
      rest := HolderReturns(t, th, i, p);
    } else {
      assert At(t, th) == Register(i, At(s, th).p);
      WaiterAlone(t, th, i);
      rest := Own(th, ToGo(At(t, th)));
    }
    EndsAfter(s, [a], rest, th);
    actions := [a] + rest;
  }

  lemma {:induction false} OthersStay(s: State, steps: seq<Action>, t: Thread, p: int, th: Thread)
    requires th != t && Runs(s, steps)
    requires forall k :: 0 <= k < |steps| ==> steps[k] == Go(t) || steps[k] == Construct(t, p)
    ensures At(Run(s, steps), th) == At(s, th)
    decreases |steps|
  {
    if steps != [] {
      assert steps[0] == Go(t) || steps[0] == Construct(t, p);
      OthersStay(Step(s, steps[0]), steps[1..], t, p, th);
    }
  }

  /** From every state that can come about, every call under way can be brought to its end, as long as
      creators return pointers. */
  lemma EveryCallCanReturn(s: State, th: Thread, p: int) returns (actions: seq<Action>)
    requires Inv(s) && !At(s, th).Idle? && IsPointer(p)
    ensures Ends(s, actions, th)
    decreases if Word(s, At(s, th).i) == 0 then ToGo(At(s, th)) + (if At(s, th).FastLoad? then 4 else 0) else 0
  {
    var i := At(s, th).i;
    assert WordInv(s, i) && ThreadInv(s, At(s, th));
    if Holds(At(s, th), i) {
      actions := HolderReturns(s, th, i, p);
    } else if IsPointer(Word(s, i)) {
      WaiterAlone(s, th, i);
      actions := Own(th, ToGo(At(s, th)));
    } else if Word(s, i) == CREATING {
      var h, steps := HolderFinishes(s, i, p);
      OthersStay(s, steps, h, p, th);
      RunKeepsInv(s, steps);
      var t := Run(s, steps);
      WaiterAlone(t, th, i);
      EndsAfter(s, steps, Own(th, ToGo(At(t, th))), th);
      actions := steps + Own(th, ToGo(At(t, th)));
    } else {
      StepKeepsInv(s, Go(th));
      OneStep(s, Go(th));
      var rest := EveryCallCanReturn(Step(s, Go(th)), th, p);
      EndsAfter(s, [Go(th)], rest, th);
      actions := [Go(th)] + rest;
    }
  }
}
