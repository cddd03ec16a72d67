/** Run loops and the delegate of a thread, step by step. */
module RunLoops {
  import opened RunLoopSpec

  /** The delegate: the stack of active loops, and for each nesting level of its `Run` whether it
      was told to quit. */
  class Delegate {
    var activeRunLoops: seq<RunLoop>
    var told: seq<bool>
    ghost var phase: Phase<RunLoop>
    ghost var loops: set<RunLoop>

    ghost function Abs(): State<RunLoop>
      reads this, loops
    {
      State(activeRunLoops, told, (set l | l in loops && l.running), (set l | l in loops && l.quitCalled),
            (set l | l in loops && l.runCalled), phase)
    }

    ghost predicate Valid()
      reads this, loops
    {
      && Stacked(Abs())
      && (forall l :: l in activeRunLoops ==> l in loops)
      && (forall l :: l in loops ==> l.delegate == this)
    }

    constructor ()
      ensures Valid() && Abs() == Init() && loops == {}
    {
      activeRunLoops, told, phase, loops := [], [], Idle, {};
    }

    /** Whether the innermost loop is to return once there is nothing left to do. */
    predicate ShouldQuitWhenIdle()
      requires activeRunLoops != []
      reads this, activeRunLoops[|activeRunLoops| - 1]
    {
      activeRunLoops[|activeRunLoops| - 1].quitWhenIdleReceived
    }

    /** Makes the innermost `Run` return. */
    method Quit()
      requires told != []
      modifies this`told
      ensures told == old(told)[|old(told)| - 1 := true]
    {
      told := told[|told| - 1 := true];
    }
  }

  class RunLoop {
    const delegate: Delegate
    var running: bool
    var quitCalled: bool
    var quitWhenIdleReceived: bool
    var runCalled: bool

    constructor (delegate: Delegate)
      requires delegate.Valid()
      modifies delegate`loops
      ensures delegate.Valid() && delegate.Abs() == old(delegate.Abs())
      ensures this.delegate == delegate && delegate.loops == old(delegate.loops) + {this}
      ensures !quitWhenIdleReceived
    {
      this.delegate := delegate;
      running, quitCalled, quitWhenIdleReceived, runCalled := false, false, false, false;
      new;
      delegate.loops := delegate.loops + {this};
      assert delegate.Abs() == old(delegate.Abs());
    }

    /** Entering, up to the nesting observers.  A loop that was quit before it ran does not run. */
    method BeginBeforeRun() returns (entered: bool, isNested: bool)
      requires delegate.Valid() && this in delegate.loops && Enabled(delegate.Abs(), Enter(this))
      modifies this`runCalled, delegate`activeRunLoops, delegate`told, delegate`phase
      ensures delegate.Valid() && delegate.Abs() == Step(old(delegate.Abs()), Enter(this))
      ensures delegate.activeRunLoops == old(delegate.activeRunLoops) + if entered then [this] else []
      ensures entered == !quitCalled && isNested == (entered && old(delegate.activeRunLoops) != [])
    {
      StepKeepsStacked(delegate.Abs(), Enter(this));
      ghost var before := delegate.Abs();
      runCalled := true;
      if quitCalled {
        assert delegate.Abs() == Step(before, Enter(this));
        return false, false;
      }
      delegate.activeRunLoops := delegate.activeRunLoops + [this];
      delegate.told := delegate.told + [false];
      delegate.phase := Entering(this);
      assert delegate.Abs() == Step(before, Enter(this));
      return true, |delegate.activeRunLoops| > 1;
    }

    /** The rest of entering, once the observers have been told. */
    method FinishBeforeRun()
      requires delegate.Valid() && this in delegate.loops && delegate.phase == Entering(this)
      modifies this`running, delegate`phase
      ensures delegate.Valid() && delegate.Abs() == Step(old(delegate.Abs()), Entered) && running
    {
      StepKeepsStacked(delegate.Abs(), Entered);
      ghost var before := delegate.Abs();
      running := true;
      delegate.phase := Idle;
      assert delegate.Abs() == Step(before, Entered);
    }

    /** Leaving, up to the nesting observers. */
    method BeginAfterRun()
      requires delegate.Valid() && this in delegate.loops && delegate.phase.Idle? && HasTop(delegate.Abs(), this)
      modifies this`running, delegate`activeRunLoops, delegate`told, delegate`phase
      ensures delegate.Valid() && delegate.Abs() == Step(old(delegate.Abs()), Leave)
      ensures old(delegate.activeRunLoops) == delegate.activeRunLoops + [this] && !running
    {
      StepKeepsStacked(delegate.Abs(), Leave);
      ghost var before := delegate.Abs();
      running := false;
      delegate.activeRunLoops := delegate.activeRunLoops[..|delegate.activeRunLoops| - 1];
      delegate.told := delegate.told[..|delegate.told| - 1];
      delegate.phase := Leaving;
      assert delegate.Abs() == Step(before, Leave);
    }

    /** The rest of leaving: a quit that was deferred is executed now. */
    method FinishAfterRun()
      requires delegate.Valid() && this in delegate.loops && delegate.phase.Leaving?
      modifies delegate`told, delegate`phase
      ensures delegate.Valid() && delegate.Abs() == Step(old(delegate.Abs()), Left)
    {
      StepKeepsStacked(delegate.Abs(), Left);
      delegate.phase := Idle;
      if delegate.activeRunLoops != [] {
        if delegate.activeRunLoops[|delegate.activeRunLoops| - 1].quitCalled {
          delegate.Quit();
        }
      }
    }

    /** Quits now if this is the innermost loop, and is remembered otherwise. */
    method Quit()
      requires delegate.Valid() && this in delegate.loops && OthersRun(delegate.Abs())
      modifies this`quitCalled, delegate`told
      ensures delegate.Valid() && delegate.Abs() == Step(old(delegate.Abs()), RunLoopSpec.Quit(this)) && quitCalled
    {
      StepKeepsStacked(delegate.Abs(), RunLoopSpec.Quit(this));
      ghost var before := delegate.Abs();
      assert running <==> this in before.running;
      quitCalled := true;
      if running && delegate.activeRunLoops[|delegate.activeRunLoops| - 1] == this {
        delegate.Quit();
      }
      assert delegate.Abs() == Step(before, RunLoopSpec.Quit(this));
    }

    /** One loop has no bearing on the others: only the innermost one's request counts for the delegate. */
    method QuitWhenIdle()
      requires delegate.Valid()
      modifies this`quitWhenIdleReceived
      ensures delegate.Valid() && delegate.Abs() == old(delegate.Abs())
      ensures delegate.activeRunLoops != [] ==>
                (delegate.ShouldQuitWhenIdle()
                 <==> old(delegate.ShouldQuitWhenIdle()) || HasTop(delegate.Abs(), this))
    {
      quitWhenIdleReceived := true;
    }
  }
}
