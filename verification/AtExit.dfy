/** The stack of exit managers and their callbacks.

    A callback may register further callbacks while it runs; they go on the fresh stack of the top
    manager, not on the one being unwound. */
module AtExit {

  /** A callback: which one it is, and what it registers when it runs, in order. */
  datatype Task = Task(id: nat, registers: seq<Task>)

  /** What running a stack from the top registers. */
  function Registered(stack: seq<Task>): seq<Task>
    decreases |stack|
  {
    if stack == [] then []
    else stack[|stack| - 1].registers + Registered(stack[..|stack| - 1])
  }

  function Reversed(stack: seq<Task>): seq<Task>
    decreases |stack|
  {
    if stack == [] then [] else [stack[|stack| - 1]] + Reversed(stack[..|stack| - 1])
  }

  /** Last in, first out: the k-th callback to run is the k-th from the top, and none is run twice
      or left out. */
  lemma {:induction false} ReversedIsLifo(stack: seq<Task>)
    ensures |Reversed(stack)| == |stack|
    ensures forall k :: 0 <= k < |stack| ==> Reversed(stack)[k] == stack[|stack| - 1 - k]
    ensures multiset(Reversed(stack)) == multiset(stack)
    decreases |stack|
  {
    if stack != [] {
      ReversedIsLifo(stack[..|stack| - 1]);
      assert stack == stack[..|stack| - 1] + [stack[|stack| - 1]];
    }
  }

  /** The callbacks waiting in shadowed managers. */
  ghost function Waiting(shadowed: seq<seq<Task>>): multiset<Task>
    decreases |shadowed|
  {
    if shadowed == [] then multiset{}
    else Waiting(shadowed[..|shadowed| - 1]) + multiset(shadowed[|shadowed| - 1])
  }

  class AtExitManagers {
    var hasManager: bool
    var stack: seq<Task>          // of the top manager
    var shadowed: seq<seq<Task>>  // of the managers below it, the last one next in line
    var disabled: bool
    var ran: seq<Task>
    ghost var registered: multiset<Task>
    ghost var lost: multiset<Task>

    /** Every callback ever accepted has run once for each time it was registered, or still waits
        on some stack, or was dropped with its manager. */
    ghost predicate Valid()
      reads this
    {
      && registered == multiset(ran) + multiset(stack) + Waiting(shadowed) + lost
      && (!hasManager ==> stack == [] && shadowed == [])
    }

    constructor ()
      ensures Valid() && !hasManager && ran == [] && !disabled
    {
      hasManager, stack, shadowed, disabled, ran := false, [], [], false, [];
      registered, lost := multiset{}, multiset{};
    }

    method PushManager()
      requires Valid()
      modifies this`hasManager, this`stack, this`shadowed
      ensures Valid() && hasManager && stack == []
      ensures shadowed == if old(hasManager) then old(shadowed) + [old(stack)] else []
    {
      if hasManager {
        shadowed := shadowed + [stack];
        assert shadowed[..|shadowed| - 1] == old(shadowed);
      }
      hasManager, stack := true, [];
    }

    /** Without a manager the task is refused. */
    method RegisterTask(task: Task)
      requires Valid()
      modifies this`stack, this`registered
      ensures Valid()
      ensures stack == if hasManager then old(stack) + [task] else []
      ensures registered == old(registered) + if hasManager then multiset{task} else multiset{}
    {
      if !hasManager {
        return;
      }
      stack := stack + [task];
      registered := registered + multiset{task};
    }

    /** Swaps the top stack out and runs it from the top.  What the callbacks register is left on
        the manager's new stack. */
    method ProcessCallbacksNow()
      requires Valid()
      modifies this`stack, this`ran, this`registered
      ensures Valid()
      ensures ran == old(ran) + Reversed(old(stack))
      ensures stack == Registered(old(stack))
    {
      if !hasManager {
        NothingToRun(ran);
        return;
      }
      var tasks := stack;
      stack := [];
      RunAll(tasks);
    }

    method RunAll(all: seq<Task>)
      requires stack == []
      requires registered == multiset(ran) + multiset(all) + Waiting(shadowed) + lost
      modifies this`stack, this`ran, this`registered
      ensures registered == multiset(ran) + multiset(stack) + Waiting(shadowed) + lost
      ensures ran == old(ran) + Reversed(all) && stack == Registered(all)
    {
      var tasks := all;
      ghost var rest := Waiting(shadowed) + lost;
      Opening(registered, ran, all, Waiting(shadowed), lost);
      while tasks != []
        invariant registered == multiset(ran) + multiset(stack) + rest + multiset(tasks)
        invariant stack + Registered(tasks) == Registered(all)
        invariant ran + Reversed(tasks) == old(ran) + Reversed(all)
        decreases |tasks|
      {
        Turn(registered, ran, stack, rest, tasks);
        Run(tasks[|tasks| - 1]);
        tasks := tasks[..|tasks| - 1];
      }
      NothingToRun(ran);
      NothingToRun(stack);
      Closing(registered, ran, stack, Waiting(shadowed), lost);
    }

    static lemma NothingToRun(a: seq<Task>)
      ensures a + Reversed([]) == a && a + Registered([]) == a
    {
    }

    static lemma Opening(registered: multiset<Task>, ran: seq<Task>, all: seq<Task>, waiting: multiset<Task>, lost: multiset<Task>)
      requires registered == multiset(ran) + multiset(all) + waiting + lost
      ensures registered == multiset(ran) + multiset([]) + (waiting + lost) + multiset(all)
    {
    }

    static lemma Closing(registered: multiset<Task>, ran: seq<Task>, stack: seq<Task>, waiting: multiset<Task>, lost: multiset<Task>)
      requires registered == multiset(ran) + multiset(stack) + (waiting + lost) + multiset([])
      ensures registered == multiset(ran) + multiset(stack) + waiting + lost
    {
    }

    static lemma Unwind(ran: seq<Task>, top: seq<Task>, rest: seq<Task>, task: Task)
      ensures ran + Reversed(rest + [task]) == (ran + [task]) + Reversed(rest)
      ensures top + Registered(rest + [task]) == (top + task.registers) + Registered(rest)
    {
      assert (rest + [task])[..|rest|] == rest;
    }

    /** One turn of the loop: the top task moves from the stack being unwound to the log, and what
        it registers joins the new stack. */
    static lemma Turn(registered: multiset<Task>, ran: seq<Task>, stack: seq<Task>, rest: multiset<Task>, tasks: seq<Task>)
      requires tasks != []
      requires registered == multiset(ran) + multiset(stack) + rest + multiset(tasks)
      ensures var task, below := tasks[|tasks| - 1], tasks[..|tasks| - 1];
              && registered + multiset(task.registers)
                 == multiset(ran + [task]) + multiset(stack + task.registers) + rest + multiset(below)
              && ran + Reversed(tasks) == (ran + [task]) + Reversed(below)
              && stack + Registered(tasks) == (stack + task.registers) + Registered(below)
    {
      var task, below := tasks[|tasks| - 1], tasks[..|tasks| - 1];
      assert tasks == below + [task];
      Unwind(ran, stack, below, task);
    }

    /** Running one callback: what it registers goes on the top manager's stack. */
    method Run(task: Task)
      modifies this`stack, this`ran, this`registered
      ensures ran == old(ran) + [task] && stack == old(stack) + task.registers
      ensures registered == old(registered) + multiset(task.registers)
    {
      ran := ran + [task];
      stack := stack + task.registers;
      registered := registered + multiset(task.registers);
    }

    method DisableAllAtExitManagers()
      requires Valid()
      modifies this`disabled
      ensures Valid() && disabled
    {
      disabled := true;
    }

    /** Moves on to the next manager, with whatever the top one still holds lost. */
    method DropTop()
      requires Valid() && hasManager
      modifies this`hasManager, this`stack, this`shadowed, this`lost
      ensures Valid() && hasManager == (old(shadowed) != [])
      ensures old(shadowed) != [] ==> old(shadowed) == shadowed + [stack]
      ensures lost == old(lost) + multiset(old(stack))
    {
      lost := lost + multiset(stack);
      if shadowed == [] {
        hasManager, stack := false, [];
        assert multiset(stack) == multiset{};
      } else {
        stack, shadowed := shadowed[|shadowed| - 1], shadowed[..|shadowed| - 1];
        assert old(shadowed) == shadowed + [stack];
      }
    }

    /** Destroying the top manager runs its callbacks, unless they are disabled.  What those
        callbacks registered goes with the manager and never runs. */
    method PopManager()
      requires Valid() && hasManager
      modifies this`hasManager, this`stack, this`shadowed, this`ran, this`registered, this`lost
      ensures Valid() && hasManager == (old(shadowed) != [])
      ensures old(shadowed) != [] ==> old(shadowed) == shadowed + [stack]
      ensures ran == old(ran) + (if disabled then [] else Reversed(old(stack)))
      ensures lost == old(lost) + multiset(if disabled then old(stack) else Registered(old(stack)))
    {
      RunUnlessDisabled();
      DropTop();
    }

    method RunUnlessDisabled()
      requires Valid()
      modifies this`stack, this`ran, this`registered
      ensures Valid()
      ensures ran == old(ran) + (if disabled then [] else Reversed(old(stack)))
      ensures stack == if disabled then old(stack) else Registered(old(stack))
    {
      if !disabled {
        ProcessCallbacksNow();
      } else {
        assert ran == ran + [];
      }
    }
  }
}
