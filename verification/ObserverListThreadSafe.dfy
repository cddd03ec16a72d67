/** The thread-safe observer list, its posted tasks and the notification slot of each thread. */
module ThreadSafeLists {
  import opened Wrappers
  import opened NotifierSpec

  class ObserverListThreadSafe {
    const toAll: bool
    var observers: map<nat, nat>
    var pending: multiset<Task>
    var slots: map<nat, Slot>
    ghost var delivered: multiset<Task>
    ghost var frames: map<nat, seq<Frame>>  // the local variables of the dispatches in progress

    ghost function Abs(): State
      reads this
    {
      State(toAll, observers, pending, delivered, slots, frames)
    }

    ghost predicate Valid()
      reads this
    {
      Nested(Abs())
    }

    constructor (toAll: bool)
      ensures Valid() && Abs() == Init(toAll)
    {
      this.toAll := toAll;
      observers, pending, slots, delivered, frames := map[], multiset{}, map[], multiset{}, map[];
    }

    method PostTask(task: Task)
      modifies this`pending
      ensures pending == old(pending) + multiset{task}
    {
      pending := pending + multiset{task};
    }

    /** Outside any sequence nothing is added. */
    method AddObserver(observer: nat, current: Option<nat>, thread: nat)
      requires Valid() && observer !in observers
      modifies this`observers, this`pending
      ensures Valid()
      ensures Abs() == if current.None? then old(Abs()) else Step(old(Abs()), Add(observer, current.value, thread))
      ensures observers == if current.None? then old(observers) else old(observers)[observer := current.value]
    {
      if current.None? {
        return;
      }
      StepKeepsNested(Abs(), Add(observer, current.value, thread));
      ghost var before := Abs();
      observers := observers[observer := current.value];
      if toAll && thread in slots && slots[thread].own {
        PostTask(Task(observer, slots[thread].note, current.value));
      }
      assert pending == before.pending + CatchUp(before, observer, current.value, thread);
    }

    method RemoveObserver(observer: nat)
      requires Valid()
      modifies this`observers
      ensures Valid() && Abs() == Step(old(Abs()), Remove(observer))
      ensures observers == old(observers) - {observer}
    {
      StepKeepsNested(Abs(), Remove(observer));
      observers := observers - {observer};
    }

    /** Posts a task to the sequence of each observer. */
    method Notify(note: nat)
      requires Valid()
      modifies this`pending
      ensures Valid() && Abs() == Step(old(Abs()), Event.Notify(note))
    {
      StepKeepsNested(Abs(), Event.Notify(note));
      PostAll(note);
    }

    method PostAll(note: nat)
      modifies this`pending
      ensures pending == old(pending) + Posted(observers, note)
    {
      ghost var visited: set<nat> := {};
      var rest := observers.Keys;
      while rest != {}
        invariant visited + rest == observers.Keys && visited !! rest
        invariant pending == old(pending) + PostedTo(visited, observers, note)
        decreases rest
      {
        var observer :| observer in rest;
        PostTask(Task(observer, note, observers[observer]));
        PostedOneMore(visited, observer, observers, note);
        visited, rest := visited + {observer}, rest - {observer};
      }
      assert visited == observers.Keys;
      PostedToAll(observers, note);
    }

    /** A posted task runs, up to the callback: an observer that is gone is not called. */
    method BeginNotifyWrapper(task: Task, thread: nat) returns (called: bool)
      requires Valid() && task in pending
      modifies this`pending, this`slots, this`delivered, this`frames
      ensures Valid() && Abs() == Step(old(Abs()), Start(task, thread)) && called == (task.observer in observers)
    {
      StepKeepsNested(Abs(), Start(task, thread));
      ghost var before := Abs();
      pending := pending - multiset{task};
      if task.observer !in observers {
        return false;
      }
      frames := Begin(before, thread, Slot(true, task.note)).frames;
      slots := slots[thread := Slot(true, task.note)];
      delivered := delivered + multiset{task};
      return true;
    }

    /** The same in another list that shares the slots. */
    method BeginOther(thread: nat, note: nat)
      requires Valid()
      modifies this`slots, this`frames
      ensures Valid() && Abs() == Step(old(Abs()), StartOther(thread, note))
    {
      StepKeepsNested(Abs(), StartOther(thread, note));
      frames := Begin(Abs(), thread, Slot(false, note)).frames;
      slots := slots[thread := Slot(false, note)];
    }

    /** After the callback the slot gets the value back that it had before it. */
    method FinishNotifyWrapper(thread: nat, previousNotification: Option<Slot>)
      requires Valid() && FramesOf(Abs(), thread) != []
      requires previousNotification == FramesOf(Abs(), thread)[|FramesOf(Abs(), thread)| - 1].previous
      modifies this`slots, this`frames
      ensures Valid() && Abs() == Step(old(Abs()), Finish(thread))
    {
      StepKeepsNested(Abs(), Finish(thread));
      frames := Step(Abs(), Finish(thread)).frames;
      slots := SetSlot(slots, thread, previousNotification);
    }
  }

  ghost function PostedTo(visited: set<nat>, observers: map<nat, nat>, note: nat): multiset<Task> {
    multiset(set o | o in visited && o in observers :: Task(o, note, observers[o]))
  }

  lemma PostedToAll(observers: map<nat, nat>, note: nat)
    ensures PostedTo(observers.Keys, observers, note) == Posted(observers, note)
  {
    assert (set o | o in observers.Keys && o in observers :: Task(o, note, observers[o]))
        == (set o | o in observers :: Task(o, note, observers[o]));
  }

  lemma PostedOneMore(visited: set<nat>, o: nat, observers: map<nat, nat>, note: nat)
    requires o in observers && o !in visited
    ensures PostedTo(visited + {o}, observers, note)
         == PostedTo(visited, observers, note) + multiset{Task(o, note, observers[o])}
  {
    var before := set p | p in visited && p in observers :: Task(p, note, observers[p]);
    var after := set p | p in visited + {o} && p in observers :: Task(p, note, observers[p]);
    assert after == before + {Task(o, note, observers[o])};
  }
}
