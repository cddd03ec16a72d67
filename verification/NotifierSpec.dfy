/** The thread-safe observer list as a state machine over any number of sequences.

    Every critical section is one step.  Tasks that were posted may run in any order.  A task belongs
    to a sequence and runs on some thread; a dispatch may start inside another one on the same thread,
    of the same sequence or another, when a callback runs a nested loop. */
module NotifierSpec {
  import opened Wrappers

  /** Observers, notifications, sequences and threads are identified by numbers. */
  datatype Task = Task(observer: nat, note: nat, sequence: nat)

  /** What the slot of a thread points to: a notification of this list, or of another one. */
  datatype Slot = Slot(own: bool, note: nat)

  /** A dispatch in progress, and the slot value it will restore. */
  datatype Frame = Frame(slot: Slot, previous: Option<Slot>)

  datatype State = State(
    toAll: bool,                    // the policy: are observers added meanwhile notified
    observers: map<nat, nat>,       // the sequence of each observer
    pending: multiset<Task>,
    delivered: multiset<Task>,
    slots: map<nat, Slot>,          // per thread; no entry is a null slot
    frames: map<nat, seq<Frame>>)   // per thread, the innermost dispatch last

  datatype Event =
    | Add(observer: nat, sequence: nat, thread: nat)
    | Remove(observer: nat)
    | Notify(note: nat)
    | Start(task: Task, thread: nat)        // NotifyWrapper, up to the callback
    | StartOther(thread: nat, note: nat)    // the same of another list
    | Finish(thread: nat)                   // the rest of it

  function Init(toAll: bool): State {
    State(toAll, map[], multiset{}, multiset{}, map[], map[])
  }

  function FramesOf(s: State, thread: nat): seq<Frame> {
    if thread in s.frames then s.frames[thread] else []
  }

  function SlotOf(s: State, thread: nat): Option<Slot> {
    if thread in s.slots then Some(s.slots[thread]) else None
  }

  function SetSlot(slots: map<nat, Slot>, thread: nat, slot: Option<Slot>): map<nat, Slot> {
    if slot.None? then slots - {thread} else slots[thread := slot.value]
  }

  function Begin(s: State, thread: nat, slot: Slot): State {
    s.(slots := s.slots[thread := slot],
       frames := s.frames[thread := FramesOf(s, thread) + [Frame(slot, SlotOf(s, thread))]])
  }

  /** An observer is added once; a task that runs was posted; a dispatch that ends was begun. */
  predicate Enabled(s: State, e: Event) {
    match e
    case Add(o, _, _) => o !in s.observers
    case Remove(_) => true
    case Notify(_) => true
    case Start(task, _) => task in s.pending
    case StartOther(_, _) => true
    case Finish(thread) => FramesOf(s, thread) != []
  }

  /** The tasks a notification posts. */
  function Posted(observers: map<nat, nat>, note: nat): multiset<Task> {
    multiset(set o | o in observers :: Task(o, note, observers[o]))
  }

  /** The task that is posted for an observer added while the thread dispatches a notification of
      this list. */
  function CatchUp(s: State, o: nat, sequence: nat, thread: nat): multiset<Task> {
    if s.toAll && thread in s.slots && s.slots[thread].own
      then multiset{Task(o, s.slots[thread].note, sequence)} else multiset{}
  }

  function Step(s: State, e: Event): State
    requires Enabled(s, e)
  {
    match e
    case Add(o, sequence, thread) =>
      s.(observers := s.observers[o := sequence], pending := s.pending + CatchUp(s, o, sequence, thread))
    case Remove(o) => s.(observers := s.observers - {o})
    case Notify(note) => s.(pending := s.pending + Posted(s.observers, note))
    case Start(task, thread) =>
      var t := s.(pending := s.pending - multiset{task});
      if task.observer !in s.observers then t
      else Begin(t.(delivered := s.delivered + multiset{task}), thread, Slot(true, task.note))
    case StartOther(thread, note) => Begin(s, thread, Slot(false, note))
    case Finish(thread) =>
      var frames := FramesOf(s, thread);
      var n := |frames| - 1;
      s.(slots := SetSlot(s.slots, thread, frames[n].previous), frames := s.frames[thread := frames[..n]])
  }

  predicate AllEnabled(s: State, es: seq<Event>)
    decreases |es|
  {
    es == [] || (Enabled(s, es[0]) && AllEnabled(Step(s, es[0]), es[1..]))
  }

  function Run(s: State, es: seq<Event>): State
    requires AllEnabled(s, es)
    decreases |es|
  {
    if es == [] then s else Run(Step(s, es[0]), es[1..])
  }

  // ----- the slot -----

  /** The slot points to the innermost dispatch of the thread, or to nothing if there is none; and
      every dispatch remembers the one around it. */
  ghost predicate Nested(s: State) {
    && (forall q :: SlotOf(s, q) == Innermost(FramesOf(s, q)))
    && (forall q :: Chained(FramesOf(s, q)))
  }

  ghost predicate Chained(frames: seq<Frame>) {
    frames == [] || (frames[|frames| - 1].previous == Innermost(frames[..|frames| - 1]) && Chained(frames[..|frames| - 1]))
  }

  function Innermost(frames: seq<Frame>): Option<Slot> {
    if frames == [] then None else Some(frames[|frames| - 1].slot)
  }

  /** What a step does to the dispatches of a thread. */
  lemma FramesStep(s: State, e: Event, q: nat)
    requires Nested(s) && Enabled(s, e)
    ensures var g := FramesOf(Step(s, e), q);
            SlotOf(Step(s, e), q) == Innermost(g) && Chained(g)
  {
    assert SlotOf(s, q) == Innermost(FramesOf(s, q)) && Chained(FramesOf(s, q));
    match e
    case Start(task, thread) =>
      if task.observer in s.observers {
        BeginStep(s, thread, Slot(true, task.note), q);
      }
    case StartOther(thread, note) => BeginStep(s, thread, Slot(false, note), q);
    case _ =>
  }

  lemma BeginStep(s: State, thread: nat, slot: Slot, q: nat)
    requires Nested(s)
    ensures var t := Begin(s, thread, slot);
            SlotOf(t, q) == Innermost(FramesOf(t, q)) && Chained(FramesOf(t, q))
  {
    var f, g := FramesOf(s, q), FramesOf(Begin(s, thread, slot), q);
    assert SlotOf(s, q) == Innermost(f) && Chained(f);
    if q == thread {
      assert g == f + [Frame(slot, Innermost(f))];
      assert g[..|f|] == f;
    }
  }

  lemma StepKeepsNested(s: State, e: Event)
    requires Nested(s) && Enabled(s, e)
    ensures Nested(Step(s, e))
  {
    forall q
      ensures SlotOf(Step(s, e), q) == Innermost(FramesOf(Step(s, e), q)) && Chained(FramesOf(Step(s, e), q))
    {
      FramesStep(s, e, q);
    }
  }

  lemma {:induction false} RunKeepsNested(s: State, es: seq<Event>)
    requires Nested(s) && AllEnabled(s, es)
    ensures Nested(Run(s, es))
    decreases |es|
  {
    if es != [] {
      StepKeepsNested(s, es[0]);
      RunKeepsNested(Step(s, es[0]), es[1..]);
    }
  }

  /** Whatever happens in between, once the dispatches of a thread are the same as before, its slot
      is the same as before. */
  lemma SlotIsRestored(s: State, es: seq<Event>, thread: nat)
    requires Nested(s) && AllEnabled(s, es)
    requires FramesOf(Run(s, es), thread) == FramesOf(s, thread)
    ensures SlotOf(Run(s, es), thread) == SlotOf(s, thread)
  {
    RunKeepsNested(s, es);
  }

  // ----- deliveries -----

  /** How often a notification was delivered to an observer on a sequence, or still may be. */
  function Count(s: State, o: nat, note: nat, sequence: nat): nat {
    s.pending[Task(o, note, sequence)] + s.delivered[Task(o, note, sequence)]
  }

  /** Exactly once in all: delivered, or on its way to the observer's own sequence. */
  ghost predicate Once(s: State, o: nat, note: nat) {
    o in s.observers && forall q :: Count(s, o, note, q) == if q == s.observers[o] then 1 else 0
  }

  ghost predicate Never(s: State, o: nat, note: nat) {
    forall q :: Count(s, o, note, q) == 0
  }

  /** The observer stays registered and the notification is not repeated. */
  predicate Quiet(es: seq<Event>, o: nat, note: nat) {
    es == [] || (es[0] != Remove(o) && es[0] != Notify(note) && Quiet(es[1..], o, note))
  }

  predicate NotSent(es: seq<Event>, note: nat) {
    es == [] || (es[0] != Notify(note) && NotSent(es[1..], note))
  }

  predicate NotAdded(es: seq<Event>, o: nat) {
    es == [] || (!(es[0].Add? && es[0].observer == o) && NotAdded(es[1..], o))
  }

  lemma PostedCounts(observers: map<nat, nat>, note: nat, task: Task)
    ensures Posted(observers, note)[task]
         == if task.note == note && task.observer in observers && observers[task.observer] == task.sequence then 1 else 0
  {
  }

  /** What a step adds to the count: only notifying and catching up add anything. */
  function Gain(s: State, e: Event, o: nat, note: nat, q: nat): nat {
    match e
    case Add(p, sequence, thread) =>
      if p == o && sequence == q && s.toAll && SlotOf(s, thread) == Some(Slot(true, note)) then 1 else 0
    case Notify(n) => if n == note && o in s.observers && s.observers[o] == q then 1 else 0
    case _ => 0
  }

  /** What it takes away: a task that finds its observer gone. */
  function Loss(s: State, e: Event, o: nat, note: nat, q: nat): nat {
    if e.Start? && e.task == Task(o, note, q) && o !in s.observers then 1 else 0
  }

  lemma CountStep(s: State, e: Event, o: nat, note: nat, q: nat)
    requires Enabled(s, e)
    ensures Count(Step(s, e), o, note, q) + Loss(s, e, o, note, q) == Count(s, o, note, q) + Gain(s, e, o, note, q)
  {
    if e.Notify? {
      PostedCounts(s.observers, e.note, Task(o, note, q));
    }
  }

  function Gains(s: State, es: seq<Event>, o: nat, note: nat, q: nat): nat
    requires AllEnabled(s, es)
    decreases |es|
  {
    if es == [] then 0 else Gain(s, es[0], o, note, q) + Gains(Step(s, es[0]), es[1..], o, note, q)
  }

  function Losses(s: State, es: seq<Event>, o: nat, note: nat, q: nat): nat
    requires AllEnabled(s, es)
    decreases |es|
  {
    if es == [] then 0 else Loss(s, es[0], o, note, q) + Losses(Step(s, es[0]), es[1..], o, note, q)
  }

  /** The account over any run: calls made and still to come are the notifications sent while the
      observer was registered and those it caught up with when it was added, less the tasks that
      found it gone. */
  lemma {:induction false} Account(s: State, es: seq<Event>, o: nat, note: nat, q: nat)
    requires AllEnabled(s, es)
    ensures Count(Run(s, es), o, note, q) + Losses(s, es, o, note, q) == Count(s, o, note, q) + Gains(s, es, o, note, q)
    decreases |es|
  {
    if es != [] {
      CountStep(s, es[0], o, note, q);
      Account(Step(s, es[0]), es[1..], o, note, q);
    }
  }

  /** An observer that is to get a notification once, and stays registered, gets it once. */
  lemma {:induction false} OnceStays(s: State, es: seq<Event>, o: nat, note: nat)
    requires AllEnabled(s, es) && Once(s, o, note) && Quiet(es, o, note)
    ensures Once(Run(s, es), o, note)
    decreases |es|
  {
    if es != [] {
      var t := Step(s, es[0]);
      forall q
        ensures Count(t, o, note, q) == Count(s, o, note, q)
      {
        CountStep(s, es[0], o, note, q);
      }
      assert t.observers[o] == s.observers[o];
      OnceStays(t, es[1..], o, note);
    }
  }

  /** An observer registered when a notification is sent, until its task runs, is called for it exactly
      once, and on its own sequence. */
  lemma NotifiedOnce(s: State, note: nat, es: seq<Event>, o: nat)
    requires o in s.observers && Never(s, o, note)
    requires AllEnabled(Step(s, Notify(note)), es) && Quiet(es, o, note)
    ensures var t := Run(Step(s, Notify(note)), es);
            && Once(t, o, note)
            && (Task(o, note, s.observers[o]) !in t.pending ==> t.delivered[Task(o, note, s.observers[o])] == 1)
  {
    var s' := Step(s, Notify(note));
    forall q
      ensures Count(s', o, note, q) == if q == s'.observers[o] then 1 else 0
    {
      CountStep(s, Notify(note), o, note, q);
      assert Count(s, o, note, q) == 0;
    }
    OnceStays(s', es, o, note);
    SequenceStays(s', es, o, note);
    assert Count(Run(s', es), o, note, s.observers[o]) == 1;
  }

  lemma {:induction false} SequenceStays(s: State, es: seq<Event>, o: nat, note: nat)
    requires AllEnabled(s, es) && o in s.observers && Quiet(es, o, note)
    ensures var t := Run(s, es); o in t.observers && t.observers[o] == s.observers[o]
    decreases |es|
  {
    if es != [] {
      SequenceStays(Step(s, es[0]), es[1..], o, note);
    }
  }

  /** An observer first added on a thread that dispatches a notification of this list gets that
      notification once, if observers added meanwhile are to be notified and it stays registered. */
  lemma AddedMeanwhileOnce(s: State, o: nat, sequence: nat, thread: nat, note: nat, es: seq<Event>)
    requires o !in s.observers && Never(s, o, note) && s.toAll && SlotOf(s, thread) == Some(Slot(true, note))
    requires AllEnabled(Step(s, Add(o, sequence, thread)), es) && Quiet(es, o, note)
    ensures Once(Run(Step(s, Add(o, sequence, thread)), es), o, note)
  {
    var s' := Step(s, Add(o, sequence, thread));
    forall q
      ensures Count(s', o, note, q) == if q == s'.observers[o] then 1 else 0
    {
      CountStep(s, Add(o, sequence, thread), o, note, q);
      assert Count(s, o, note, q) == 0;
    }
    OnceStays(s', es, o, note);
  }

  /** Under the other policy a notification that was sent before never reaches it. */
  lemma {:induction false} AddedMeanwhileNever(s: State, es: seq<Event>, o: nat, note: nat)
    requires AllEnabled(s, es) && !s.toAll && Never(s, o, note) && NotSent(es, note)
    ensures Never(Run(s, es), o, note)
    decreases |es|
  {
    if es != [] {
      var t := Step(s, es[0]);
      forall q
        ensures Count(t, o, note, q) == 0
      {
        CountStep(s, es[0], o, note, q);
        assert Count(s, o, note, q) == 0;
      }
      AddedMeanwhileNever(t, es[1..], o, note);
    }
  }

  /** A removed observer that is not added again is not called again, whatever still waits for it. */
  lemma {:induction false} RemovedIsLeftAlone(s: State, es: seq<Event>, task: Task)
    requires AllEnabled(s, es) && task.observer !in s.observers && NotAdded(es, task.observer)
    ensures var t := Run(s, es);
            task.observer !in t.observers && t.delivered[task] == s.delivered[task]
    decreases |es|
  {
    if es != [] {
      RemovedIsLeftAlone(Step(s, es[0]), es[1..], task);
    }
  }

  // ----- exactly when nobody is called twice -----

  function Sent(es: seq<Event>, note: nat): nat {
    if es == [] then 0 else (if es[0] == Notify(note) then 1 else 0) + Sent(es[1..], note)
  }

  /** Called at most once for the notification, on whatever sequence. */
  ghost predicate AtMostOnce(s: State, o: nat, note: nat) {
    forall q, r :: s.delivered[Task(o, note, q)] <= 1
      && (s.delivered[Task(o, note, q)] > 0 && s.delivered[Task(o, note, r)] > 0 ==> q == r)
  }

  /** At most one call was made or is still to come. */
  ghost predicate Single(s: State, o: nat, note: nat) {
    forall q, r :: Count(s, o, note, q) <= 1 && (Count(s, o, note, q) > 0 && Count(s, o, note, r) > 0 ==> q == r)
  }

  lemma {:induction false} SingleStays(s: State, es: seq<Event>, o: nat, note: nat)
    requires AllEnabled(s, es) && !s.toAll && Single(s, o, note) && Sent(es, note) == 0
    ensures Single(Run(s, es), o, note)
    decreases |es|
  {
    if es != [] {
      var t := Step(s, es[0]);
      forall q
        ensures Count(t, o, note, q) <= Count(s, o, note, q)
      {
        CountStep(s, es[0], o, note, q);
      }
      SingleStays(t, es[1..], o, note);
    }
  }

  lemma {:induction false} NeverBecomesSingle(s: State, es: seq<Event>, o: nat, note: nat)
    requires AllEnabled(s, es) && !s.toAll && Never(s, o, note) && Sent(es, note) <= 1
    ensures Single(Run(s, es), o, note)
    decreases |es|
  {
    if es != [] {
      var t := Step(s, es[0]);
      forall q
        ensures Count(t, o, note, q)
             == if es[0] == Notify(note) && o in s.observers && s.observers[o] == q then 1 else 0
      {
        CountStep(s, es[0], o, note, q);
        assert Count(s, o, note, q) == 0;
      }
      if es[0] == Notify(note) {
        SingleStays(t, es[1..], o, note);
      } else {
        NeverBecomesSingle(t, es[1..], o, note);
      }
    }
  }

  lemma RunFirst(s: State, es: seq<Event>, t: State)
    requires es != [] && Enabled(s, es[0])
    requires AllEnabled(Step(s, es[0]), es[1..]) && Run(Step(s, es[0]), es[1..]) == t
    ensures AllEnabled(s, es) && Run(s, es) == t
  {
  }

  /** An observer is added, a notification is sent, and its task is run. */
  lemma CalledOnce(o: nat, note: nat, sequence: nat, thread: nat) returns (t: State)
    ensures var task := Task(o, note, sequence);
            var es := [Add(o, sequence, thread), Notify(note), Start(task, thread)];
            && AllEnabled(Init(true), es) && t == Run(Init(true), es) && t.toAll && o in t.observers
            && SlotOf(t, thread) == Some(Slot(true, note)) && t.delivered[task] == 1
  {
    var task := Task(o, note, sequence);
    var es := [Add(o, sequence, thread), Notify(note), Start(task, thread)];
    var s1 := Step(Init(true), es[0]);
    PostedCounts(s1.observers, note, task);
    var s2 := Step(s1, es[1]);
    t := Step(s2, es[2]);
    RunFirst(s2, es[2..], t);
    RunFirst(s1, es[1..], t);
    RunFirst(Init(true), es, t);
  }

  /** In its callback it takes itself off the list and puts itself back on. */
  lemma CalledAgain(s: State, o: nat, note: nat, sequence: nat, thread: nat)
    requires s.toAll && SlotOf(s, thread) == Some(Slot(true, note))
    ensures var task := Task(o, note, sequence);
            var es := [Remove(o), Add(o, sequence, thread), Start(task, thread)];
            AllEnabled(s, es) && Run(s, es).delivered[task] == s.delivered[task] + 1
  {
    var task := Task(o, note, sequence);
    var es := [Remove(o), Add(o, sequence, thread), Start(task, thread)];
    var s1 := Step(s, es[0]);
    var s2 := Step(s1, es[1]);
    assert task in s2.pending;
    var t := Step(s2, es[2]);
    RunFirst(s2, es[2..], t);
    RunFirst(s1, es[1..], t);
    RunFirst(s, es, t);
  }

  lemma {:induction false} RunAppend(s: State, a: seq<Event>, b: seq<Event>)
    requires AllEnabled(s, a) && AllEnabled(Run(s, a), b)
    ensures AllEnabled(s, a + b) && Run(s, a + b) == Run(Run(s, a), b)
    decreases |a|
  {
    if a == [] {
      assert a + b == b;
    } else {
      assert (a + b)[1..] == a[1..] + b;
      RunAppend(Step(s, a[0]), a[1..], b);
    }
  }

  /** An observer that takes itself off the list and puts itself back on in its own callback. */
  function Readding(o: nat, note: nat, sequence: nat, thread: nat): seq<Event> {
    var task := Task(o, note, sequence);
    [Add(o, sequence, thread), Notify(note), Start(task, thread)]
    + [Remove(o), Add(o, sequence, thread), Start(task, thread)]
  }

  /** Under ALL it is called twice for one notification. */
  lemma ReaddedIsCalledTwice(o: nat, note: nat, sequence: nat, thread: nat)
    ensures var es := Readding(o, note, sequence, thread);
            && AllEnabled(Init(true), es) && Sent(es, note) == 1
            && Run(Init(true), es).delivered[Task(o, note, sequence)] == 2
  {
    var task := Task(o, note, sequence);
    var once := CalledOnce(o, note, sequence, thread);
    CalledAgain(once, o, note, sequence, thread);
    RunAppend(Init(true), [Add(o, sequence, thread), Notify(note), Start(task, thread)],
              [Remove(o), Add(o, sequence, thread), Start(task, thread)]);
    SentOnce(Readding(o, note, sequence, thread), note);
  }

  lemma SentOnce(es: seq<Event>, note: nat)
    requires |es| == 6 && es[1] == Notify(note) && forall k :: 0 <= k < 6 && k != 1 ==> es[k] != Notify(note)
    ensures Sent(es, note) == 1
  {
    assert Sent(es[6..], note) == 0;
    assert Sent(es[5..], note) == 0;
    assert Sent(es[4..], note) == 0;
    assert Sent(es[3..], note) == 0;
    assert Sent(es[2..], note) == 0;
    assert Sent(es[1..], note) == 1;
  }

  /** In all runs every observer is called at most once for a notification that is sent once, exactly
      when observers added meanwhile are not to be notified. */
  lemma AtMostOnceExactly(toAll: bool)
    ensures !toAll
       <==> forall es, o, note ::
              AllEnabled(Init(toAll), es) && Sent(es, note) <= 1 ==> AtMostOnce(Run(Init(toAll), es), o, note)
  {
    if toAll {
      ReaddedIsCalledTwice(0, 0, 0, 0);
      assert !AtMostOnce(Run(Init(toAll), Readding(0, 0, 0, 0)), 0, 0);
    } else {
      forall es, o, note | AllEnabled(Init(toAll), es) && Sent(es, note) <= 1
        ensures AtMostOnce(Run(Init(toAll), es), o, note)
      {
        NeverBecomesSingle(Init(toAll), es, o, note);
        SingleDelivers(Run(Init(toAll), es), o, note);
      }
    }
  }

  lemma SingleDelivers(s: State, o: nat, note: nat)
    requires Single(s, o, note)
    ensures AtMostOnce(s, o, note)
  {
    forall q, r
      ensures s.delivered[Task(o, note, q)] <= 1
      ensures s.delivered[Task(o, note, q)] > 0 && s.delivered[Task(o, note, r)] > 0 ==> q == r
    {
      assert Count(s, o, note, q) <= 1 && (Count(s, o, note, q) > 0 && Count(s, o, note, r) > 0 ==> q == r);
    }
  }
}
