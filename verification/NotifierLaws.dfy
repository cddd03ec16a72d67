/** What single steps of the thread-safe observer list come to: who is registered, what a dispatch does
    to the slot of its thread, and that dispatches nest. */
module NotifierLaws {
  import opened Wrappers
  import opened NotifierSpec

  // ----- who is registered -----

  /** The sequence of the last addition of `o`, unless a removal came after it. */
  function LastAdded(es: seq<Event>, o: nat, before: Option<nat>): Option<nat>
    decreases |es|
  {
    if es == [] then before
    else match es[|es| - 1]
      case Add(p, sequence, _) => if p == o then Some(sequence) else LastAdded(es[..|es| - 1], o, before)
      case Remove(p) => if p == o then None else LastAdded(es[..|es| - 1], o, before)
      case _ => LastAdded(es[..|es| - 1], o, before)
  }

  function SequenceOf(s: State, o: nat): Option<nat> {
    if o in s.observers then Some(s.observers[o]) else None
  }

  lemma {:induction false} RunSnoc(s: State, es: seq<Event>, e: Event)
    requires AllEnabled(s, es + [e])
    ensures AllEnabled(s, es) && Enabled(Run(s, es), e) && Run(s, es + [e]) == Step(Run(s, es), e)
    decreases |es|
  {
    if es == [] {
      assert ([] + [e])[1..] == [];
    } else {
      assert (es + [e])[1..] == es[1..] + [e];
      RunSnoc(Step(s, es[0]), es[1..], e);
    }
  }

  lemma RegisteredStep(s: State, e: Event, o: nat)
    requires Enabled(s, e)
    ensures SequenceOf(Step(s, e), o)
         == match e
            case Add(p, sequence, _) => if p == o then Some(sequence) else SequenceOf(s, o)
            case Remove(p) => if p == o then None else SequenceOf(s, o)
            case _ => SequenceOf(s, o)
  {
  }

  /** Over any run an observer is registered, on the sequence of its last addition, exactly when no
      removal came after that. */
  lemma {:induction false} RegisteredExactly(s: State, es: seq<Event>, o: nat)
    requires AllEnabled(s, es)
    ensures SequenceOf(Run(s, es), o) == LastAdded(es, o, SequenceOf(s, o))
    decreases |es|
  {
    if es != [] {
      var n := |es| - 1;
      assert es == es[..n] + [es[n]];
      RunSnoc(s, es[..n], es[n]);
      RegisteredStep(Run(s, es[..n]), es[n], o);
      RegisteredExactly(s, es[..n], o);
    }
  }

  // ----- dispatches -----

  /** A task whose observer is registered is called, once, and the slot of its thread points to its
      notification meanwhile; a task whose observer is gone is dropped. */
  lemma TaskRuns(s: State, task: Task, thread: nat)
    requires task in s.pending
    ensures var t := Step(s, Start(task, thread));
            && t.pending[task] == s.pending[task] - 1 && t.observers == s.observers
            && if task.observer in s.observers then
                 && t.delivered[task] == s.delivered[task] + 1
                 && SlotOf(t, thread) == Some(Slot(true, task.note))
                 && |FramesOf(t, thread)| == |FramesOf(s, thread)| + 1
               else t.delivered == s.delivered && t.slots == s.slots && t.frames == s.frames
  {
  }

  /** A dispatch of another list takes the slot too, but no observer is caught up from there. */
  lemma OtherListsAreApart(s: State, thread: nat, note: nat, o: nat, sequence: nat)
    requires o !in s.observers
    ensures var t := Step(s, StartOther(thread, note));
            && SlotOf(t, thread) == Some(Slot(false, note)) && |FramesOf(t, thread)| == |FramesOf(s, thread)| + 1
            && Step(t, Add(o, sequence, thread)).pending == s.pending
  {
  }

  /** Nor from a thread that dispatches nothing. */
  lemma IdleThreadsAreApart(s: State, thread: nat, o: nat, sequence: nat)
    requires Nested(s) && FramesOf(s, thread) == [] && o !in s.observers
    ensures Step(s, Add(o, sequence, thread)).pending == s.pending
  {
    assert SlotOf(s, thread) == Innermost(FramesOf(s, thread));
  }

  /** Whether the event begins a dispatch on the thread. */
  predicate Opens(s: State, e: Event, thread: nat) {
    match e
    case Start(task, q) => q == thread && task.observer in s.observers
    case StartOther(q, _) => q == thread
    case _ => false
  }

  function Opened(s: State, es: seq<Event>, thread: nat): nat
    requires AllEnabled(s, es)
    decreases |es|
  {
    if es == [] then 0 else (if Opens(s, es[0], thread) then 1 else 0) + Opened(Step(s, es[0]), es[1..], thread)
  }

  function Finished(es: seq<Event>, thread: nat): nat {
    if es == [] then 0 else (if es[0] == Finish(thread) then 1 else 0) + Finished(es[1..], thread)
  }

  /** The dispatches in progress on a thread are those begun and not yet finished. */
  lemma {:induction false} DispatchesCount(s: State, es: seq<Event>, thread: nat)
    requires AllEnabled(s, es)
    ensures |FramesOf(Run(s, es), thread)| + Finished(es, thread) == |FramesOf(s, thread)| + Opened(s, es, thread)
    decreases |es|
  {
    if es != [] {
      FramesBelow(s, es[0], thread, 0);
      DispatchesCount(Step(s, es[0]), es[1..], thread);
    }
  }

  /** With `open` dispatches begun on the thread since the start, the rest of the run finishes as many
      as are open, and none that was in progress at the start. */
  predicate Balanced(s: State, es: seq<Event>, thread: nat, open: nat)
    requires AllEnabled(s, es)
    decreases |es|
  {
    if es == [] then open == 0
    else if Opens(s, es[0], thread) then Balanced(Step(s, es[0]), es[1..], thread, open + 1)
    else if es[0] == Finish(thread) then open > 0 && Balanced(Step(s, es[0]), es[1..], thread, open - 1)
    else Balanced(Step(s, es[0]), es[1..], thread, open)
  }

  lemma BeginPushes(s: State, thread: nat, slot: Slot)
    ensures var f, g := FramesOf(s, thread), FramesOf(Begin(s, thread, slot), thread);
            |g| == |f| + 1 && g[..|f|] == f
    ensures forall q :: q != thread ==> FramesOf(Begin(s, thread, slot), q) == FramesOf(s, q)
  {
  }

  lemma FramesKept(s: State, e: Event, thread: nat)
    requires Enabled(s, e) && !Opens(s, e, thread) && e != Finish(thread)
    ensures FramesOf(Step(s, e), thread) == FramesOf(s, thread)
  {
  }

  lemma FramesPushed(s: State, e: Event, thread: nat)
    requires Enabled(s, e) && Opens(s, e, thread)
    ensures var f, g := FramesOf(s, thread), FramesOf(Step(s, e), thread); |g| == |f| + 1 && g[..|f|] == f
  {
    match e
    case Start(task, _) =>
      var t := s.(pending := s.pending - multiset{task}, delivered := s.delivered + multiset{task});
      BeginPushes(t, thread, Slot(true, task.note));
    case StartOther(_, note) => BeginPushes(s, thread, Slot(false, note));
  }

  lemma FramesBelow(s: State, e: Event, thread: nat, height: nat)
    requires Enabled(s, e) && height <= |FramesOf(s, thread)| && (e == Finish(thread) ==> height < |FramesOf(s, thread)|)
    ensures var f, g := FramesOf(s, thread), FramesOf(Step(s, e), thread);
            && |g| == |f| + (if Opens(s, e, thread) then 1 else 0) - (if e == Finish(thread) then 1 else 0)
            && g[..height] == f[..height]
  {
    var f, g := FramesOf(s, thread), FramesOf(Step(s, e), thread);
    if Opens(s, e, thread) {
      FramesPushed(s, e, thread);
      assert g[..height] == g[..|f|][..height];
    } else if e == Finish(thread) {
      assert g == f[..|f| - 1];
    } else {
      FramesKept(s, e, thread);
    }
  }

  lemma {:induction false} FramesStay(s: State, es: seq<Event>, thread: nat, open: nat)
    requires AllEnabled(s, es) && open <= |FramesOf(s, thread)| && Balanced(s, es, thread, open)
    ensures var f := FramesOf(s, thread); FramesOf(Run(s, es), thread) == f[..|f| - open]
    decreases |es|
  {
    var f := FramesOf(s, thread);
    if es == [] {
      assert f[..|f|] == f;
    } else {
      var height := |f| - open;
      FramesBelow(s, es[0], thread, height);
      FramesStay(Step(s, es[0]), es[1..], thread,
                 if Opens(s, es[0], thread) then open + 1 else if es[0] == Finish(thread) then open - 1 else open);
      var g := FramesOf(Step(s, es[0]), thread);
      assert g[..height] == f[..height];
    }
  }

  /** Dispatches nest: a run that finishes the dispatches it begins on a thread, and no others, leaves
      the slot of the thread as it was, whatever the callbacks and the other threads did. */
  lemma NestingRestoresSlot(s: State, es: seq<Event>, thread: nat)
    requires Nested(s) && AllEnabled(s, es) && Balanced(s, es, thread, 0)
    ensures FramesOf(Run(s, es), thread) == FramesOf(s, thread) && SlotOf(Run(s, es), thread) == SlotOf(s, thread)
  {
    var f := FramesOf(s, thread);
    FramesStay(s, es, thread, 0);
    assert f[..|f|] == f;
    SlotIsRestored(s, es, thread);
  }
}
