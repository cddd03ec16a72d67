/** Create-once instances shared by any number of threads, and their destruction at exit.

    Each atomic access to a state word is one step, and steps of different threads interleave
    freely.  Besides the words and the exit stack, the state keeps logs of what creators built,
    what calls returned and what was destroyed; a generation counts the destructions of an
    instance, so that an instance created again after exit is a new one. */
module LazyInstances {

  type Thread = nat
  type Instance = nat

  /** `kLazyInstanceStateCreating`. */
  const CREATING := 1

  /** The created mask: a word with any other bit set holds a pointer. */
  predicate IsPointer(w: int) {
    w != 0 && w != CREATING
  }

  /** Where a thread is in `GetOrCreateLazyPointer`, named after the access it is about to make. */
  datatype PC =
    | Idle
    | FastLoad(i: Instance)
    | Swap(i: Instance)
    | Spin(i: Instance)
    | Create(i: Instance)
    | Publish(i: Instance, p: int)
    | Register(i: Instance, p: int)
    | Reload(i: Instance)
    | Return(i: Instance, p: int)

  datatype Entry = Entry(i: Instance, generation: nat, p: int)

  datatype State = State(
    leaky: set<Instance>,
    words: map<Instance, int>,
    threads: map<Thread, PC>,
    generations: map<Instance, nat>,
    exitStack: seq<Instance>,
    created: seq<Entry>,
    returned: seq<Entry>,
    destroyed: seq<Entry>)

  function Word(s: State, i: Instance): int {
    if i in s.words then s.words[i] else 0
  }

  function At(s: State, t: Thread): PC {
    if t in s.threads then s.threads[t] else Idle
  }

  function Generation(s: State, i: Instance): nat {
    if i in s.generations then s.generations[i] else 0
  }

  function Start(leaky: set<Instance>): State {
    State(leaky, map[], map[], map[], [], [], [], [])
  }

  datatype Action =
    | Call(t: Thread, i: Instance)
    | Go(t: Thread)
    | Construct(t: Thread, p: int)
    | Exit

  /** A thread calls when it is idle, takes its next access otherwise, and builds when it holds the
      word; exit runs when no thread is inside a call. */
  ghost predicate Enabled(s: State, a: Action) {
    match a
    case Call(t, _) => At(s, t).Idle?
    case Go(t) => !At(s, t).Idle? && !At(s, t).Create?
    case Construct(t, _) => At(s, t).Create?
    case Exit => forall t :: At(s, t).Idle?
  }

  function Goto(s: State, t: Thread, pc: PC): State {
    s.(threads := s.threads[t := pc])
  }

  /** The next access of a thread that is inside a call. */
  function Advance(s: State, t: Thread): State {
    match At(s, t)
    case FastLoad(i) =>
      Goto(s, t, if IsPointer(Word(s, i)) then Return(i, Word(s, i)) else Swap(i))
    case Swap(i) =>
      if Word(s, i) == 0 then Goto(s, t, Create(i)).(words := s.words[i := CREATING])
      else Goto(s, t, Spin(i))
    case Spin(i) =>
      if Word(s, i) == CREATING then s else Goto(s, t, Reload(i))
    case Publish(i, p) =>
      Goto(s, t, Register(i, p)).(words := s.words[i := p])
    case Register(i, p) =>
      Goto(s, t, Return(i, p)).(exitStack := s.exitStack + if p != 0 && i !in s.leaky then [i] else [])
    case Reload(i) =>
      Goto(s, t, Return(i, Word(s, i)))
    case Return(i, p) =>
      Goto(s, t, Idle).(returned := s.returned + [Entry(i, Generation(s, i), p)])
    case _ => s
  }

  /** `OnExit` for one instance. */
  function OnExit(s: State, i: Instance): State {
    s.(words := s.words[i := 0],
       generations := s.generations[i := Generation(s, i) + 1],
       destroyed := s.destroyed + [Entry(i, Generation(s, i), Word(s, i))])
  }

  /** `OnExit` for the instances of a stack, last registered first. */
  function Destroyed(s: State, stack: seq<Instance>): State
    decreases |stack|
  {
    if stack == [] then s else Destroyed(OnExit(s, stack[|stack| - 1]), stack[..|stack| - 1])
  }

  function Step(s: State, a: Action): State {
    match a
    case Call(t, i) => Goto(s, t, FastLoad(i))
    case Go(t) => Advance(s, t)
    case Construct(t, p) =>
      if At(s, t).Create? then
        var i := At(s, t).i;
        Goto(s, t, Publish(i, p)).(created := s.created + [Entry(i, Generation(s, i), p)])
      else s
    case Exit => Destroyed(s.(exitStack := []), s.exitStack)
  }

  /** The creators that the main results are about return a pointer. */
  predicate Builds(a: Action) {
    a.Construct? ==> IsPointer(a.p)
  }

  // ----- the invariant -----

  predicate Holds(pc: PC, i: Instance) {
    (pc.Create? || pc.Publish?) && pc.i == i
  }

  predicate Registering(pc: PC, i: Instance) {
    pc.Register? && pc.i == i
  }

  ghost predicate Free(s: State, i: Instance) {
    && (forall t :: !Holds(At(s, t), i) && !Registering(At(s, t), i))
    && (forall k :: 0 <= k < |s.created| ==> !(s.created[k].i == i && s.created[k].generation >= Generation(s, i)))
    && i !in s.exitStack
  }

  /** The word is held by exactly one thread, which has built the instance once it is publishing. */
  ghost predicate Held(s: State, i: Instance) {
    && (exists t :: Holds(At(s, t), i))
    && (forall t, u :: Holds(At(s, t), i) && Holds(At(s, u), i) ==> t == u)
    && (forall t :: !Registering(At(s, t), i))
    && (forall t :: At(s, t).Create? && At(s, t).i == i ==>
          forall k :: 0 <= k < |s.created| ==> !(s.created[k].i == i && s.created[k].generation >= Generation(s, i)))
    && (forall t :: At(s, t).Publish? && At(s, t).i == i ==>
          IsPointer(At(s, t).p) && BuiltOnce(s, Entry(i, Generation(s, i), At(s, t).p)))
    && i !in s.exitStack
  }

  /** The word holds the pointer built in this generation, and its destructor is registered, or
      about to be by exactly one thread. */
  ghost predicate Ready(s: State, i: Instance) {
    && BuiltOnce(s, Entry(i, Generation(s, i), Word(s, i)))
    && (forall t :: !Holds(At(s, t), i))
    && (forall t, u :: Registering(At(s, t), i) && Registering(At(s, u), i) ==> t == u)
    && (forall t :: Registering(At(s, t), i) ==> i !in s.exitStack)
    && (i !in s.leaky && (forall t :: !Registering(At(s, t), i)) ==> i in s.exitStack)
    && (i in s.leaky ==> i !in s.exitStack)
  }

  ghost predicate BuiltOnce(s: State, e: Entry) {
    && (exists k :: 0 <= k < |s.created| && s.created[k] == e)
    && (forall k :: 0 <= k < |s.created| && s.created[k].i == e.i ==> s.created[k].generation <= e.generation)
  }

  ghost predicate WordInv(s: State, i: Instance) {
    if Word(s, i) == 0 then Free(s, i) else if Word(s, i) == CREATING then Held(s, i) else Ready(s, i)
  }

  /** What a thread past the word may rely on. */
  predicate ThreadInv(s: State, pc: PC) {
    match pc
    case Register(i, p) => p == Word(s, i) && IsPointer(p)
    case Reload(i) => IsPointer(Word(s, i))
    case Return(i, p) => p == Word(s, i) && IsPointer(p)
    case Spin(i) => Word(s, i) != 0
    case _ => true
  }

  ghost predicate DistinctGenerations(log: seq<Entry>) {
    forall j, k :: 0 <= j < k < |log| ==> !(log[j].i == log[k].i && log[j].generation == log[k].generation)
  }

  ghost predicate Inv(s: State) {
    && (forall i :: WordInv(s, i))
    && (forall t :: ThreadInv(s, At(s, t)))
    && DistinctGenerations(s.created)
    && (forall e :: e in s.created ==> IsPointer(e.p))
    && (forall e :: e in s.returned ==> e in s.created)
    && (forall e :: e in s.destroyed ==> e in s.created && e.generation < Generation(s, e.i))
    && DistinctGenerations(s.destroyed)
    && (forall j, k :: 0 <= j < k < |s.exitStack| ==> s.exitStack[j] != s.exitStack[k])
  }

  lemma StartIsGood(leaky: set<Instance>)
    ensures Inv(Start(leaky))
  {
  }

  // ----- every step keeps it -----

  /** What one thread does to one instance leaves the invariant of the others alone. */
  lemma Frame(s: State, t: State, th: Thread, j: Instance)
    requires WordInv(s, j)
    requires forall u :: u != th ==> At(t, u) == At(s, u)
    requires !Holds(At(s, th), j) && !Registering(At(s, th), j)
    requires !Holds(At(t, th), j) && !Registering(At(t, th), j)
    requires Word(t, j) == Word(s, j) && Generation(t, j) == Generation(s, j) && t.leaky == s.leaky
    requires t.created == s.created || exists e: Entry :: e.i != j && t.created == s.created + [e]
    requires j in t.exitStack <==> j in s.exitStack
    ensures WordInv(t, j)
  {
    CreatedFrame(s, t, j);
    if Word(s, j) == CREATING {
      var h :| Holds(At(s, h), j);
      assert Holds(At(t, h), j);
    }
  }

  lemma CreatedFrame(s: State, t: State, j: Instance)
    requires t.created == s.created || exists e: Entry :: e.i != j && t.created == s.created + [e]
    ensures forall k :: 0 <= k < |s.created| ==> k < |t.created| && t.created[k] == s.created[k]
    ensures forall k :: 0 <= k < |t.created| && t.created[k].i == j ==> k < |s.created| && s.created[k] == t.created[k]
    ensures forall e: Entry :: e.i == j ==> (BuiltOnce(s, e) <==> BuiltOnce(t, e))
  {
    forall e: Entry | e.i == j ensures BuiltOnce(s, e) <==> BuiltOnce(t, e) {
      if BuiltOnce(s, e) {
        var k :| 0 <= k < |s.created| && s.created[k] == e;
        assert t.created[k] == e;
      }
      if BuiltOnce(t, e) {
        var k :| 0 <= k < |t.created| && t.created[k] == e;
        assert s.created[k] == e;
        forall m | 0 <= m < |s.created| && s.created[m].i == j ensures s.created[m].generation <= e.generation {
          assert t.created[m] == s.created[m];
        }
      }
    }
  }

  /** A move that changes only where a thread is, between places outside creation. */
  lemma MoveKeepsInv(s: State, th: Thread, pc: PC)
    requires Inv(s) && ThreadInv(s, pc)
    requires forall i :: !Holds(At(s, th), i) && !Registering(At(s, th), i)
    requires forall i :: !Holds(pc, i) && !Registering(pc, i)
    ensures Inv(Goto(s, th, pc))
  {
    var t := Goto(s, th, pc);
    forall j ensures WordInv(t, j) {
      assert WordInv(s, j);
      Frame(s, t, th, j);
    }
    forall u ensures ThreadInv(t, At(t, u)) {
      assert ThreadInv(s, At(s, u));
    }
  }

  lemma SwapKeepsInv(s: State, th: Thread)
    requires Inv(s) && At(s, th).Swap?
    ensures Inv(Advance(s, th))
  {
    var i := At(s, th).i;
    var t := Advance(s, th);
    if Word(s, i) == 0 {
      assert forall u: Thread :: u != th ==> At(t, u) == At(s, u);
      forall j ensures WordInv(t, j) {
        assert WordInv(s, j);
        if j == i {
          assert Holds(At(t, th), i);
        } else {
          Frame(s, t, th, j);
        }
      }
      forall u ensures ThreadInv(t, At(t, u)) {
        assert ThreadInv(s, At(s, u));
      }
    } else {
      MoveKeepsInv(s, th, PC.Spin(i));
    }
  }

  lemma ConstructKeepsInv(s: State, th: Thread, p: int)
    requires Inv(s) && At(s, th).Create? && IsPointer(p)
    ensures Inv(Step(s, Construct(th, p)))
  {
    var i := At(s, th).i;
    var t := Step(s, Construct(th, p));
    var e := Entry(i, Generation(s, i), p);
    assert WordInv(s, i);
    HolderMakesHeld(s, th, i);
    assert t.created == s.created + [e];
    assert forall u: Thread :: u != th ==> At(t, u) == At(s, u);
    forall j ensures WordInv(t, j) {
      assert WordInv(s, j);
      if j == i {
        assert Holds(At(t, th), i);
        assert BuiltOnce(t, e) by {
          assert t.created[|s.created|] == e;
        }
      } else {
        Frame(s, t, th, j);
      }
    }
    forall u ensures ThreadInv(t, At(t, u)) {
      assert ThreadInv(s, At(s, u));
    }
    forall r | r in s.returned ensures r in t.created {
      assert r in s.created;
    }
    forall r | r in s.destroyed ensures r in t.created {
      assert r in s.created;
    }
  }

  /** Only a held word has a holder. */
  lemma HolderMakesHeld(s: State, th: Thread, i: Instance)
    requires WordInv(s, i) && Holds(At(s, th), i)
    ensures Word(s, i) == CREATING && Held(s, i)
  {
  }

  lemma PublishKeepsInv(s: State, th: Thread)
    requires Inv(s) && At(s, th).Publish?
    ensures Inv(Advance(s, th))
  {
    var i, p := At(s, th).i, At(s, th).p;
    var t := Advance(s, th);
    assert WordInv(s, i);
    HolderMakesHeld(s, th, i);
    assert forall u: Thread :: u != th ==> At(t, u) == At(s, u);
    forall j ensures WordInv(t, j) {
      assert WordInv(s, j);
      if j == i {
        assert Registering(At(t, th), i);
        var e := Entry(i, Generation(s, i), p);
        assert BuiltOnce(s, e);
        var k :| 0 <= k < |s.created| && s.created[k] == e;
        assert t.created[k] == e;
      } else {
        Frame(s, t, th, j);
      }
    }
    forall u ensures ThreadInv(t, At(t, u)) {
      assert ThreadInv(s, At(s, u));
    }
  }

  lemma RegisterKeepsInv(s: State, th: Thread)
    requires Inv(s) && At(s, th).Register?
    ensures Inv(Advance(s, th))
  {
    var i, p := At(s, th).i, At(s, th).p;
    var t := Advance(s, th);
    assert ThreadInv(s, At(s, th)) && Registering(At(s, th), i);
    assert WordInv(s, i);
    assert Ready(s, i);
    assert forall u: Thread :: u != th ==> At(t, u) == At(s, u);
    forall j ensures WordInv(t, j) {
      assert WordInv(s, j);
      if j == i {
        var e := Entry(i, Generation(s, i), Word(s, i));
        var k :| 0 <= k < |s.created| && s.created[k] == e;
        assert t.created[k] == e;
        assert i !in s.leaky ==> t.exitStack[|s.exitStack|] == i;
      } else {
        Frame(s, t, th, j);
      }
    }
    forall u ensures ThreadInv(t, At(t, u)) {
      assert ThreadInv(s, At(s, u));
    }
  }

  /** A pointer in the word was built in this generation. */
  lemma WordWasBuilt(s: State, i: Instance)
    requires WordInv(s, i) && IsPointer(Word(s, i))
    ensures Entry(i, Generation(s, i), Word(s, i)) in s.created
  {
    var k :| 0 <= k < |s.created| && s.created[k] == Entry(i, Generation(s, i), Word(s, i));
  }

  lemma ReturnKeepsInv(s: State, th: Thread)
    requires Inv(s) && At(s, th).Return?
    ensures Inv(Advance(s, th))
  {
    var i, p := At(s, th).i, At(s, th).p;
    assert ThreadInv(s, At(s, th)) && WordInv(s, i);
    WordWasBuilt(s, i);
    MoveKeepsInv(s, th, Idle);
    var moved, t := Goto(s, th, Idle), Advance(s, th);
    forall j ensures WordInv(t, j) {
      assert WordInv(moved, j);
      Frame(moved, t, th, j);
    }
    forall u ensures ThreadInv(t, At(t, u)) {
      assert ThreadInv(moved, At(moved, u));
    }
  }

  lemma GoKeepsInv(s: State, th: Thread)
    requires Inv(s) && Enabled(s, Go(th))
    ensures Inv(Step(s, Go(th)))
  {
    assert ThreadInv(s, At(s, th));
    match At(s, th)
    case FastLoad(i) => MoveKeepsInv(s, th, if IsPointer(Word(s, i)) then Return(i, Word(s, i)) else Swap(i));
    case Swap(i) => SwapKeepsInv(s, th);
    case Spin(i) =>
      if Word(s, i) != CREATING {
        MoveKeepsInv(s, th, Reload(i));
      }
    case Publish(i, p) => PublishKeepsInv(s, th);
    case Register(i, p) => RegisterKeepsInv(s, th);
    case Reload(i) => MoveKeepsInv(s, th, Return(i, Word(s, i)));
    case Return(i, p) => ReturnKeepsInv(s, th);
    case _ =>
  }

  // ----- exit -----

  ghost predicate AllIdle(s: State) {
    forall t :: At(s, t).Idle?
  }

  lemma OnExitKeepsWords(s: State, stack: seq<Instance>, j: Instance)
    requires stack != [] && Inv(s.(exitStack := stack)) && AllIdle(s)
    ensures var i, rest := stack[|stack| - 1], stack[..|stack| - 1];
            WordInv(OnExit(s, i).(exitStack := rest), j)
  {
    var i, rest := stack[|stack| - 1], stack[..|stack| - 1];
    var before, after := s.(exitStack := stack), OnExit(s, i).(exitStack := rest);
    assert forall u: Thread :: At(after, u) == At(before, u) == At(s, u);
    assert WordInv(before, j);
    if j == i {
      assert i in stack;
    } else {
      assert At(s, 0).Idle?;
      assert stack == rest + [i];
      Frame(before, after, 0, j);
    }
  }

  lemma OnExitKeepsInv(s: State, stack: seq<Instance>)
    requires stack != [] && Inv(s.(exitStack := stack)) && AllIdle(s)
    ensures var i, rest := stack[|stack| - 1], stack[..|stack| - 1];
            IsPointer(Word(s, i)) && Inv(OnExit(s, i).(exitStack := rest)) && AllIdle(OnExit(s, i))
  {
    var i, rest := stack[|stack| - 1], stack[..|stack| - 1];
    var before, after := s.(exitStack := stack), OnExit(s, i).(exitStack := rest);
    assert WordInv(before, i) && i in stack;
    assert Ready(before, i);
    WordWasBuilt(before, i);
    forall j ensures WordInv(after, j) {
      OnExitKeepsWords(s, stack, j);
    }
    forall u ensures At(OnExit(s, i), u).Idle? && At(after, u).Idle? {
      assert At(s, u).Idle?;
    }
  }

  /** The log of a stack unwound: last registered, first destroyed. */
  function Unwound(s: State, stack: seq<Instance>): seq<Entry>
    decreases |stack|
  {
    if stack == [] then []
    else
      var i := stack[|stack| - 1];
      [Entry(i, Generation(s, i), Word(s, i))] + Unwound(s, stack[..|stack| - 1])
  }

  lemma {:induction false} UnwoundSame(s: State, t: State, stack: seq<Instance>)
    requires forall i :: i in stack ==> Word(t, i) == Word(s, i) && Generation(t, i) == Generation(s, i)
    ensures Unwound(t, stack) == Unwound(s, stack)
    decreases |stack|
  {
    if stack != [] {
      UnwoundSame(s, t, stack[..|stack| - 1]);
    }
  }

  lemma {:induction false} ExitKeepsInv(s: State, stack: seq<Instance>)
    requires Inv(s.(exitStack := stack)) && s.exitStack == [] && AllIdle(s)
    ensures Inv(Destroyed(s, stack)) && AllIdle(Destroyed(s, stack))
    decreases |stack|
  {
    if stack == [] {
      assert s == s.(exitStack := stack);
    } else {
      OnExitKeepsInv(s, stack);
      ExitKeepsInv(OnExit(s, stack[|stack| - 1]), stack[..|stack| - 1]);
    }
  }

  /** Processing the exit stack destroys each of its instances once, in reverse order of
      registration, leaves their words at 0, and touches no other word. */
  lemma {:induction false} ExitDestroys(s: State, stack: seq<Instance>)
    requires forall j, k :: 0 <= j < k < |stack| ==> stack[j] != stack[k]
    ensures var t := Destroyed(s, stack);
            && t.destroyed == s.destroyed + Unwound(s, stack)
            && t.exitStack == s.exitStack && t.created == s.created && t.leaky == s.leaky
            && (forall i :: Word(t, i) == if i in stack then 0 else Word(s, i))
            && (forall i :: Generation(t, i) == Generation(s, i) + if i in stack then 1 else 0)
    decreases |stack|
  {
    if stack == [] {
      assert s.destroyed + [] == s.destroyed;
    } else {
      var i, rest := stack[|stack| - 1], stack[..|stack| - 1];
      var next := OnExit(s, i);
      ExitDestroys(next, rest);
      assert stack == rest + [i];
      assert i !in rest;
      UnwoundSame(s, next, rest);
      var e := [Entry(i, Generation(s, i), Word(s, i))];
      assert (s.destroyed + e) + Unwound(s, rest) == s.destroyed + (e + Unwound(s, rest));
    }
  }

  lemma ExitStep(s: State)
    requires Inv(s) && AllIdle(s)
    ensures var t := Step(s, Exit);
            && Inv(t) && t.exitStack == [] && t.leaky == s.leaky
            && t.destroyed == s.destroyed + Unwound(s, s.exitStack)
            && (forall i :: Word(t, i) == if i in s.exitStack then 0 else Word(s, i))
  {
    var cleared := s.(exitStack := []);
    assert s == cleared.(exitStack := s.exitStack);
    forall u ensures At(cleared, u).Idle? {
      assert At(s, u).Idle?;
    }
    ExitKeepsInv(cleared, s.exitStack);
    ExitDestroys(cleared, s.exitStack);
    UnwoundSame(s, cleared, s.exitStack);
  }

  // ----- runs -----

  lemma StepKeepsInv(s: State, a: Action)
    requires Inv(s) && Enabled(s, a) && Builds(a)
    ensures Inv(Step(s, a))
  {
    match a
    case Call(t, i) => MoveKeepsInv(s, t, FastLoad(i));
    case Go(t) => GoKeepsInv(s, t);
    case Construct(t, p) => ConstructKeepsInv(s, t, p);
    case Exit => ExitStep(s);
  }

  function Run(s: State, actions: seq<Action>): State
    decreases |actions|
  {
    if actions == [] then s else Run(Step(s, actions[0]), actions[1..])
  }

  ghost predicate Runs(s: State, actions: seq<Action>)
    decreases |actions|
  {
    actions == [] || (Enabled(s, actions[0]) && Runs(Step(s, actions[0]), actions[1..]))
  }

  predicate AllBuild(actions: seq<Action>) {
    forall k :: 0 <= k < |actions| ==> Builds(actions[k])
  }

  lemma {:induction false} RunKeepsInv(s: State, actions: seq<Action>)
    requires Inv(s) && Runs(s, actions) && AllBuild(actions)
    ensures Inv(Run(s, actions))
    decreases |actions|
  {
    if actions != [] {
      StepKeepsInv(s, actions[0]);
      RunKeepsInv(Step(s, actions[0]), actions[1..]);
    }
  }

  /** The promise, over every interleaving of any number of threads: in each generation a creator
      runs at most once, every call returns the one pointer it built, an instance is destroyed at
      most once, and nothing is registered for destruction twice. */
  lemma CreatedOnce(leaky: set<Instance>, actions: seq<Action>)
    requires Runs(Start(leaky), actions) && AllBuild(actions)
    ensures var s := Run(Start(leaky), actions);
            && DistinctGenerations(s.created)
            && DistinctGenerations(s.destroyed)
            && (forall e :: e in s.returned ==> e in s.created && IsPointer(e.p))
            && (forall e, f :: e in s.returned && f in s.returned && e.i == f.i && e.generation == f.generation ==> e.p == f.p)
            && (forall e :: e in s.destroyed ==> e in s.created)
            && (forall j, k :: 0 <= j < k < |s.exitStack| ==> s.exitStack[j] != s.exitStack[k])
  {
    StartIsGood(leaky);
    RunKeepsInv(Start(leaky), actions);
  }

  /** A word only ever goes from 0 to creating to a pointer, and back to 0 at exit. */
  lemma WordMoves(s: State, a: Action, i: Instance)
    requires Inv(s) && Enabled(s, a) && Builds(a)
    ensures var w, w' := Word(s, i), Word(Step(s, a), i);
            || w' == w
            || (w == 0 && w' == CREATING)
            || (w == CREATING && IsPointer(w'))
            || (a == Exit && IsPointer(w) && w' == 0 && i in s.exitStack)
  {
    assert WordInv(s, i);
    match a
    case Go(t) =>
      assert ThreadInv(s, At(s, t));
      if At(s, t).Publish? && At(s, t).i == i {
        HolderMakesHeld(s, t, i);
      }
    case Exit =>
      ExitStep(s);
      assert i in s.exitStack ==> Ready(s, i);
    case _ =>
  }

  /** A word being created is never stuck: one thread holds it, and with whatever pointer its
      creator returns, at most two steps of that thread alone put a pointer there. */
  lemma HolderFinishes(s: State, i: Instance, p: int) returns (t: Thread, steps: seq<Action>)
    requires Inv(s) && Word(s, i) == CREATING && IsPointer(p)
    ensures Holds(At(s, t), i) && |steps| <= 2 && Runs(s, steps) && AllBuild(steps)
    ensures forall k :: 0 <= k < |steps| ==> steps[k] == Go(t) || steps[k] == Construct(t, p)
    ensures IsPointer(Word(Run(s, steps), i))
  {
    assert WordInv(s, i);
    t :| Holds(At(s, t), i);
    if At(s, t).Create? {
      var mid := Step(s, Construct(t, p));
      steps := [Construct(t, p), Go(t)];
      assert At(mid, t) == Publish(i, p);
      assert steps[1..] == [Go(t)] && [Go(t)][1..] == [];
      assert Run(s, steps) == Run(mid, [Go(t)]) == Step(mid, Go(t));
      assert Runs(mid, [Go(t)]);
    } else {
      steps := [Go(t)];
      assert steps[1..] == [];
      assert Run(s, steps) == Step(s, Go(t));
    }
  }

  /** With no call under way, exactly the instances that exist and are not leaky are registered;
      so exit destroys each of them once, the last registered first, and leaves their words at 0. */
  lemma ExitCleansUp(leaky: set<Instance>, actions: seq<Action>)
    requires Runs(Start(leaky), actions) && AllBuild(actions)
    requires AllIdle(Run(Start(leaky), actions))
    ensures var s := Run(Start(leaky), actions);
            var t := Step(s, Exit);
            && (forall i :: i in s.exitStack <==> IsPointer(Word(s, i)) && i !in s.leaky)
            && t.destroyed == s.destroyed + Unwound(s, s.exitStack)
            && (forall i :: Word(t, i) == if i in s.leaky then Word(s, i) else 0)
            && Inv(t)
  {
    var s := Run(Start(leaky), actions);
    StartIsGood(leaky);
    RunKeepsInv(Start(leaky), actions);
    forall i ensures i in s.exitStack <==> IsPointer(Word(s, i)) && i !in s.leaky {
      assert WordInv(s, i);
      forall u ensures !Registering(At(s, u), i) && !Holds(At(s, u), i) {
        assert At(s, u).Idle?;
      }
    }
    forall i ensures Word(s, i) == 0 || IsPointer(Word(s, i)) {
      assert WordInv(s, i);
      forall u ensures !Holds(At(s, u), i) {
        assert At(s, u).Idle?;
      }
    }
    ExitStep(s);
  }

  // ----- creators that return no pointer -----

  predicate BuildsFrom(a: Action, results: set<int>) {
    a.Construct? ==> a.p in results
  }

  /** One thread making one call, whose creator returns `p`. */
  function LoneCall(p: int): seq<Action> {
    [Call(0, 0), Go(0), Go(0), Construct(0, p), Go(0), Go(0), Go(0)]
  }

  lemma LoneCallReturns(p: int)
    ensures Runs(Start({}), LoneCall(p))
    ensures Entry(0, 0, p) in Run(Start({}), LoneCall(p)).returned
  {
    var a := LoneCall(p);
    var s1 := Step(Start({}), a[0]);
    assert At(s1, 0) == FastLoad(0);
    var s2 := Step(s1, a[1]);
    assert At(s2, 0) == Swap(0);
    var s3 := Step(s2, a[2]);
    assert At(s3, 0) == Create(0);
    LoneCallFinishes(s3, p);
    RunsFrom(Start({}), a);
    RunsFrom(s1, a[1..]);
    RunsFrom(s2, a[1..][1..]);
    assert a[1..][1..][1..] == [Construct(0, p), Go(0), Go(0), Go(0)];
  }

  lemma LoneCallFinishes(s: State, p: int)
    requires At(s, 0) == Create(0) && Generation(s, 0) == 0
    ensures var a := [Construct(0, p), Go(0), Go(0), Go(0)];
            Runs(s, a) && Entry(0, 0, p) in Run(s, a).returned
  {
    var a := [Construct(0, p), Go(0), Go(0), Go(0)];
    var s4 := Step(s, a[0]);
    assert At(s4, 0) == Publish(0, p);
    var s5 := Step(s4, a[1]);
    assert At(s5, 0) == Register(0, p);
    var s6 := Step(s5, a[2]);
    assert At(s6, 0) == Return(0, p);
    var s7 := Step(s6, a[3]);
    assert s7.returned == s.returned + [Entry(0, 0, p)];
    RunsFrom(s, a);
    RunsFrom(s4, a[1..]);
    RunsFrom(s5, a[1..][1..]);
    RunsFrom(s6, a[1..][1..][1..]);
    assert a[1..][1..][1..][1..] == [];
  }

  lemma RunsFrom(s: State, actions: seq<Action>)
    requires actions != [] && Enabled(s, actions[0])
    ensures Run(s, actions) == Run(Step(s, actions[0]), actions[1..])
    ensures Runs(s, actions) <==> Runs(Step(s, actions[0]), actions[1..])
  {
  }

  ghost predicate RunsWith(leaky: set<Instance>, actions: seq<Action>, results: set<int>) {
    Runs(Start(leaky), actions) && forall k :: 0 <= k < |actions| ==> BuildsFrom(actions[k], results)
  }

  /** All calls in all runs return pointers exactly when all results of creators are pointers. */
  lemma CallsReturnPointers(results: set<int>)
    ensures (forall p :: p in results ==> IsPointer(p))
       <==> forall leaky, actions, e ::
              RunsWith(leaky, actions, results) && e in Run(Start(leaky), actions).returned ==> IsPointer(e.p)
  {
    if forall p :: p in results ==> IsPointer(p) {
      forall leaky, actions, e | RunsWith(leaky, actions, results) && e in Run(Start(leaky), actions).returned
        ensures IsPointer(e.p)
      {
        forall k | 0 <= k < |actions| ensures Builds(actions[k]) {
          assert BuildsFrom(actions[k], results);
        }
        CreatedOnce(leaky, actions);
      }
    } else {
      var p :| p in results && !IsPointer(p);
      LoneCallReturns(p);
      assert RunsWith({}, LoneCall(p), results);
      assert !IsPointer(Entry(0, 0, p).p);
    }
  }

  // ----- exactly which results keep creation unique -----

  predicate NonZero(a: Action) {
    a.Construct? ==> a.p != 0
  }

  /** What creating once needs of an instance: at most one thread holds the word, and while the word
      is free, or its holder has yet to build, nothing has been built in this generation. */
  ghost predicate Reserved(s: State, i: Instance) {
    && (forall t, u :: Holds(At(s, t), i) && Holds(At(s, u), i) ==> t == u)
    && (forall t :: Holds(At(s, t), i) ==> Word(s, i) == CREATING)
    && (forall t :: At(s, t).Publish? && At(s, t).i == i ==> At(s, t).p != 0)
    && (forall k :: 0 <= k < |s.created| && s.created[k].i == i ==> s.created[k].generation <= Generation(s, i))
    && (Word(s, i) == 0 || (exists t :: At(s, t) == Create(i)) ==> Unbuilt(s, i))
  }

  ghost predicate Unbuilt(s: State, i: Instance) {
    forall k :: 0 <= k < |s.created| && s.created[k].i == i ==> s.created[k].generation < Generation(s, i)
  }

  ghost predicate Unique(s: State) {
    (forall i :: Reserved(s, i)) && DistinctGenerations(s.created)
  }

  /** A thread's step leaves the instances alone that it is not at. */
  lemma ReservedFrame(s: State, t: State, th: Thread, j: Instance)
    requires Reserved(s, j) && Word(t, j) == Word(s, j) && Generation(t, j) == Generation(s, j)
    requires forall u :: u != th ==> At(t, u) == At(s, u)
    requires At(t, th) == At(s, th) || !Holds(At(t, th), j)
    requires t.created == s.created || exists e: Entry :: e.i != j && t.created == s.created + [e]
    ensures Reserved(t, j)
  {
    CreatedFrame(s, t, j);
    forall u | Holds(At(t, u), j) ensures At(t, u) == At(s, u) {
    }
  }

  lemma SwapKeepsReserved(s: State, th: Thread, j: Instance)
    requires Reserved(s, j) && Enabled(s, Go(th)) && At(s, th) == Swap(j) && Word(s, j) == 0
    ensures Reserved(Step(s, Go(th)), j)
  {
    var t := Step(s, Go(th));
    assert forall u: Thread :: u != th ==> At(t, u) == At(s, u);
    assert At(t, th) == Create(j);
  }

  lemma PublishKeepsReserved(s: State, th: Thread, j: Instance)
    requires Reserved(s, j) && Enabled(s, Go(th)) && At(s, th).Publish? && At(s, th).i == j
    ensures Reserved(Step(s, Go(th)), j)
  {
    var t := Step(s, Go(th));
    assert forall u: Thread :: u != th ==> At(t, u) == At(s, u);
    assert Holds(At(s, th), j);
  }

  lemma GoKeepsUnique(s: State, th: Thread)
    requires Unique(s) && Enabled(s, Go(th))
    ensures Unique(Step(s, Go(th)))
  {
    var t := Step(s, Go(th));
    assert forall u: Thread :: u != th ==> At(t, u) == At(s, u);
    forall j ensures Reserved(t, j) {
      assert Reserved(s, j);
      if At(s, th) == Swap(j) && Word(s, j) == 0 {
        SwapKeepsReserved(s, th, j);
      } else if At(s, th).Publish? && At(s, th).i == j {
        PublishKeepsReserved(s, th, j);
      } else {
        ReservedFrame(s, t, th, j);
      }
    }
  }

  lemma ConstructKeepsUnique(s: State, th: Thread, p: int)
    requires Unique(s) && At(s, th).Create? && p != 0
    ensures Unique(Step(s, Construct(th, p)))
  {
    var i := At(s, th).i;
    var t := Step(s, Construct(th, p));
    var e := Entry(i, Generation(s, i), p);
    assert Reserved(s, i) && At(s, th) == Create(i) && Holds(At(s, th), i);
    assert Unbuilt(s, i);
    assert t.created == s.created + [e];
    assert forall u: Thread :: u != th ==> At(t, u) == At(s, u);
    forall j ensures Reserved(t, j) {
      assert Reserved(s, j);
      if j != i {
        ReservedFrame(s, t, th, j);
      } else {
        forall u ensures At(t, u) != Create(i) {
          assert u != th && At(s, u) == Create(i) ==> Holds(At(s, u), i);
        }
      }
    }
  }

  lemma {:induction false} ExitKeepsUnique(s: State, stack: seq<Instance>)
    requires Unique(s) && AllIdle(s)
    ensures Unique(Destroyed(s, stack)) && AllIdle(Destroyed(s, stack))
    decreases |stack|
  {
    if stack != [] {
      var t := OnExit(s, stack[|stack| - 1]);
      forall u ensures At(t, u).Idle? {
        assert At(s, u).Idle?;
      }
      forall j ensures Reserved(t, j) {
        assert Reserved(s, j);
      }
      ExitKeepsUnique(t, stack[..|stack| - 1]);
    }
  }

  lemma StepKeepsUnique(s: State, a: Action)
    requires Unique(s) && Enabled(s, a) && NonZero(a)
    ensures Unique(Step(s, a))
  {
    match a
    case Call(th, i) =>
      var t := Step(s, a);
      forall j ensures Reserved(t, j) {
        assert Reserved(s, j);
        ReservedFrame(s, t, th, j);
      }
    case Go(th) => GoKeepsUnique(s, th);
    case Construct(th, p) => ConstructKeepsUnique(s, th, p);
    case Exit =>
      var cleared := s.(exitStack := []);
      forall u ensures At(cleared, u).Idle? {
        assert At(s, u).Idle?;
      }
      forall j ensures Reserved(cleared, j) {
        assert Reserved(s, j);
      }
      ExitKeepsUnique(cleared, s.exitStack);
  }

  lemma {:induction false} RunKeepsUnique(s: State, actions: seq<Action>)
    requires Unique(s) && Runs(s, actions) && forall k :: 0 <= k < |actions| ==> NonZero(actions[k])
    ensures Unique(Run(s, actions))
    decreases |actions|
  {
    if actions != [] {
      StepKeepsUnique(s, actions[0]);
      RunKeepsUnique(Step(s, actions[0]), actions[1..]);
    }
  }

  lemma {:induction false} RunAppend(s: State, a: seq<Action>, b: seq<Action>)
    ensures Run(s, a + b) == Run(Run(s, a), b)
    ensures Runs(s, a + b) <==> Runs(s, a) && Runs(Run(s, a), b)
    decreases |a|
  {
    if a == [] {
      assert a + b == b;
    } else {
      assert (a + b)[1..] == a[1..] + b;
      RunAppend(Step(s, a[0]), a[1..], b);
    }
  }

  /** A thread that finds the word free comes to build. */
  function CallAndBuild(p: int): seq<Action> {
    [Call(0, 0), Go(0), Go(0), Construct(0, p)]
  }

  lemma FirstThreadBuilds(s: State, p: int)
    requires At(s, 0) == Idle && Word(s, 0) == 0 && Generation(s, 0) == 0
    ensures var t := Run(s, CallAndBuild(p));
            && Runs(s, CallAndBuild(p)) && At(t, 0) == Publish(0, p)
            && Generation(t, 0) == 0 && t.created == s.created + [Entry(0, 0, p)]
  {
    var a := CallAndBuild(p);
    var s1 := Step(s, a[0]);
    assert At(s1, 0) == FastLoad(0);
    var s2 := Step(s1, a[1]);
    assert At(s2, 0) == Swap(0);
    var s3 := Step(s2, a[2]);
    assert At(s3, 0) == Create(0);
    RunsFrom(s, a);
    RunsFrom(s1, a[1..]);
    RunsFrom(s2, a[1..][1..]);
    RunsFrom(s3, a[1..][1..][1..]);
    assert a[1..][1..][1..][1..] == [];
  }

  /** Its creator's result is then published and returned. */
  lemma FirstThreadPublishes(s: State, p: int)
    requires At(s, 0) == Publish(0, p)
    ensures var a := [Go(0), Go(0), Go(0)];
            var t := Run(s, a);
            && Runs(s, a) && At(t, 0) == Idle && Word(t, 0) == p
            && Generation(t, 0) == Generation(s, 0) && t.created == s.created
            && (forall u :: u != 0 ==> At(t, u) == At(s, u))
  {
    var a := [Go(0), Go(0), Go(0)];
    var s1 := Step(s, a[0]);
    assert At(s1, 0) == Register(0, p);
    var s2 := Step(s1, a[1]);
    assert At(s2, 0) == Return(0, p);
    RunsFrom(s, a);
    RunsFrom(s1, a[1..]);
    RunsFrom(s2, a[1..][1..]);
    assert a[1..][1..][1..] == [];
  }

  function TwoCalls(): seq<Action> {
    CallAndBuild(0) + [Go(0), Go(0), Go(0)] + CallAndBuild(0)
  }

  /** When a creator returns 0, the next call creates the instance again. */
  lemma ZeroCreatesTwice()
    ensures Runs(Start({}), TwoCalls())
    ensures Run(Start({}), TwoCalls()).created == [Entry(0, 0, 0), Entry(0, 0, 0)]
  {
    var s := Start({});
    var once := CallAndBuild(0) + [Go(0), Go(0), Go(0)];
    FirstThreadBuilds(s, 0);
    FirstThreadPublishes(Run(s, CallAndBuild(0)), 0);
    RunAppend(s, CallAndBuild(0), [Go(0), Go(0), Go(0)]);
    FirstThreadBuilds(Run(s, once), 0);
    RunAppend(s, once, CallAndBuild(0));
  }

  predicate ResultsOf(actions: seq<Action>, results: set<int>) {
    forall k :: 0 <= k < |actions| ==> BuildsFrom(actions[k], results)
  }

  /** In all runs every instance is created at most once in a generation, exactly when no creator
      returns 0. */
  lemma CreatedOnceExactly(results: set<int>)
    ensures 0 !in results
       <==> forall leaky, actions ::
              RunsWith(leaky, actions, results) ==> DistinctGenerations(Run(Start(leaky), actions).created)
  {
    if 0 in results {
      ZeroCreatesTwice();
      assert ResultsOf(TwoCalls(), results);
      assert RunsWith({}, TwoCalls(), results);
      var log := Run(Start({}), TwoCalls()).created;
      assert log[0] == log[1];
    } else {
      forall leaky, actions | RunsWith(leaky, actions, results)
        ensures DistinctGenerations(Run(Start(leaky), actions).created)
      {
        assert forall k :: 0 <= k < |actions| ==> BuildsFrom(actions[k], results) && NonZero(actions[k]);
        RunKeepsUnique(Start(leaky), actions);
      }
    }
  }

  // ----- exactly which results leave no word stuck -----

  /** Every word being created has a thread that will finish it. */
  ghost predicate Attended(s: State) {
    forall i :: Word(s, i) == CREATING ==> exists t :: Holds(At(s, t), i)
  }

  /** And it will not finish it with the creating mark again. */
  ghost predicate AttendedInv(s: State) {
    Attended(s) && forall t :: At(s, t).Publish? ==> At(s, t).p != CREATING
  }

  lemma HolderStays(s: State, th: Thread, i: Instance, h: Thread)
    requires AttendedInv(s) && Enabled(s, Go(th)) && Holds(At(s, h), i)
    requires Word(Advance(s, th), i) == CREATING
    ensures Holds(At(Advance(s, th), h), i)
  {
    assert h != th ==> At(Advance(s, th), h) == At(s, h);
  }

  /** A word comes to be created by the swap alone. */
  lemma CreatingBefore(s: State, th: Thread, i: Instance)
    requires AttendedInv(s) && Enabled(s, Go(th)) && Word(Advance(s, th), i) == CREATING
    ensures Word(s, i) == CREATING || Holds(At(Advance(s, th), th), i)
  {
  }

  lemma GoKeepsAttended(s: State, th: Thread)
    requires AttendedInv(s) && Enabled(s, Go(th))
    ensures AttendedInv(Advance(s, th))
  {
    var t := Advance(s, th);
    forall i | Word(t, i) == CREATING ensures exists u :: Holds(At(t, u), i) {
      CreatingBefore(s, th, i);
      if Word(s, i) == CREATING {
        var h :| Holds(At(s, h), i);
        HolderStays(s, th, i, h);
      }
    }
    forall u | At(t, u).Publish? ensures At(t, u).p != CREATING {
      assert At(t, u) == At(s, u);
    }
  }

  /** A step that changes no word and lets no holder go. */
  lemma SameWordsKeepAttended(s: State, t: State, th: Thread)
    requires AttendedInv(s) && t.words == s.words
    requires forall u :: u != th ==> At(t, u) == At(s, u)
    requires forall i :: Holds(At(s, th), i) ==> Holds(At(t, th), i)
    requires At(t, th).Publish? ==> At(t, th).p != CREATING
    ensures AttendedInv(t)
  {
    forall i | Word(t, i) == CREATING ensures exists u :: Holds(At(t, u), i) {
      assert Word(s, i) == CREATING;
      var h :| Holds(At(s, h), i);
      assert Holds(At(t, h), i);
    }
  }

  lemma ThreadKeepsAttended(s: State, a: Action)
    requires AttendedInv(s) && Enabled(s, a) && !a.Exit? && (a.Construct? ==> a.p != CREATING)
    ensures AttendedInv(Step(s, a))
  {
    match a
    case Go(th) => GoKeepsAttended(s, th);
    case Call(th, i) => SameWordsKeepAttended(s, Step(s, a), th);
    case Construct(th, p) => SameWordsKeepAttended(s, Step(s, a), th);
  }

  lemma {:induction false} ExitKeepsAttended(s: State, stack: seq<Instance>)
    requires AttendedInv(s)
    ensures AttendedInv(Destroyed(s, stack))
    decreases |stack|
  {
    if stack != [] {
      var t := OnExit(s, stack[|stack| - 1]);
      assert forall u: Thread :: At(t, u) == At(s, u);
      forall i | Word(t, i) == CREATING ensures exists u :: Holds(At(t, u), i) {
        assert Word(s, i) == CREATING;
        var h :| Holds(At(s, h), i);
        assert Holds(At(t, h), i);
      }
      ExitKeepsAttended(t, stack[..|stack| - 1]);
    }
  }

  lemma {:induction false} RunKeepsAttended(s: State, actions: seq<Action>)
    requires AttendedInv(s) && Runs(s, actions)
    requires forall k :: 0 <= k < |actions| && actions[k].Construct? ==> actions[k].p != CREATING
    ensures AttendedInv(Run(s, actions))
    decreases |actions|
  {
    if actions != [] {
      var a := actions[0];
      if a.Exit? {
        var cleared := s.(exitStack := []);
        assert At(s, 0).Idle? && At(cleared, 0) == At(s, 0);
        SameWordsKeepAttended(s, cleared, 0);
        ExitKeepsAttended(cleared, s.exitStack);
      } else {
        ThreadKeepsAttended(s, a);
      }
      RunKeepsAttended(Step(s, a), actions[1..]);
    }
  }

  function StuckCall(): seq<Action> {
    CallAndBuild(CREATING) + [Go(0), Go(0), Go(0)]
  }

  /** When a creator returns 1, the word it leaves looks as if somebody were still creating. */
  lemma OneLeavesStuck()
    ensures Runs(Start({}), StuckCall())
    ensures var s := Run(Start({}), StuckCall()); Word(s, 0) == CREATING && AllIdle(s)
  {
    var s := Start({});
    var mid := Run(s, CallAndBuild(CREATING));
    FirstThreadBuilds(s, CREATING);
    OnlyFirstThreadMoves(s);
    FirstThreadPublishes(mid, CREATING);
    RunAppend(s, CallAndBuild(CREATING), [Go(0), Go(0), Go(0)]);
  }

  lemma OnlyFirstThreadMoves(s: State)
    requires Runs(s, CallAndBuild(CREATING)) && AllIdle(s)
    ensures forall u :: u != 0 ==> At(Run(s, CallAndBuild(CREATING)), u) == Idle
  {
    var a := CallAndBuild(CREATING);
    var s1 := Step(s, a[0]);
    var s2 := Step(s1, a[1]);
    var s3 := Step(s2, a[2]);
    RunsFrom(s, a);
    RunsFrom(s1, a[1..]);
    RunsFrom(s2, a[1..][1..]);
    RunsFrom(s3, a[1..][1..][1..]);
    assert a[1..][1..][1..][1..] == [];
    forall u: Thread | u != 0 ensures At(Run(s, a), u) == Idle {
      assert At(s, u).Idle?;
    }
  }

  /** Then nobody ever finishes it: short of exit, the word stays as it is. */
  lemma {:induction false} StuckStaysStuck(s: State, actions: seq<Action>, i: Instance)
    requires Word(s, i) == CREATING && (forall t :: !Holds(At(s, t), i))
    requires Runs(s, actions) && Exit !in actions
    ensures var t := Run(s, actions); Word(t, i) == CREATING && forall u :: !Holds(At(t, u), i)
    decreases |actions|
  {
    if actions != [] {
      StuckStep(s, actions[0], i);
      StuckStaysStuck(Step(s, actions[0]), actions[1..], i);
    }
  }

  lemma StuckStep(s: State, a: Action, i: Instance)
    requires Word(s, i) == CREATING && (forall t :: !Holds(At(s, t), i))
    requires Enabled(s, a) && a != Exit
    ensures Word(Step(s, a), i) == CREATING && forall u :: !Holds(At(Step(s, a), u), i)
  {
    assert forall u: Thread :: u != a.t ==> At(Step(s, a), u) == At(s, u);
    assert !Holds(At(s, a.t), i);
  }

  /** In all runs a word being created has a thread that creates it, exactly when no creator
      returns 1. */
  lemma AttendedExactly(results: set<int>)
    ensures CREATING !in results
       <==> forall leaky, actions :: RunsWith(leaky, actions, results) ==> Attended(Run(Start(leaky), actions))
  {
    if CREATING in results {
      OneLeavesStuck();
      assert ResultsOf(StuckCall(), results);
      assert RunsWith({}, StuckCall(), results);
      var s := Run(Start({}), StuckCall());
      forall t ensures !Holds(At(s, t), 0) {
        assert At(s, t).Idle?;
      }
    } else {
      forall leaky, actions | RunsWith(leaky, actions, results)
        ensures Attended(Run(Start(leaky), actions))
      {
        assert forall k :: 0 <= k < |actions| ==> BuildsFrom(actions[k], results);
        RunKeepsAttended(Start(leaky), actions);
      }
    }
  }
}
