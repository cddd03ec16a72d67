/** What an observer list promises, without indices, tombstones or compaction.

    The list is a duplicate-free sequence of registrations.  An iterator is the registration it
    stands on together with the queue of registrations it has still to reach.  Adding appends to
    the queues (under the policy that asks for it), removing deletes from them, advancing pops.

    The module `ObserverList` proves that the index-and-tombstone implementation takes exactly
    these steps; the lemmas here say what the steps add up to over a whole pass. */
module ObserverSpec {

  datatype Policy = All | ExistingOnly

  /** One successful `AddObserver` call.  Removing an observer and adding it again gives a new
      registration, told apart by its number. */
  datatype Registration<T> = Registration(observer: T, id: nat)

  /** Where an iterator stands; `Stale` is a slot whose observer was removed under it. */
  datatype Position<T> = AtEnd | Stale | On(reg: Registration<T>)

  datatype View<T> = View(here: Position<T>, rest: seq<Registration<T>>)

  /** `views` has one entry for each iterator that is attached to the list. */
  datatype Spec<T, !I> = Spec(
    policy: Policy, contents: seq<Registration<T>>, nextId: nat, views: map<I, View<T>>)

  datatype Event<T, I> =
    | Add(observer: T)
    | Remove(observer: T)
    | Clear
    | Begin(iter: I, attached: bool)
    | Copy(source: I, iter: I)
    | Advance(iter: I)
    | Drop(iter: I)
    | Destroy

  function Without<T(==,!new)>(rs: seq<Registration<T>>, o: T): seq<Registration<T>> {
    if rs == [] then []
    else if rs[0].observer == o then Without(rs[1..], o)
    else [rs[0]] + Without(rs[1..], o)
  }

  predicate Registered<T(==,!new)>(rs: seq<Registration<T>>, o: T) {
    exists r :: r in rs && r.observer == o
  }

  function Start<T(!new)>(contents: seq<Registration<T>>): View<T> {
    if contents == [] then View(AtEnd, []) else View(On(contents[0]), contents[1..])
  }

  function Next<T(!new)>(v: View<T>): View<T> {
    Start(v.rest)
  }

  function Extend<T(!new)>(v: View<T>, policy: Policy, r: Registration<T>): View<T> {
    if policy == ExistingOnly then v
    else if v.here == AtEnd then View(On(r), [])
    else View(v.here, v.rest + [r])
  }

  function Forget<T(==,!new)>(v: View<T>, o: T): View<T> {
    View(if v.here.On? && v.here.reg.observer == o then Stale else v.here, Without(v.rest, o))
  }

  function ForgetAll<T(!new)>(v: View<T>): View<T> {
    View(if v.here.On? then Stale else v.here, [])
  }

  function Step<T(==,!new), I(==)>(s: Spec<T, I>, e: Event<T, I>): Spec<T, I> {
    match e
    case Add(o) =>
      if Registered(s.contents, o) then s
      else
        var r := Registration(o, s.nextId);
        s.(contents := s.contents + [r], nextId := s.nextId + 1,
           views := map i | i in s.views :: Extend(s.views[i], s.policy, r))
    case Remove(o) =>
      s.(contents := Without(s.contents, o), views := map i | i in s.views :: Forget(s.views[i], o))
    case Clear =>
      s.(contents := [], views := map i | i in s.views :: ForgetAll(s.views[i]))
    case Begin(i, attached) =>
      if attached then s.(views := s.views[i := Start(s.contents)]) else s
    case Copy(j, i) =>
      if j in s.views then s.(views := s.views[i := s.views[j]]) else s
    case Advance(i) =>
      if i in s.views then s.(views := s.views[i := Next(s.views[i])]) else s
    case Drop(i) =>
      s.(views := s.views - {i})
    case Destroy =>
      s.(views := map[])
  }

  /** What a client must respect: iterators are fresh objects when they are created, and are
      advanced only short of the end.  A pass over an empty list may or may not attach. */
  predicate Enabled<T(!new), I>(s: Spec<T, I>, e: Event<T, I>) {
    match e
    case Begin(i, attached) => i !in s.views && (s.contents != [] ==> attached)
    case Copy(j, i) => i !in s.views
    case Advance(i) => i in s.views ==> s.views[i].here != AtEnd
    case _ => true
  }

  function Run<T(==,!new), I(==)>(s: Spec<T, I>, es: seq<Event<T, I>>): Spec<T, I>
    decreases |es|
  {
    if es == [] then s else Run(Step(s, es[0]), es[1..])
  }

  predicate AllEnabled<T(==,!new), I(==)>(s: Spec<T, I>, es: seq<Event<T, I>>)
    decreases |es|
  {
    es == [] || (Enabled(s, es[0]) && AllEnabled(Step(s, es[0]), es[1..]))
  }

  // ----- the invariant of the specification -----

  ghost predicate Ordered<T(!new)>(rs: seq<Registration<T>>) {
    forall j, k :: 0 <= j < k < |rs| ==> rs[j].id < rs[k].id
  }

  ghost predicate Distinct<T(!new)>(rs: seq<Registration<T>>) {
    forall j, k :: 0 <= j < k < |rs| ==> rs[j].observer != rs[k].observer
  }

  ghost predicate ViewFits<T(!new)>(v: View<T>, contents: seq<Registration<T>>) {
    && (forall r :: r in v.rest ==> r in contents)
    && Ordered(v.rest)
    && (v.here == AtEnd ==> v.rest == [])
    && (v.here.On? ==> v.here.reg in contents && forall r :: r in v.rest ==> v.here.reg.id < r.id)
  }

  ghost predicate Inv<T(!new), I>(s: Spec<T, I>) {
    && Ordered(s.contents)
    && Distinct(s.contents)
    && (forall r :: r in s.contents ==> r.id < s.nextId)
    && forall i :: i in s.views ==> ViewFits(s.views[i], s.contents)
  }

  lemma ConsOrdered<T(!new)>(r: Registration<T>, w: seq<Registration<T>>)
    requires Ordered(w) && forall x :: x in w ==> r.id < x.id
    ensures Ordered([r] + w)
  {
    var c := [r] + w;
    forall j, k | 0 <= j < k < |c| ensures c[j].id < c[k].id {
      assert c[k] == w[k - 1] && w[k - 1] in w;
      assert j > 0 ==> c[j] == w[j - 1];
    }
  }

  lemma TailOrdered<T(!new)>(rs: seq<Registration<T>>)
    requires Ordered(rs) && rs != []
    ensures Ordered(rs[1..]) && forall x :: x in rs[1..] ==> rs[0].id < x.id
  {
  }

  lemma {:induction false} WithoutMembers<T(!new)>(rs: seq<Registration<T>>, o: T)
    ensures forall x :: x in Without(rs, o) <==> x in rs && x.observer != o
  {
    if rs != [] {
      WithoutMembers(rs[1..], o);
      assert forall x :: x in rs <==> x == rs[0] || x in rs[1..];
    }
  }

  lemma {:induction false} WithoutOrdered<T(!new)>(rs: seq<Registration<T>>, o: T)
    requires Ordered(rs)
    ensures Ordered(Without(rs, o))
  {
    if rs != [] {
      TailOrdered(rs);
      WithoutOrdered(rs[1..], o);
      if rs[0].observer != o {
        WithoutMembers(rs[1..], o);
        ConsOrdered(rs[0], Without(rs[1..], o));
      }
    }
  }

  lemma {:induction false} WithoutDistinct<T(!new)>(rs: seq<Registration<T>>, o: T)
    requires Distinct(rs)
    ensures Distinct(Without(rs, o))
  {
    if rs != [] {
      WithoutDistinct(rs[1..], o);
      WithoutMembers(rs[1..], o);
      var w := Without(rs[1..], o);
      forall k | 0 <= k < |w| ensures rs[0].observer != w[k].observer {
        assert w[k] in w && w[k] in rs[1..];
      }
    }
  }

  lemma ExtendFits<T(!new)>(v: View<T>, contents: seq<Registration<T>>, policy: Policy, r: Registration<T>)
    requires ViewFits(v, contents) && forall x :: x in contents ==> x.id < r.id
    ensures ViewFits(Extend(v, policy, r), contents + [r])
  {
    var w := Extend(v, policy, r);
    forall x | x in w.rest ensures x in contents + [r] {
    }
  }

  lemma ForgetFits<T(!new)>(v: View<T>, contents: seq<Registration<T>>, o: T)
    requires ViewFits(v, contents)
    ensures ViewFits(Forget(v, o), Without(contents, o))
  {
    WithoutMembers(v.rest, o);
    WithoutMembers(contents, o);
    WithoutOrdered(v.rest, o);
  }

  lemma NextFits<T(!new)>(rest: seq<Registration<T>>, contents: seq<Registration<T>>)
    requires Ordered(rest) && forall x :: x in rest ==> x in contents
    ensures ViewFits(Start(rest), contents)
  {
    if rest != [] {
      TailOrdered(rest);
    }
  }

  lemma AddKeepsInv<T(!new), I>(s: Spec<T, I>, o: T)
    requires Inv(s)
    ensures Inv(Step(s, Add(o)))
  {
    var t := Step(s, Event.Add(o));
    if !Registered(s.contents, o) {
      var r := Registration(o, s.nextId);
      forall i | i in t.views ensures ViewFits(t.views[i], t.contents) {
        ExtendFits(s.views[i], s.contents, s.policy, r);
      }
      forall j, k | 0 <= j < k < |t.contents|
        ensures t.contents[j].id < t.contents[k].id && t.contents[j].observer != t.contents[k].observer
      {
        assert t.contents[j] in s.contents;
      }
    }
  }

  lemma RemoveKeepsInv<T(!new), I>(s: Spec<T, I>, o: T)
    requires Inv(s)
    ensures Inv(Step(s, Remove(o)))
  {
    var t := Step(s, Event.Remove(o));
    WithoutOrdered(s.contents, o);
    WithoutDistinct(s.contents, o);
    WithoutMembers(s.contents, o);
    forall i | i in t.views ensures ViewFits(t.views[i], t.contents) {
      ForgetFits(s.views[i], s.contents, o);
    }
  }

  /** Every step of every client keeps the list duplicate-free, in registration order, and each
      iterator's queue a part of it. */
  lemma StepKeepsInv<T(!new), I>(s: Spec<T, I>, e: Event<T, I>)
    requires Inv(s) && Enabled(s, e)
    ensures Inv(Step(s, e))
  {
    var t := Step(s, e);
    match e
    case Add(o) => AddKeepsInv(s, o);
    case Remove(o) => RemoveKeepsInv(s, o);
    case Begin(i, attached) => NextFits(s.contents, s.contents);
    case Advance(i) =>
      if i in s.views {
        NextFits(s.views[i].rest, s.contents);
      }
    case _ =>
  }

  lemma {:induction false} RunKeepsInv<T(!new), I>(s: Spec<T, I>, es: seq<Event<T, I>>)
    requires Inv(s) && AllEnabled(s, es)
    ensures Inv(Run(s, es))
    decreases |es|
  {
    if es != [] {
      StepKeepsInv(s, es[0]);
      RunKeepsInv(Step(s, es[0]), es[1..]);
    }
  }

  // ----- what a pass visits -----

  /** The registration, if any, that iterator `i` comes to stand on by event `e`. */
  function Arrival<T(==,!new), I(==)>(s: Spec<T, I>, e: Event<T, I>, i: I): seq<Registration<T>> {
    var t := Step(s, e);
    if i in t.views && t.views[i].here.On? && !(i in s.views && s.views[i].here == t.views[i].here)
    then [t.views[i].here.reg] else []
  }

  /** The registrations iterator `i` visits during a run, in the order it visits them. */
  function Visits<T(==,!new), I(==)>(s: Spec<T, I>, es: seq<Event<T, I>>, i: I): seq<Registration<T>>
    decreases |es|
  {
    if es == [] then [] else Arrival(s, es[0], i) + Visits(Step(s, es[0]), es[1..], i)
  }

  /** The registrations a run creates, when the policy wants them shown to passes under way. */
  function Added<T(==,!new), I(==)>(s: Spec<T, I>, es: seq<Event<T, I>>): seq<Registration<T>>
    decreases |es|
  {
    if es == [] then [] else AddedBy(s, es[0]) + Added(Step(s, es[0]), es[1..])
  }

  function AddedBy<T(==,!new), I>(s: Spec<T, I>, e: Event<T, I>): seq<Registration<T>> {
    if s.policy == All && e.Add? && !Registered(s.contents, e.observer)
    then [Registration(e.observer, s.nextId)] else []
  }

  function Elements<T(==,!new)>(rs: seq<Registration<T>>): set<Registration<T>> {
    set r | r in rs
  }

  /** The registrations that one event takes off the list, apart from those already reached. */
  function Left<T(==,!new), I(==)>(s: Spec<T, I>, e: Event<T, I>, reached: set<Registration<T>>): set<Registration<T>> {
    Elements(s.contents) - Elements(Step(s, e).contents) - reached
  }

  /** The registrations that leave the list before iterator `i` reaches them. */
  function Lost<T(==,!new), I(==)>(s: Spec<T, I>, es: seq<Event<T, I>>, i: I, reached: set<Registration<T>>)
    : set<Registration<T>>
    decreases |es|
  {
    if es == [] then {}
    else
      var t := Step(s, es[0]);
      Left(s, es[0], reached)
      + Lost(t, es[1..], i, reached + Elements(Arrival(s, es[0], i)))
  }

  /** Whether event `e` ends or restarts the pass of iterator `i` from outside. */
  predicate EndsPass<T, I(==)>(e: Event<T, I>, i: I) {
    match e
    case Begin(j, _) => j == i
    case Copy(_, j) => j == i
    case Drop(j) => j == i
    case Destroy => true
    case _ => false
  }

  predicate DuringPass<T, I(==)>(es: seq<Event<T, I>>, i: I) {
    forall k :: 0 <= k < |es| ==> !EndsPass(es[k], i)
  }

  function Keep<T(==,!new)>(rs: seq<Registration<T>>, lost: set<Registration<T>>): seq<Registration<T>> {
    if rs == [] then []
    else if rs[0] in lost then Keep(rs[1..], lost)
    else [rs[0]] + Keep(rs[1..], lost)
  }

  lemma {:induction false} KeepMembers<T(!new)>(rs: seq<Registration<T>>, lost: set<Registration<T>>)
    ensures forall x :: x in Keep(rs, lost) <==> x in rs && x !in lost
  {
    if rs != [] {
      KeepMembers(rs[1..], lost);
      assert forall x :: x in rs <==> x == rs[0] || x in rs[1..];
    }
  }

  lemma {:induction false} KeepConcat<T(!new)>(a: seq<Registration<T>>, b: seq<Registration<T>>, lost: set<Registration<T>>)
    ensures Keep(a + b, lost) == Keep(a, lost) + Keep(b, lost)
  {
    if a == [] {
      assert a + b == b;
    } else {
      assert (a + b)[1..] == a[1..] + b;
      KeepConcat(a[1..], b, lost);
    }
  }

  lemma KeepCons<T(!new)>(r: Registration<T>, w: seq<Registration<T>>, lost: set<Registration<T>>)
    ensures Keep([r] + w, lost) == if r in lost then Keep(w, lost) else [r] + Keep(w, lost)
  {
    assert ([r] + w)[1..] == w;
  }

  lemma {:induction false} KeepTwice<T(!new)>(a: seq<Registration<T>>, l: set<Registration<T>>, m: set<Registration<T>>)
    ensures Keep(Keep(a, l), m) == Keep(a, l + m)
  {
    if a != [] {
      KeepTwice(a[1..], l, m);
      if a[0] !in l {
        KeepCons(a[0], Keep(a[1..], l), m);
      }
    }
  }

  lemma {:induction false} KeepAll<T(!new)>(a: seq<Registration<T>>, lost: set<Registration<T>>)
    requires forall x :: x in a ==> x !in lost
    ensures Keep(a, lost) == a
  {
    if a != [] {
      KeepAll(a[1..], lost);
    }
  }

  lemma {:induction false} KeepOrdered<T(!new)>(a: seq<Registration<T>>, lost: set<Registration<T>>)
    requires Ordered(a)
    ensures Ordered(Keep(a, lost))
  {
    if a != [] {
      TailOrdered(a);
      KeepOrdered(a[1..], lost);
      if a[0] !in lost {
        KeepMembers(a[1..], lost);
        ConsOrdered(a[0], Keep(a[1..], lost));
      }
    }
  }

  lemma {:induction false} WithoutIsKeep<T(!new)>(rs: seq<Registration<T>>, o: T, lost: set<Registration<T>>)
    requires forall r :: r in rs ==> (r in lost <==> r.observer == o)
    ensures Without(rs, o) == Keep(rs, lost)
  {
    if rs != [] {
      WithoutIsKeep(rs[1..], o, lost);
    }
  }

  lemma {:induction false} KeepNone<T(!new)>(rs: seq<Registration<T>>, lost: set<Registration<T>>)
    requires forall r :: r in rs ==> r in lost
    ensures Keep(rs, lost) == []
  {
    if rs != [] {
      KeepNone(rs[1..], lost);
    }
  }

  /** What is still to come was not reached, and where the iterator stands was. */
  ghost predicate Tracks<T(!new), I>(s: Spec<T, I>, i: I, reached: set<Registration<T>>) {
    && i in s.views
    && (forall r :: r in s.views[i].rest ==> r !in reached)
    && (s.views[i].here.On? ==> s.views[i].here.reg in reached)
  }

  ghost predicate Balanced<T(!new), I>(s: Spec<T, I>, e: Event<T, I>, i: I, reached: set<Registration<T>>)
    requires i in s.views
  {
    var t := Step(s, e);
    i in t.views && Arrival(s, e, i) + t.views[i].rest == Keep(s.views[i].rest + AddedBy(s, e), Left(s, e, reached))
  }

  lemma RemoveIsBalanced<T(!new), I>(s: Spec<T, I>, o: T, i: I, reached: set<Registration<T>>)
    requires Inv(s) && Tracks(s, i, reached)
    ensures Balanced(s, Remove(o), i, reached)
  {
    var v, e := s.views[i], Event<T, I>.Remove(o);
    WithoutMembers(s.contents, o);
    WithoutIsKeep(v.rest, o, Left(s, e, reached));
    assert v.rest + AddedBy(s, e) == v.rest;
  }

  lemma ClearIsBalanced<T(!new), I>(s: Spec<T, I>, i: I, reached: set<Registration<T>>)
    requires Inv(s) && Tracks(s, i, reached)
    ensures Balanced(s, Clear, i, reached)
  {
    var v, e := s.views[i], Event<T, I>.Clear;
    KeepNone(v.rest, Left(s, e, reached));
    assert v.rest + AddedBy(s, e) == v.rest;
  }

  lemma AddIsBalanced<T(!new), I>(s: Spec<T, I>, o: T, i: I, reached: set<Registration<T>>)
    requires Inv(s) && Tracks(s, i, reached)
    ensures Balanced(s, Add(o), i, reached)
  {
    var e := Event<T, I>.Add(o);
    assert Left(s, e, reached) == {};
    KeepAll(s.views[i].rest + AddedBy(s, e), {});
  }

  /** The other events leave the list alone. */
  lemma MoveIsBalanced<T(!new), I>(s: Spec<T, I>, e: Event<T, I>, i: I, reached: set<Registration<T>>)
    requires Inv(s) && Tracks(s, i, reached) && Enabled(s, e) && !EndsPass(e, i)
    requires e.Begin? || e.Copy? || e.Advance? || e.Drop?
    ensures Balanced(s, e, i, reached)
  {
    var v := s.views[i];
    assert Left(s, e, reached) == {};
    assert v.rest + AddedBy(s, e) == v.rest;
    KeepAll(v.rest, {});
  }

  /** One event moves registrations between "visited" and "still to come" and loses exactly those
      it takes off the list. */
  lemma StepLaw<T(!new), I>(s: Spec<T, I>, e: Event<T, I>, i: I, reached: set<Registration<T>>)
    requires Inv(s) && Enabled(s, e) && i in s.views && !EndsPass(e, i)
    requires forall r :: r in s.views[i].rest ==> r !in reached
    requires s.views[i].here.On? ==> s.views[i].here.reg in reached
    ensures i in Step(s, e).views
    ensures var t := Step(s, e);
            Arrival(s, e, i) + t.views[i].rest == Keep(s.views[i].rest + AddedBy(s, e), Left(s, e, reached))
  {
    assert Tracks(s, i, reached);
    match e
    case Remove(o) => RemoveIsBalanced(s, o, i, reached);
    case Clear => ClearIsBalanced(s, i, reached);
    case Add(o) => AddIsBalanced(s, o, i, reached);
    case _ => MoveIsBalanced(s, e, i, reached);
    assert Balanced(s, e, i, reached);
  }

  lemma {:induction false} LostIsOld<T(!new), I>(s: Spec<T, I>, es: seq<Event<T, I>>, i: I, reached: set<Registration<T>>)
    requires Inv(s) && AllEnabled(s, es)
    ensures forall r :: r in Lost(s, es, i, reached) ==> r !in reached
    decreases |es|
  {
    if es != [] {
      StepKeepsInv(s, es[0]);
      LostIsOld(Step(s, es[0]), es[1..], i, reached + Elements(Arrival(s, es[0], i)));
    }
  }

  lemma {:induction false} AddedIsNew<T(!new), I>(s: Spec<T, I>, es: seq<Event<T, I>>)
    ensures Ordered(Added(s, es))
    ensures forall r :: r in Added(s, es) ==> r.id >= s.nextId
    ensures s.policy == ExistingOnly ==> Added(s, es) == []
    decreases |es|
  {
    if es != [] {
      AddedIsNew(Step(s, es[0]), es[1..]);
    }
  }

  /** The conservation law of a pass, at every moment of it: what has been visited, followed by
      what is still queued, is what was queued at the start plus what was added, in registration
      order, less exactly what left the list before the iterator reached it. */
  lemma {:induction false} PassLaw<T(!new), I>(s: Spec<T, I>, es: seq<Event<T, I>>, i: I, reached: set<Registration<T>>)
    requires Inv(s) && AllEnabled(s, es) && i in s.views && DuringPass(es, i)
    requires forall r :: r in s.views[i].rest ==> r !in reached
    requires forall r :: r in reached ==> r.id < s.nextId
    requires s.views[i].here.On? ==> s.views[i].here.reg in reached
    ensures i in Run(s, es).views
    ensures Visits(s, es, i) + Run(s, es).views[i].rest
         == Keep(s.views[i].rest + Added(s, es), Lost(s, es, i, reached))
    decreases |es|
  {
    if es == [] {
      KeepAll(s.views[i].rest, {});
      assert s.views[i].rest + [] == s.views[i].rest;
    } else {
      var e, t, tail := es[0], Step(s, es[0]), es[1..];
      var a := Arrival(s, e, i);
      var l, m := Left(s, e, reached), Lost(t, tail, i, reached + Elements(a));
      assert !EndsPass(e, i);
      ArrivalLeavesQueue(s, e, i, reached);
      PassLaw(t, tail, i, reached + Elements(a));
      NothingLostTwice(s, e, tail, i, reached);
      StepLaw(s, e, i, reached);
      Glue(s.views[i].rest, AddedBy(s, e), Added(t, tail), a, t.views[i].rest,
           Visits(t, tail, i), Run(t, tail).views[i].rest, l, m);
    }
  }

  /** What a later loss takes was not visited, and what is added later was not there to lose. */
  lemma NothingLostTwice<T(!new), I>(
      s: Spec<T, I>, e: Event<T, I>, tail: seq<Event<T, I>>, i: I, reached: set<Registration<T>>)
    requires Inv(s) && Inv(Step(s, e)) && AllEnabled(Step(s, e), tail)
    ensures forall r :: r in Arrival(s, e, i) ==> r !in Lost(Step(s, e), tail, i, reached + Elements(Arrival(s, e, i)))
    ensures forall r :: r in Added(Step(s, e), tail) ==> r !in Left(s, e, reached)
  {
    LostIsOld(Step(s, e), tail, i, reached + Elements(Arrival(s, e, i)));
    AddedIsNew(Step(s, e), tail);
    StepContents(s, e);
  }

  /** Joins the law of one step to the law of the steps after it. */
  lemma Glue<T(!new)>(
      rest: seq<Registration<T>>, joined: seq<Registration<T>>, more: seq<Registration<T>>,
      a: seq<Registration<T>>, rest': seq<Registration<T>>, v: seq<Registration<T>>, left: seq<Registration<T>>,
      l: set<Registration<T>>, m: set<Registration<T>>)
    requires a + rest' == Keep(rest + joined, l)
    requires v + left == Keep(rest' + more, m)
    requires forall r :: r in a ==> r !in m
    requires forall r :: r in more ==> r !in l
    ensures a + v + left == Keep(rest + (joined + more), l + m)
  {
    var kept, added := Keep(rest', m), Keep(more, m);
    KeepConcat(rest', more, m);
    KeepConcat(a, rest', m);
    KeepAll(a, m);
    KeepTwice(rest + joined, l, m);
    KeepAll(more, l);
    KeepTwice(more, l, m);
    KeepConcat(rest + joined, more, l + m);
    Associative(a, kept, added);
    Associative(a, v, left);
    Associative(rest, joined, more);
  }

  lemma Associative<T(!new)>(a: seq<Registration<T>>, b: seq<Registration<T>>, c: seq<Registration<T>>)
    ensures a + (b + c) == (a + b) + c
  {
  }

  lemma ArrivalLeavesQueue<T(!new), I>(s: Spec<T, I>, e: Event<T, I>, i: I, reached: set<Registration<T>>)
    requires Inv(s) && Enabled(s, e) && i in s.views && !EndsPass(e, i)
    requires forall r :: r in s.views[i].rest ==> r !in reached
    requires forall r :: r in reached ==> r.id < s.nextId
    requires s.views[i].here.On? ==> s.views[i].here.reg in reached
    ensures var t := Step(s, e);
            var reached' := reached + Elements(Arrival(s, e, i));
            && Inv(t) && i in t.views && t.nextId >= s.nextId
            && (forall r :: r in t.views[i].rest ==> r !in reached')
            && (forall r :: r in reached' ==> r.id < t.nextId)
            && (t.views[i].here.On? ==> t.views[i].here.reg in reached')
  {
    var t := Step(s, e);
    StepKeepsInv(s, e);
    StepContents(s, e);
    var v, v' := s.views[i], t.views[i];
    assert ViewFits(v', t.contents);
    forall r | r in v'.rest ensures r !in reached {
      match e
      case Remove(o) => WithoutMembers(v.rest, o);
      case Add(o) => assert r in v.rest || r.id >= s.nextId;
      case Destroy =>
      case _ => assert r in v.rest;
    }
  }

  /** A step adds at most one registration, with a number never used before. */
  lemma StepContents<T(!new), I>(s: Spec<T, I>, e: Event<T, I>)
    ensures Step(s, e).nextId >= s.nextId
    ensures forall r :: r in Step(s, e).contents && r.id < s.nextId ==> r in s.contents
  {
    if e.Remove? {
      WithoutMembers(s.contents, e.observer);
    }
  }

  /** The conservation law, from the moment the pass is started. */
  lemma PassFromStart<T(!new), I>(s: Spec<T, I>, i: I, es: seq<Event<T, I>>)
    requires Inv(s) && i !in s.views && DuringPass(es, i)
    requires AllEnabled(Step(s, Begin(i, true)), es)
    ensures var t := Step(s, Begin(i, true));
            var whole := [Begin(i, true)] + es;
            && i in Run(t, es).views
            && Visits(s, whole, i) + Run(t, es).views[i].rest
               == Keep(s.contents + Added(t, es), Lost(s, whole, i, {}))
  {
    var b: Event<T, I> := Begin(i, true);
    var t := Step(s, b);
    var a, rest, more := Arrival(s, b, i), t.views[i].rest, Added(t, es);
    var lost := Lost(t, es, i, Elements(a));
    UnfoldBegin(s, i, es);
    assert i in Run(t, es).views && Visits(t, es, i) + Run(t, es).views[i].rest == Keep(rest + more, lost) by {
      StepKeepsInv(s, b);
      ReachedAtStart(s, i);
      PassLaw(t, es, i, Elements(a));
    }
    assert Keep(a, lost) == a by {
      StepKeepsInv(s, b);
      LostIsOld(t, es, i, Elements(a));
      KeepAll(a, lost);
    }
    GlueStart(a, rest, more, Visits(t, es, i), Run(t, es).views[i].rest, lost);
  }

  lemma GlueStart<T(!new)>(
      a: seq<Registration<T>>, rest: seq<Registration<T>>, more: seq<Registration<T>>,
      v: seq<Registration<T>>, left: seq<Registration<T>>, lost: set<Registration<T>>)
    requires v + left == Keep(rest + more, lost) && Keep(a, lost) == a
    ensures a + v + left == Keep(a + rest + more, lost)
  {
    KeepConcat(a, rest + more, lost);
    assert (a + rest) + more == a + (rest + more);
    assert (a + v) + left == a + (v + left);
  }

  lemma UnfoldBegin<T(!new), I>(s: Spec<T, I>, i: I, es: seq<Event<T, I>>)
    requires i !in s.views
    ensures var b := Begin(i, true);
            var t := Step(s, b);
            var a := Arrival(s, b, i);
            && s.contents == a + t.views[i].rest
            && Visits(s, [b] + es, i) == a + Visits(t, es, i)
            && Lost(s, [b] + es, i, {}) == Lost(t, es, i, Elements(a))
  {
    var b: Event<T, I> := Begin(i, true);
    assert ([b] + es)[1..] == es;
    assert {} + Elements(Arrival(s, b, i)) == Elements(Arrival(s, b, i));
  }

  lemma ReachedAtStart<T(!new), I>(s: Spec<T, I>, i: I)
    requires Inv(s) && i !in s.views
    ensures var t := Step(s, Begin(i, true));
            var reached := Elements(Arrival(s, Begin(i, true), i));
            && (forall r :: r in t.views[i].rest ==> r !in reached)
            && (forall r :: r in reached ==> r.id < t.nextId)
            && (t.views[i].here.On? ==> t.views[i].here.reg in reached)
  {
    if s.contents != [] {
      TailOrdered(s.contents);
    }
  }

  /** The promise of a pass.  Take any list, start a pass, and let anything happen that does not
      end the pass from outside: adds, removes, clears, other passes nested to any depth.  What
      the iterator visits, it visits once and in registration order, and never after it was
      removed; when it comes to its end it has visited all the registrations present at the start
      and (under `All`) all those added meanwhile, except exactly those that were removed before
      it reached them.  Under `ExistingOnly` it visits nothing that was added meanwhile. */
  lemma PassVisits<T(!new), I>(s: Spec<T, I>, i: I, es: seq<Event<T, I>>)
    requires Inv(s) && i !in s.views && DuringPass(es, i)
    requires AllEnabled(Step(s, Begin(i, true)), es)
    ensures var t := Step(s, Begin(i, true));
            var visits := Visits(s, [Begin(i, true)] + es, i);
            var lost := Lost(s, [Begin(i, true)] + es, i, {});
            && i in Run(t, es).views
            && Ordered(visits)
            && (forall r :: r in visits ==> r !in lost && r in s.contents + Added(t, es))
            && (Run(t, es).views[i].here == AtEnd ==> visits == Keep(s.contents + Added(t, es), lost))
            && (s.policy == ExistingOnly ==> forall r :: r in visits ==> r in s.contents)
  {
    var b: Event<T, I> := Begin(i, true);
    var t := Step(s, b);
    var visits, lost := Visits(s, [b] + es, i), Lost(s, [b] + es, i, {});
    var all := s.contents + Added(t, es);
    PassFromStart(s, i, es);
    var left := Run(t, es).views[i].rest;
    assert visits + left == Keep(all, lost);
    assert left == [] || Run(t, es).views[i].here != AtEnd by {
      StepKeepsInv(s, b);
      RunKeepsInv(t, es);
    }
    AddedIsNew(t, es);
    assert Ordered(visits) by {
      AppendOrdered(s.contents, Added(t, es), s.nextId);
      KeepOrdered(all, lost);
      PrefixOrdered(visits, left);
    }
    forall r | r in visits ensures r !in lost && r in all {
      assert r in visits + left;
      KeepMembers(all, lost);
    }
  }

  lemma AppendOrdered<T(!new)>(a: seq<Registration<T>>, b: seq<Registration<T>>, n: nat)
    requires Ordered(a) && Ordered(b)
    requires (forall r :: r in a ==> r.id < n) && forall r :: r in b ==> n <= r.id
    ensures Ordered(a + b)
  {
    var c := a + b;
    forall j, k | 0 <= j < k < |c| ensures c[j].id < c[k].id {
      assert c[j] == if j < |a| then a[j] else b[j - |a|];
      assert c[k] == if k < |a| then a[k] else b[k - |a|];
      assert j < |a| ==> a[j] in a;
      assert k >= |a| ==> b[k - |a|] in b;
    }
  }

  lemma PrefixOrdered<T(!new)>(a: seq<Registration<T>>, b: seq<Registration<T>>)
    requires Ordered(a + b)
    ensures Ordered(a)
  {
    forall j, k | 0 <= j < k < |a| ensures a[j].id < a[k].id {
      assert (a + b)[j] == a[j] && (a + b)[k] == a[k];
    }
  }

  /** A registration that is on the list when the pass starts and when it ends was visited once. */
  lemma SurvivorsAreVisited<T(!new), I>(s: Spec<T, I>, i: I, es: seq<Event<T, I>>, r: Registration<T>)
    requires Inv(s) && i !in s.views && DuringPass(es, i)
    requires AllEnabled(Step(s, Begin(i, true)), es)
    requires var t := Run(Step(s, Begin(i, true)), es);
             i in t.views && t.views[i].here == AtEnd && r in t.contents
    requires r in s.contents
    ensures multiset(Visits(s, [Begin(i, true)] + es, i))[r] == 1
  {
    var b: Event<T, I> := Begin(i, true);
    var t := Step(s, b);
    var visits, lost := Visits(s, [b] + es, i), Lost(s, [b] + es, i, {});
    assert Ordered(visits) && visits == Keep(s.contents + Added(t, es), lost) by {
      PassVisits(s, i, es);
    }
    assert r !in lost by {
      assert ([b] + es)[0] == b && ([b] + es)[1..] == es;
      StepKeepsInv(s, b);
      LostHasLeft(t, es, i, {} + Elements(Arrival(s, b, i)), r);
    }
    KeepMembers(s.contents + Added(t, es), lost);
    OrderedOnce(visits, r);
  }

  lemma {:induction false} LostHasLeft<T(!new), I>(
      s: Spec<T, I>, es: seq<Event<T, I>>, i: I, reached: set<Registration<T>>, r: Registration<T>)
    requires Inv(s) && AllEnabled(s, es)
    requires r.id < s.nextId
    requires r in Run(s, es).contents
    ensures r in s.contents && r !in Lost(s, es, i, reached)
    decreases |es|
  {
    if es != [] {
      StepKeepsInv(s, es[0]);
      StepContents(s, es[0]);
      LostHasLeft(Step(s, es[0]), es[1..], i, reached + Elements(Arrival(s, es[0], i)), r);
    }
  }

  lemma {:induction false} OrderedOnce<T(!new)>(rs: seq<Registration<T>>, r: Registration<T>)
    requires Ordered(rs) && r in rs
    ensures multiset(rs)[r] == 1
  {
    var k :| 0 <= k < |rs| && rs[k] == r;
    assert rs == rs[..k] + [r] + rs[k+1..];
    assert r !in rs[..k] && r !in rs[k+1..];
  }

  lemma {:induction false} DetachedStays<T(!new), I>(s: Spec<T, I>, es: seq<Event<T, I>>, i: I)
    requires DuringPass(es, i) && i !in s.views
    ensures i !in Run(s, es).views && Visits(s, es, i) == []
    decreases |es|
  {
    if es != [] {
      DetachedStays(Step(s, es[0]), es[1..], i);
    }
  }

  /** Destroying the list ends every pass: whatever follows, short of starting another one, no
      iterator visits anything any more. */
  lemma DestroyEndsPasses<T(!new), I>(s: Spec<T, I>, es: seq<Event<T, I>>, i: I)
    requires DuringPass(es, i)
    ensures var whole := [Destroy] + es; i !in Run(s, whole).views && Visits(s, whole, i) == []
  {
    DetachedStays(Step(s, Destroy), es, i);
    assert ([Destroy] + es)[1..] == es;
  }
}
