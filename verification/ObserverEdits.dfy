/** What the events do to the list itself, whoever iterates, and what that comes to over a run. */
module ObserverEdits {
  import opened ObserverSpec

  /** `b` can be had from `a` by leaving elements out. */
  predicate InOrder<T(==,!new)>(b: seq<Registration<T>>, a: seq<Registration<T>>) {
    b == [] || (a != [] && ((a[0] == b[0] && InOrder(b[1..], a[1..])) || InOrder(b, a[1..])))
  }

  /** The registrations of `b` are those of `a` with another observer, as many and in their old order. */
  ghost predicate AllButOne<T(!new)>(a: seq<Registration<T>>, o: T, b: seq<Registration<T>>) {
    && InOrder(b, a)
    && forall r :: multiset(b)[r] == if r.observer == o then 0 else multiset(a)[r]
  }

  lemma {:induction false} WithoutIsAllButOne<T(!new)>(rs: seq<Registration<T>>, o: T)
    ensures AllButOne(rs, o, Without(rs, o))
  {
    if rs != [] {
      WithoutIsAllButOne(rs[1..], o);
      assert rs == [rs[0]] + rs[1..];
      var w := Without(rs[1..], o);
      assert ([rs[0]] + w)[1..] == w;
    }
  }

  /** Removing leaves exactly the registrations of the other observers, in their old order. */
  lemma RemoveLeavesTheOthers<T(!new), I>(s: Spec<T, I>, o: T)
    ensures var t := Step(s, Remove(o));
            && AllButOne(s.contents, o, t.contents) && !Registered(t.contents, o)
            && (forall r :: r in t.contents <==> r in s.contents && r.observer != o)
            && t.policy == s.policy && t.views.Keys == s.views.Keys
  {
    WithoutIsAllButOne(s.contents, o);
    WithoutMembers(s.contents, o);
  }

  /** Clearing leaves nothing. */
  lemma ClearLeavesNothing<T(!new), I>(s: Spec<T, I>)
    ensures var t: Spec<T, I> := Step(s, Clear);
            t.contents == [] && t.policy == s.policy && t.views.Keys == s.views.Keys
  {
  }

  /** Adding puts one new registration of an absent observer at the end, under either policy, and
      does nothing for one that is present. */
  lemma AddPutsLast<T(!new), I>(s: Spec<T, I>, o: T)
    ensures var t := Step(s, Add(o));
            && Registered(t.contents, o)
            && (Registered(s.contents, o) ==> t == s)
            && (!Registered(s.contents, o) ==>
                  |t.contents| == |s.contents| + 1 && t.contents[..|s.contents|] == s.contents
                  && t.contents[|s.contents|].observer == o)
            && t.policy == s.policy && t.views.Keys == s.views.Keys
  {
    var t := Step(s, Add(o));
    if !Registered(s.contents, o) {
      assert t.contents[|s.contents|] in t.contents;
    }
  }

  /** Nothing else changes the list. */
  lemma OthersKeepTheList<T(!new), I>(s: Spec<T, I>, e: Event<T, I>)
    requires !e.Add? && !e.Remove? && !e.Clear?
    ensures Step(s, e).contents == s.contents && Step(s, e).policy == s.policy
  {
  }

  /** Whether the last event about `o` was an addition. */
  predicate LastAdded<T(==), I>(es: seq<Event<T, I>>, o: T, before: bool)
    decreases |es|
  {
    if es == [] then before
    else
      var e := es[|es| - 1];
      if e.Add? && e.observer == o then true
      else if e.Clear? || (e.Remove? && e.observer == o) then false
      else LastAdded(es[..|es| - 1], o, before)
  }

  lemma {:induction false} RunSnoc<T(!new), I>(s: Spec<T, I>, es: seq<Event<T, I>>, e: Event<T, I>)
    ensures Run(s, es + [e]) == Step(Run(s, es), e)
    decreases |es|
  {
    if es == [] {
      assert ([] + [e])[1..] == [];
    } else {
      assert (es + [e])[1..] == es[1..] + [e];
      RunSnoc(Step(s, es[0]), es[1..], e);
    }
  }

  lemma RegisteredStep<T(!new), I>(s: Spec<T, I>, e: Event<T, I>, o: T)
    ensures Registered(Step(s, e).contents, o)
       <==> if e.Add? && e.observer == o then true
            else if e.Clear? || (e.Remove? && e.observer == o) then false
            else Registered(s.contents, o)
  {
    match e
    case Add(p) =>
      AddPutsLast(s, p);
      assert forall r :: r in s.contents ==> r in Step(s, e).contents;
    case Remove(p) => RemoveLeavesTheOthers(s, p);
    case _ =>
  }

  /** Over any run, an observer is registered exactly when the last event about it was an addition. */
  lemma {:induction false} RegisteredExactly<T(!new), I>(s: Spec<T, I>, es: seq<Event<T, I>>, o: T)
    ensures Registered(Run(s, es).contents, o) <==> LastAdded(es, o, Registered(s.contents, o))
    decreases |es|
  {
    if es != [] {
      var n := |es| - 1;
      assert es == es[..n] + [es[n]];
      RunSnoc(s, es[..n], es[n]);
      RegisteredStep(Run(s, es[..n]), es[n], o);
      RegisteredExactly(s, es[..n], o);
    }
  }

  // ----- a pass comes to its end -----

  /** What an iterator has before it, counting where it stands. */
  function ToCome<T(!new), I>(s: Spec<T, I>, i: I): nat {
    if i !in s.views || s.views[i].here == AtEnd then 0 else 1 + |s.views[i].rest|
  }

  function Advances<T, I(==)>(es: seq<Event<T, I>>, i: I): nat {
    if es == [] then 0 else (if es[0] == Advance(i) then 1 else 0) + Advances(es[1..], i)
  }

  lemma {:induction false} WithoutIsNoLonger<T(!new)>(rs: seq<Registration<T>>, o: T)
    ensures |Without(rs, o)| <= |rs|
  {
    if rs != [] {
      WithoutIsNoLonger(rs[1..], o);
    }
  }

  lemma ToComeStep<T(!new), I>(s: Spec<T, I>, e: Event<T, I>, i: I)
    requires Inv(s) && Enabled(s, e) && i in s.views && !EndsPass(e, i)
    ensures ToCome(Step(s, e), i) + (if e == Advance(i) then 1 else 0) <= ToCome(s, i) + |AddedBy(s, e)|
  {
    var v := s.views[i];
    assert ViewFits(v, s.contents);
    if e.Remove? {
      WithoutIsNoLonger(v.rest, e.observer);
    }
  }

  /** Every advance brings a pass nearer to its end, and only additions shown to it put the end off:
      a pass is advanced at most once for each registration there was and each that was added. */
  lemma {:induction false} PassIsFinite<T(!new), I>(s: Spec<T, I>, es: seq<Event<T, I>>, i: I)
    requires Inv(s) && AllEnabled(s, es) && i in s.views && DuringPass(es, i)
    ensures Advances(es, i) + ToCome(Run(s, es), i) <= ToCome(s, i) + |Added(s, es)|
    decreases |es|
  {
    if es != [] {
      assert !EndsPass(es[0], i);
      ToComeStep(s, es[0], i);
      StepKeepsInv(s, es[0]);
      assert DuringPass(es[1..], i) by {
        assert forall k :: 0 <= k < |es| - 1 ==> es[1..][k] == es[k + 1];
      }
      PassIsFinite(Step(s, es[0]), es[1..], i);
    }
  }

  function Moves<T, I>(i: I, n: nat): seq<Event<T, I>> {
    if n == 0 then [] else [Advance(i)] + Moves(i, n - 1)
  }

  lemma MovesFirst<T, I>(i: I, n: nat)
    requires n > 0
    ensures Moves<T, I>(i, n)[0] == Advance(i) && Moves<T, I>(i, n)[1..] == Moves<T, I>(i, n - 1)
  {
  }

  lemma {:induction false} MovesVisit<T(!new), I>(s: Spec<T, I>, i: I)
    requires Inv(s) && i in s.views && s.views[i].here.On?
    ensures var es := Moves<T, I>(i, ToCome(s, i));
            && AllEnabled(s, es) && i in Run(s, es).views && Run(s, es).views[i].here == AtEnd
            && Visits(s, es, i) == s.views[i].rest
    decreases |s.views[i].rest|
  {
    var v, n := s.views[i], ToCome(s, i);
    var t := Step(s, Event<T, I>.Advance(i));
    MovesFirst<T, I>(i, n);
    OneMove(s, i);
    if v.rest == [] {
      assert Moves<T, I>(i, 0) == [];
    } else {
      MovesVisit(t, i);
    }
    MoveFirst(s, i, Moves<T, I>(i, n - 1));
    assert Moves<T, I>(i, n) == [Advance(i)] + Moves<T, I>(i, n - 1);
  }

  /** One advance reaches the first of those that are to come. */
  lemma OneMove<T(!new), I>(s: Spec<T, I>, i: I)
    requires Inv(s) && i in s.views && s.views[i].here.On?
    ensures var e, v, t := Event<T, I>.Advance(i), s.views[i], Step(s, Event<T, I>.Advance(i));
            && Enabled(s, e) && Inv(t) && i in t.views && ToCome(t, i) == ToCome(s, i) - 1
            && Arrival(s, e, i) + t.views[i].rest == v.rest
            && (t.views[i].here.On? <==> v.rest != []) && (t.views[i].here == AtEnd <==> v.rest == [])
            && |t.views[i].rest| <= |v.rest| && (v.rest != [] ==> |t.views[i].rest| < |v.rest|)
  {
    var v := s.views[i];
    StepKeepsInv(s, Event<T, I>.Advance(i));
    assert ViewFits(v, s.contents);
    if v.rest != [] {
      assert v.rest[0] in v.rest;
      assert [v.rest[0]] + v.rest[1..] == v.rest;
    }
  }

  lemma MoveFirst<T(!new), I>(s: Spec<T, I>, i: I, es: seq<Event<T, I>>)
    requires Enabled(s, Event<T, I>.Advance(i)) && AllEnabled(Step(s, Event<T, I>.Advance(i)), es)
    ensures var e := Event<T, I>.Advance(i);
            && AllEnabled(s, [e] + es) && Run(s, [e] + es) == Run(Step(s, e), es)
            && Visits(s, [e] + es, i) == Arrival(s, e, i) + Visits(Step(s, e), es, i)
  {
    assert ([Event<T, I>.Advance(i)] + es)[1..] == es;
  }

  /** A pass that nothing disturbs visits the whole list and ends. */
  lemma UndisturbedPass<T(!new), I>(s: Spec<T, I>, i: I)
    requires Inv(s) && i !in s.views
    ensures var es := [Begin(i, true)] + Moves<T, I>(i, |s.contents|);
            && AllEnabled(s, es) && i in Run(s, es).views && Run(s, es).views[i].here == AtEnd
            && Visits(s, es, i) == s.contents
  {
    var b: Event<T, I> := Begin(i, true);
    var t := Step(s, b);
    StepKeepsInv(s, b);
    BeginsAt(s, i);
    if s.contents != [] {
      MovesVisit(t, i);
    }
    BeginFirst(s, i, Moves<T, I>(i, |s.contents|));
  }

  lemma BeginsAt<T(!new), I>(s: Spec<T, I>, i: I)
    requires i !in s.views
    ensures var t := Step(s, Event<T, I>.Begin(i, true));
            && i in t.views && ToCome(t, i) == |s.contents| && (t.views[i].here.On? <==> s.contents != [])
            && Arrival(s, Event<T, I>.Begin(i, true), i) + t.views[i].rest == s.contents
  {
  }

  lemma BeginFirst<T(!new), I>(s: Spec<T, I>, i: I, es: seq<Event<T, I>>)
    requires i !in s.views && AllEnabled(Step(s, Begin(i, true)), es)
    ensures var b := Begin(i, true);
            && AllEnabled(s, [b] + es) && Run(s, [b] + es) == Run(Step(s, b), es)
            && Visits(s, [b] + es, i) == Arrival(s, b, i) + Visits(Step(s, b), es, i)
  {
    assert ([Event<T, I>.Begin(i, true)] + es)[1..] == es;
  }

  // ----- copies and detaching -----

  /** A copy has to visit what the original has still to visit, and goes on like any pass. */
  lemma CopyGoesOn<T(!new), I>(s: Spec<T, I>, j: I, i: I, es: seq<Event<T, I>>, reached: set<Registration<T>>)
    requires Inv(s) && j in s.views && i !in s.views && DuringPass(es, i)
    requires AllEnabled(Step(s, Copy(j, i)), es)
    requires reached == if s.views[j].here.On? then {s.views[j].here.reg} else {}
    ensures var t := Step(s, Copy(j, i));
            && i in Run(t, es).views
            && Visits(t, es, i) + Run(t, es).views[i].rest
               == Keep(s.views[j].rest + Added(t, es), Lost(t, es, i, reached))
  {
    var c: Event<T, I> := Copy(j, i);
    StepKeepsInv(s, c);
    assert ViewFits(s.views[j], s.contents);
    PassLaw(Step(s, c), es, i, reached);
  }

  /** Copying an iterator without a list, or letting go of the list, leaves an iterator without one;
      the others are where they were. */
  lemma DetachedOnes<T(!new), I>(s: Spec<T, I>, j: I, i: I)
    ensures i !in s.views && j !in s.views ==> i !in Step(s, Copy(j, i)).views
    ensures Step(s, Drop(i)).views.Keys == s.views.Keys - {i}
    ensures forall k :: k in s.views && k != i ==>
              Step(s, Drop(i)).views[k] == s.views[k] && Step(s, Copy(j, i)).views[k] == s.views[k]
              && Step(s, Advance(i)).views[k] == s.views[k]
  {
  }
}
