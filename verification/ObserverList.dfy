/** The observer list and its iterators as they are implemented: a vector of slots, tombstones
    while anything iterates, a list of live iterators, and compaction when the last one goes.

    `Abs` reads the specification state off the implementation.  Every method is proved to take
    the corresponding step of `ObserverSpec`, so the pass laws proved there hold of this code.
    Observers are the pointers of the unchecked adapter: opaque, never null in a live slot. */
module ObserverLists {
  import opened Wrappers
  import opened ObserverSpec
  import opened ObserverSlots
  import opened ObserverEdits

  lemma UniqueRemoval<X>(s: seq<X>, k: nat)
    requires k < |s| && forall i, j :: 0 <= i < j < |s| ==> s[i] != s[j]
    ensures var r := s[..k] + s[k+1..];
            && (forall i, j :: 0 <= i < j < |r| ==> r[i] != r[j])
            && (forall x :: x in r ==> x in s && x != s[k])
            && (forall x :: x in s && x != s[k] ==> x in r)
  {
  }

  class Iter<T(==,!new)> {
    var list: ObserverList?<T>
    var index: nat
    var maxIndex: Option<nat>  // None stands for the largest size_t

    /** An iterator points at a list exactly when it is registered there. */
    ghost predicate Valid()
      reads this, list, if list == null then {} else set i | i in list.liveIterators
    {
      list != null ==> list.Valid() && this in list.liveIterators
    }

    function ClampedMaxIndex(size: nat): nat
      reads this
    {
      if maxIndex.Some? && maxIndex.value < size then maxIndex.value else size
    }

    predicate IsEnd()
      reads this, list
    {
      list == null || index == ClampedMaxIndex(|list.observers|)
    }

    constructor Detached()
      ensures list == null && Valid() && IsEnd()
    {
      list, index, maxIndex := null, 0, Some(0);
    }

    constructor At(l: ObserverList<T>)
      requires l.Valid()
      modifies l`liveIterators
      ensures list == l && Valid()
      ensures l.liveIterators == old(l.liveIterators) + [this]
      ensures l.Abs() == Step(old(l.Abs()), Begin(this, true))
    {
      list, index := l, 0;
      maxIndex := if l.policy == All then None else Some(|l.observers|);
      new;
      l.Enroll(this);
    }

    constructor CopyOf(other: Iter<T>)
      requires other.Valid()
      modifies if other.list == null then {} else {other.list}
      ensures list != null ==> list.observers == old(if other.list == null then [] else other.list.observers)
      ensures list == other.list && Valid()
      ensures list != null ==> list.liveIterators == old(other.list.liveIterators) + [this]
      ensures list != null ==> list.Abs() == Step(old(other.list.Abs()), Copy(other, this))
    {
      list, index, maxIndex := other.list, other.index, other.maxIndex;
      new;
      if list != null {
        list.Register(this, other);
      }
    }

    /** Moves `index` past marked slots, so that it rests on a live observer or at the end. */
    method EnsureValidIndex()
      requires list != null && list.Valid() && this in list.liveIterators
      modifies this`index
      ensures list.Valid() && this in list.liveIterators && old(index) <= index
      ensures var end := ClampedMaxIndex(|list.observers|);
              ViewAt(list.observers, list.ids, index, end) == Start(Live(list.observers, list.ids, old(index), end))
    {
      var end := ClampedMaxIndex(|list.observers|);
      while index < end && list.observers[index].None?
        invariant old(index) <= index <= end
        invariant forall k :: old(index) <= k < index ==> list.observers[k].None?
      {
        index := index + 1;
      }
      LiveEmpty(list.observers, list.ids, old(index), index);
      LiveSplit(list.observers, list.ids, old(index), index, end);
      if index < end {
        LiveSplit(list.observers, list.ids, index, index + 1, end);
      }
    }

    /** Moves on to the next observer; without a list it stays where it is. */
    method Advance()
      requires Valid() && (list == null || !IsEnd())
      modifies this`index
      ensures Valid()
      ensures if list == null then index == old(index)
              else list.Abs() == Step(old(list.Abs()), Event.Advance(this))
    {
      if list != null {
        index := index + 1;
        EnsureValidIndex();
        list.OneMoved(this);
      }
    }

    /** The observer under the iterator; none if it was removed while the iterator stood on it. */
    method GetCurrent() returns (o: Option<T>)
      requires Valid() && !IsEnd()
      ensures match list.Abs().views[this].here
              case AtEnd => false
              case Stale => o == None
              case On(r) => o == Some(r.observer)
    {
      o := list.observers[index];
    }

    /** Whether there is nothing left to visit. */
    ghost predicate Done()
      requires Valid()
      reads this, list, if list == null then {} else set i | i in list.liveIterators
    {
      list == null || list.Abs().views[this].here == AtEnd
    }

    /** Any two iterators that are done are equal, which is how a pass is compared with `end`. */
    method Equals(other: Iter<T>) returns (equal: bool)
      requires Valid() && other.Valid()
      ensures equal <==> (Done() && other.Done()) || (list == other.list && index == other.index)
    {
      equal := (IsEnd() && other.IsEnd()) || (list == other.list && index == other.index);
    }

    /** Takes this iterator off its list; the last one to go compacts the vector. */
    method Leave()
      requires Valid() && list != null
      modifies this`list, list
      ensures list == null && Valid()
      ensures old(list).Valid() && this !in old(list).liveIterators
      ensures forall i :: i in old(list.liveIterators) <==> i in old(list).liveIterators || i == this
      ensures old(list).Abs() == Step(old(list.Abs()), Drop(this))
      ensures old(list).liveIterators != [] ==> old(list).observers == old(list.observers)
    {
      if |list.liveIterators| == 1 {
        LeaveAsLast();
      } else {
        var l := list;
        ghost var before := l.Abs();
        list := null;
        assert l.Abs() == before;
        l.Unregister(this);
      }
    }

    method LeaveAsLast()
      requires Valid() && list != null && |list.liveIterators| == 1
      modifies this`list, list
      ensures list == null && Valid()
      ensures old(list).Valid() && old(list).liveIterators == [] && old(list.liveIterators) == [this]
      ensures old(list).Abs() == Step(old(list.Abs()), Drop(this))
    {
      var l := list;
      ghost var before := l.Abs();
      l.CompactForLast(this);
      list := null;
      l.Unregister(this);
      assert l.liveIterators == [] && before.views.Keys == {this};
      assert before.views - {this} == map[];
    }

    /** Assignment leaves the old list, compacting it if nobody else iterates, and then joins the
        list of `other` where `other` stands. */
    method Assign(other: Iter<T>)
      requires Valid() && other.Valid()
      modifies this, list, other.list
      ensures Valid() && list == other.list == old(other.list)
      ensures this != other && list != null && old(list) == list ==>
                list.Abs() == Step(Step(old(list.Abs()), Drop(this)), Copy(other, this))
      ensures list != null && old(list) != list ==>
                list.Abs() == Step(old(other.list.Abs()), Copy(other, this))
      ensures old(list) != null && old(list) != list ==>
                old(list).Valid() && old(list).Abs() == Step(old(list.Abs()), Drop(this))
      ensures this == other && list != null ==> list.Abs() == old(list.Abs())
    {
      if other == this {
        return;
      }
      if list != null {
        Leave();
      }
      Join(other);
    }

    /** Joins the list of `other`, if it has one, where `other` stands. */
    method Join(other: Iter<T>)
      requires other.Valid() && list == null && other != this
      requires other.list != null ==> this !in other.list.liveIterators
      modifies this, other.list
      ensures list == other.list == old(other.list) && Valid()
      ensures list != null ==> list.Abs() == Step(old(other.list.Abs()), Copy(other, this))
    {
      list, index, maxIndex := other.list, other.index, other.maxIndex;
      if list != null {
        list.Register(this, other);
      }
    }

    method Destroy()
      requires Valid()
      modifies this`list, list
      ensures list == null && Valid()
      ensures old(list) != null ==>
                old(list).Valid() && old(list).Abs() == Step(old(list.Abs()), Drop(this))
    {
      if list != null {
        Leave();
      }
    }
  }

  class ObserverList<T(==,!new)> {
    const policy: Policy
    var observers: Slots<T>
    var liveIterators: seq<Iter<T>>
    ghost var ids: seq<nat>
    ghost var nextId: nat

    ghost predicate Valid()
      reads this, set i | i in liveIterators
    {
      && |observers| == |ids|
      && NoDuplicates(observers)
      && Increasing(ids, nextId)
      && (liveIterators == [] ==> NoTombstones(observers))
      && (forall j, k :: 0 <= j < k < |liveIterators| ==> liveIterators[j] != liveIterators[k])
      && (forall i :: i in liveIterators ==> Attached(i))
    }

    ghost predicate Attached(i: Iter<T>)
      reads this, i
    {
      && i.list == this
      && (policy == All <==> i.maxIndex == None)
      && (i.maxIndex.Some? ==> i.maxIndex.value <= |observers|)
      && i.index <= i.ClampedMaxIndex(|observers|)
    }

    ghost function ViewOf(i: Iter<T>): View<T>
      requires |observers| == |ids|
      reads this, i
    {
      ViewAt(observers, ids, i.index, i.ClampedMaxIndex(|observers|))
    }

    ghost function Abs(): Spec<T, Iter<T>>
      requires |observers| == |ids|
      reads this, set i | i in liveIterators
    {
      Spec(policy, Live(observers, ids, 0, |observers|), nextId, map i | i in liveIterators :: ViewOf(i))
    }

    /** What the implementation stands for always meets the specification's invariant. */
    lemma ValidGivesInv()
      requires Valid()
      ensures Inv(Abs())
    {
      LiveOrdered(observers, ids, 0, |observers|, nextId);
      forall r | r in Abs().contents ensures r.id < nextId {
        LiveWithin(observers, ids, 0, |observers|, nextId, r);
      }
      forall i | i in liveIterators ensures ViewFits(ViewOf(i), Abs().contents) {
        ViewAtFits(observers, ids, i.index, i.ClampedMaxIndex(|observers|), nextId);
      }
    }

    constructor (policy: Policy)
      ensures Valid() && this.policy == policy && liveIterators == []
      ensures Abs() == Spec(policy, [], 0, map[])
    {
      this.policy := policy;
      observers, liveIterators := [], [];
      ids, nextId := [], 0;
    }

    /** Moving one iterator along changes that iterator's view and nothing else. */
    twostate lemma OneMoved(i: Iter<T>)
      requires old(Valid()) && Valid() && i in liveIterators
      requires unchanged(this)
      requires forall j :: j in liveIterators && j != i ==> unchanged(j)
      ensures Abs() == old(Abs()).(views := old(Abs()).views[i := ViewOf(i)])
    {
      assert Abs().views == old(Abs()).views[i := ViewOf(i)];
    }

    /** Linking an iterator adds its view and changes nothing else. */
    twostate lemma OneJoined(i: Iter<T>)
      requires |observers| == |ids| && liveIterators == old(liveIterators) + [i] && i !in old(liveIterators)
      requires observers == old(observers) && ids == old(ids) && nextId == old(nextId)
      requires forall j :: j in old(liveIterators) ==> unchanged(j)
      ensures Abs() == old(Abs()).(views := old(Abs()).views[i := ViewOf(i)])
    {
      assert Abs().views == old(Abs()).views[i := ViewOf(i)];
    }

    /** Unlinking an iterator takes its view away and changes nothing else. */
    twostate lemma OneLeft(i: Iter<T>)
      requires |observers| == |ids| && i !in liveIterators
      requires forall j :: j in old(liveIterators) <==> j in liveIterators || j == i
      requires observers == old(observers) && ids == old(ids) && nextId == old(nextId)
      requires forall j :: j in liveIterators ==> unchanged(j)
      ensures Abs() == old(Abs()).(views := old(Abs()).views - {i})
    {
      assert Abs().views == old(Abs()).views - {i};
    }

    /** Links a new iterator at the start and lets it look for its first observer. */
    method Enroll(i: Iter<T>)
      requires Valid() && i !in liveIterators
      requires i.list == this && i.index == 0
      requires i.maxIndex == if policy == All then None else Some(|observers|)
      modifies this`liveIterators, i`index
      ensures Valid() && liveIterators == old(liveIterators) + [i]
      ensures Abs() == Step(old(Abs()), Begin(i, true))
    {
      liveIterators := liveIterators + [i];
      assert Attached(i);
      i.EnsureValidIndex();
      assert ViewOf(i) == Start(Live(observers, ids, 0, |observers|));
      OneJoined(i);
    }

    /** Links a new iterator, a copy of `other`, into the live ones. */
    method Register(i: Iter<T>, ghost other: Iter<T>)
      requires Valid() && other in liveIterators && i !in liveIterators
      requires i.list == this && i.index == other.index && i.maxIndex == other.maxIndex
      modifies this`liveIterators
      ensures Valid() && liveIterators == old(liveIterators) + [i]
      ensures Abs() == Step(old(Abs()), Copy(other, i))
    {
      liveIterators := liveIterators + [i];
      assert ViewOf(i) == old(ViewOf(other));
      OneJoined(i);
    }

    /** What is true of the list while iterator `i` is on its way out: `i` itself may stand anywhere. */
    ghost predicate Leaving(i: Iter<T>)
      reads this, set j | j in liveIterators
    {
      && |observers| == |ids| && NoDuplicates(observers) && Increasing(ids, nextId)
      && i in liveIterators
      && (forall j, k :: 0 <= j < k < |liveIterators| ==> liveIterators[j] != liveIterators[k])
      && (forall j :: j in liveIterators && j != i ==> Attached(j))
      && (|liveIterators| == 1 ==> NoTombstones(observers))
    }

    method CompactForLast(i: Iter<T>)
      requires Valid() && i in liveIterators && |liveIterators| == 1
      modifies this`observers, this`ids
      ensures Leaving(i)
      ensures Abs().contents == old(Abs()).contents && Abs().nextId == old(Abs()).nextId
    {
      assert liveIterators == [i];
      Compact();
    }

    /** Unlinks an iterator that has let go of the list. */
    method Unregister(i: Iter<T>)
      requires Leaving(i)
      modifies this`liveIterators
      ensures Valid() && |liveIterators| == |old(liveIterators)| - 1
      ensures i !in liveIterators && forall j :: j in old(liveIterators) <==> j in liveIterators || j == i
      ensures Abs() == Step(old(Abs()), Drop(i))
    {
      var k :| 0 <= k < |liveIterators| && liveIterators[k] == i;
      UniqueRemoval(liveIterators, k);
      liveIterators := liveIterators[..k] + liveIterators[k+1..];
      OneLeft(i);
    }

    /** The first slot holding `o`, or the number of slots. */
    method Find(o: Option<T>) returns (k: nat)
      ensures k <= |observers| && o !in observers[..k]
      ensures k < |observers| ==> observers[k] == o
    {
      k := 0;
      while k < |observers| && observers[k] != o
        invariant k <= |observers| && o !in observers[..k]
      {
        k := k + 1;
      }
    }

    /** A null observer is never present, though a marked slot compares equal to it. */
    method HasObserver(o: Option<T>) returns (has: bool)
      requires Valid()
      ensures has <==> o.Some? && Registered(Abs().contents, o.value)
    {
      if o == None {
        return false;
      }
      RegisteredIsPresent(observers, ids, o.value);
      var k := Find(o);
      has := k != |observers|;
    }

    /** What each live iterator sees once `o` is appended. */
    lemma ViewsExtended(o: T)
      requires Valid()
      ensures var slots, ids' := observers + [Some(o)], ids + [nextId];
              var r := Registration(o, nextId);
              && Live(slots, ids', 0, |slots|) == Live(observers, ids, 0, |observers|) + [r]
              && forall i :: i in liveIterators ==>
                   ViewAt(slots, ids', i.index, i.ClampedMaxIndex(|slots|)) == Extend(ViewOf(i), policy, r)
    {
      var slots, ids' := observers + [Some(o)], ids + [nextId];
      LiveSame(slots, ids', observers, ids, 0, |observers|);
      forall i | i in liveIterators
        ensures ViewAt(slots, ids', i.index, i.ClampedMaxIndex(|slots|)) == Extend(ViewOf(i), policy, Registration(o, nextId))
      {
        assert Attached(i);
        LiveSame(slots, ids', observers, ids, i.index + 1, i.ClampedMaxIndex(|observers|));
      }
    }

    method AddObserver(o: T)
      requires Valid()
      modifies this`observers, this`ids, this`nextId
      ensures Valid()
      ensures Abs() == Step(old(Abs()), Add(o))
      ensures Registered(Abs().contents, o)
      ensures if Registered(old(Abs().contents), o) then Abs() == old(Abs())
              else Abs().contents == old(Abs().contents) + [Registration(o, old(nextId))]
      ensures old(observers) <= observers
    {
      AddPutsLast(Abs(), o);
      AppendIfAbsent(o);
    }

    method AppendIfAbsent(o: T)
      requires Valid()
      modifies this`observers, this`ids, this`nextId
      ensures Valid() && Abs() == Step(old(Abs()), Add(o))
      ensures old(observers) <= observers
    {
      var has := HasObserver(Some(o));
      if has {
        return;
      }
      RegisteredIsPresent(observers, ids, o);
      Append(o);
    }

    twostate lemma AllExtended(o: T)
      requires |observers| == |ids| && old(|observers| == |ids|)
      requires liveIterators == old(liveIterators) && nextId == old(nextId) + 1
      requires Live(observers, ids, 0, |observers|)
            == old(Live(observers, ids, 0, |observers|)) + [Registration(o, old(nextId))]
      requires forall i :: i in liveIterators ==>
                 unchanged(i) && ViewOf(i) == Extend(old(ViewOf(i)), policy, Registration(o, old(nextId)))
      ensures var r := Registration(o, old(nextId));
              var s := old(Abs());
              Abs() == s.(contents := s.contents + [r], nextId := s.nextId + 1,
                          views := map i: Iter<T> | i in s.views :: Extend(s.views[i], s.policy, r))
    {
      var s, r := old(Abs()), Registration(o, old(nextId));
      assert Abs().views == map i: Iter<T> | i in s.views :: Extend(s.views[i], s.policy, r);
    }

    method Append(o: T)
      requires Valid() && Some(o) !in observers
      modifies this`observers, this`ids, this`nextId
      ensures Valid() && observers == old(observers) + [Some(o)]
      ensures var r := Registration(o, old(nextId));
              var s := old(Abs());
              Abs() == s.(contents := s.contents + [r], nextId := s.nextId + 1,
                          views := map i: Iter<T> | i in s.views :: Extend(s.views[i], s.policy, r))
    {
      ViewsExtended(o);
      observers := observers + [Some(o)];
      ids, nextId := ids + [nextId], nextId + 1;
      assert NoDuplicates(observers) && Increasing(ids, nextId);
      AllExtended(o);
    }

    /** What each live iterator sees once the slot of `o`, if there is one, is marked. */
    lemma ViewsMarked(o: T, k: nat)
      requires Valid()
      requires if k < |observers| then observers[k] == Some(o) else k == |observers| && Some(o) !in observers
      ensures var marked := if k < |observers| then observers[k := None] else observers;
              && Live(marked, ids, 0, |marked|) == Without(Live(observers, ids, 0, |observers|), o)
              && forall i :: i in liveIterators ==>
                   ViewAt(marked, ids, i.index, i.ClampedMaxIndex(|marked|)) == Forget(ViewOf(i), o)
    {
      var marked := if k < |observers| then observers[k := None] else observers;
      StretchMarked(o, k, 0, |observers|);
      forall i | i in liveIterators
        ensures ViewAt(marked, ids, i.index, i.ClampedMaxIndex(|marked|)) == Forget(ViewOf(i), o)
      {
        var end := i.ClampedMaxIndex(|marked|);
        if i.index < end {
          StretchMarked(o, k, i.index + 1, end);
          assert i.index != k ==> observers[i.index] != Some(o);
        }
      }
    }

    lemma StretchMarked(o: T, k: nat, lo: nat, hi: nat)
      requires |observers| == |ids| && NoDuplicates(observers) && hi <= |observers|
      requires if k < |observers| then observers[k] == Some(o) else k == |observers| && Some(o) !in observers
      ensures var marked := if k < |observers| then observers[k := None] else observers;
              Live(marked, ids, lo, hi) == Without(Live(observers, ids, lo, hi), o)
    {
      if k < |observers| {
        LiveMarked(observers, ids, k, o, lo, hi);
      } else {
        LiveWithoutAbsent(observers, ids, o, lo, hi);
      }
    }

    method RemoveObserver(o: T)
      requires Valid()
      modifies this`observers, this`ids
      ensures Valid()
      ensures Abs() == Step(old(Abs()), Remove(o))
      ensures AllButOne(old(Abs().contents), o, Abs().contents) && !Registered(Abs().contents, o)
      ensures liveIterators != [] ==>
                |observers| == |old(observers)|
                && forall k :: 0 <= k < |observers| ==> observers[k] == old(observers)[k] || observers[k] == None
    {
      RemoveLeavesTheOthers(Abs(), o);
      EraseOrMark(o);
    }

    method EraseOrMark(o: T)
      requires Valid()
      modifies this`observers, this`ids
      ensures Valid() && Abs() == Step(old(Abs()), Remove(o))
      ensures liveIterators != [] ==>
                |observers| == |old(observers)|
                && forall k :: 0 <= k < |observers| ==> observers[k] == old(observers)[k] || observers[k] == None
    {
      var k := Find(Some(o));
      if k == |observers| {
        ViewsMarked(o, k);
        assert Abs().views == Step(Abs(), Remove(o)).views;
      } else if liveIterators == [] {
        Erase(k, o);
      } else {
        Mark(k, o);
      }
    }

    /** Something iterates, so the slot stays, marked. */
    method Mark(k: nat, o: T)
      requires Valid() && liveIterators != [] && k < |observers| && observers[k] == Some(o)
      modifies this`observers
      ensures Valid() && observers == old(observers)[k := None]
      ensures Abs() == Step(old(Abs()), Remove(o))
    {
      ViewsMarked(o, k);
      ghost var marked := Step(Abs(), Remove(o)).views;
      observers := observers[k := None];
      assert NoDuplicates(observers);
      assert forall i :: i in liveIterators ==> Attached(i);
      assert Abs().views == marked;
    }

    /** Nothing iterates, so the slot can go at once. */
    method Erase(k: nat, o: T)
      requires Valid() && liveIterators == [] && k < |observers| && observers[k] == Some(o)
      modifies this`observers, this`ids
      ensures Valid()
      ensures Abs() == Step(old(Abs()), Remove(o))
    {
      LiveErased(observers, ids, k, o);
      ErasureKeepsShape(observers, ids, k, nextId);
      observers, ids := observers[..k] + observers[k+1..], ids[..k] + ids[k+1..];
      assert Abs().views == Step(old(Abs()), Remove(o)).views;
    }

    method Clear()
      requires Valid()
      modifies this`observers, this`ids
      ensures Valid()
      ensures Abs() == Step(old(Abs()), Event.Clear) && Abs().contents == []
      ensures liveIterators != [] ==>
                |observers| == |old(observers)|
                && forall k :: 0 <= k < |observers| ==> observers[k] == old(observers)[k] || observers[k] == None
    {
      if liveIterators == [] {
        observers, ids := [], [];
      } else {
        var k := 0;
        while k < |observers|
          invariant k <= |observers| == |old(observers)| && ids == old(ids)
          invariant forall j :: 0 <= j < k ==> observers[j] == None
          invariant forall j :: k <= j < |observers| ==> observers[j] == old(observers)[j]
        {
          observers := observers[k := None];
          k := k + 1;
        }
        LiveEmpty(observers, ids, 0, |observers|);
        forall i | i in liveIterators ensures ViewOf(i) == ForgetAll(old(ViewOf(i))) {
          LiveEmpty(observers, ids, i.index + 1, i.ClampedMaxIndex(|observers|));
        }
      }
      assert Abs().views == Step(old(Abs()), Event.Clear).views;
    }

    /** An empty vector is iterated without attaching to it. */
    method BeginPass() returns (i: Iter<T>)
      requires Valid()
      modifies this`liveIterators
      ensures Valid() && fresh(i) && i.Valid()
      ensures i.list == if old(observers) == [] then null else this
      ensures var e := Begin(i, old(observers) != []);
              Enabled(old(Abs()), e) && Abs() == Step(old(Abs()), e)
    {
      if observers == [] {
        i := new Iter<T>.Detached();
      } else {
        i := new Iter<T>.At(this);
      }
    }

    /** Erases the marked slots; only called while at most one iterator, on its way out, is left. */
    method Compact()
      requires |observers| == |ids| && NoDuplicates(observers) && Increasing(ids, nextId)
      modifies this`observers, this`ids
      ensures observers == Compacted(old(observers)) && ids == CompactedIds(old(observers), old(ids))
      ensures |observers| == |ids| && NoDuplicates(observers) && NoTombstones(observers)
      ensures Increasing(ids, nextId)
      ensures Live(observers, ids, 0, |observers|) == old(Live(observers, ids, 0, |observers|))
    {
      CompactionKeepsLive(observers, ids);
      CompactionKeepsOrder(observers, ids, nextId);
      observers, ids := Compacted(observers), CompactedIds(observers, ids);
    }

    /** Destroying the list detaches every live iterator, which puts each of them at its end. */
    method Destroy()
      requires Valid()
      modifies this`liveIterators, (set i | i in liveIterators)`list
      ensures liveIterators == []
      ensures forall i :: i in old(liveIterators) ==> i.list == null && i.Valid() && i.IsEnd()
      ensures Abs() == Step(old(Abs()), Event.Destroy)
    {
      while liveIterators != []
        invariant forall i :: i in liveIterators ==> i in old(liveIterators)
        invariant forall i :: i in old(liveIterators) ==> i in liveIterators || i.list == null
        decreases |liveIterators|
      {
        liveIterators[0].list := null;
        liveIterators := liveIterators[1..];
      }
    }
  }
}
