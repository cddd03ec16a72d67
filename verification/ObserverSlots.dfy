/** The slot vector behind an observer list: observers and tombstones, and what it stands for. */
module ObserverSlots {
  import opened Wrappers
  import opened ObserverSpec

  /** A slot holds an observer, or nothing once that observer is marked for removal.  `ids` gives
      each slot the number of the registration that made it. */
  type Slots<T> = seq<Option<T>>

  /** The registrations alive in slots `lo` to `hi`, in order. */
  ghost function Live<T>(slots: Slots<T>, ids: seq<nat>, lo: nat, hi: nat): seq<Registration<T>>
    requires hi <= |slots| == |ids|
    decreases hi
  {
    if lo >= hi then []
    else
      var front := Live(slots, ids, lo, hi - 1);
      if slots[hi - 1].Some? then front + [Registration(slots[hi - 1].value, ids[hi - 1])] else front
  }

  /** The view of an iterator at `index` that may go up to `hi`. */
  ghost function ViewAt<T>(slots: Slots<T>, ids: seq<nat>, index: nat, hi: nat): View<T>
    requires hi <= |slots| == |ids|
  {
    if index >= hi then View(AtEnd, [])
    else
      View(if slots[index].Some? then On(Registration(slots[index].value, ids[index])) else Stale,
           Live(slots, ids, index + 1, hi))
  }

  predicate NoDuplicates<T(==)>(slots: Slots<T>) {
    forall j, k :: 0 <= j < k < |slots| && slots[j].Some? ==> slots[j] != slots[k]
  }

  predicate NoTombstones<T(==)>(slots: Slots<T>) {
    None !in slots
  }

  lemma {:induction false} LiveIn<T(!new)>(slots: Slots<T>, ids: seq<nat>, lo: nat, hi: nat, r: Registration<T>)
    requires hi <= |slots| == |ids|
    ensures r in Live(slots, ids, lo, hi)
       <==> exists k :: lo <= k < hi && slots[k] == Some(r.observer) && ids[k] == r.id
    decreases hi
  {
    if hi > lo {
      LiveIn(slots, ids, lo, hi - 1, r);
    }
  }

  /** The slots between two positions are all that matters. */
  lemma {:induction false} LiveSame<T(!new)>(
      slots: Slots<T>, ids: seq<nat>, slots': Slots<T>, ids': seq<nat>, lo: nat, hi: nat)
    requires hi <= |slots| == |ids| && hi <= |slots'| == |ids'|
    requires forall k :: lo <= k < hi ==> slots[k] == slots'[k] && ids[k] == ids'[k]
    ensures Live(slots, ids, lo, hi) == Live(slots', ids', lo, hi)
    decreases hi
  {
    if hi > lo {
      LiveSame(slots, ids, slots', ids', lo, hi - 1);
    }
  }

  lemma {:induction false} LiveSplit<T(!new)>(slots: Slots<T>, ids: seq<nat>, lo: nat, mid: nat, hi: nat)
    requires lo <= mid <= hi <= |slots| == |ids|
    ensures Live(slots, ids, lo, hi) == Live(slots, ids, lo, mid) + Live(slots, ids, mid, hi)
    decreases hi
  {
    if hi > mid {
      LiveSplit(slots, ids, lo, mid, hi - 1);
    }
  }

  lemma {:induction false} LiveEmpty<T(!new)>(slots: Slots<T>, ids: seq<nat>, lo: nat, hi: nat)
    requires hi <= |slots| == |ids|
    requires forall k :: lo <= k < hi ==> slots[k].None?
    ensures Live(slots, ids, lo, hi) == []
    decreases hi
  {
    if hi > lo {
      LiveEmpty(slots, ids, lo, hi - 1);
    }
  }

  lemma {:induction false} WithoutConcat<T(!new)>(a: seq<Registration<T>>, b: seq<Registration<T>>, o: T)
    ensures Without(a + b, o) == Without(a, o) + Without(b, o)
  {
    if a == [] {
      assert a + b == b;
    } else {
      assert (a + b)[1..] == a[1..] + b;
      WithoutConcat(a[1..], b, o);
    }
  }

  /** Marking the slot of `o` takes `o` out of every stretch of slots. */
  lemma {:induction false} LiveMarked<T(!new)>(slots: Slots<T>, ids: seq<nat>, k: nat, o: T, lo: nat, hi: nat)
    requires hi <= |slots| == |ids| && k < |slots|
    requires NoDuplicates(slots) && slots[k] == Some(o)
    ensures Live(slots[k := None], ids, lo, hi) == Without(Live(slots, ids, lo, hi), o)
    decreases hi
  {
    if hi > lo {
      LiveMarked(slots, ids, k, o, lo, hi - 1);
      if slots[hi - 1].Some? {
        WithoutConcat(Live(slots, ids, lo, hi - 1), [Registration(slots[hi - 1].value, ids[hi - 1])], o);
        assert hi - 1 != k ==> slots[hi - 1].value != o;
      }
    }
  }

  lemma {:induction false} WithoutAbsent<T(!new)>(rs: seq<Registration<T>>, o: T)
    requires forall r :: r in rs ==> r.observer != o
    ensures Without(rs, o) == rs
  {
    if rs != [] {
      WithoutAbsent(rs[1..], o);
    }
  }

  lemma LiveWithoutAbsent<T(!new)>(slots: Slots<T>, ids: seq<nat>, o: T, lo: nat, hi: nat)
    requires hi <= |slots| == |ids| && Some(o) !in slots
    ensures Without(Live(slots, ids, lo, hi), o) == Live(slots, ids, lo, hi)
  {
    forall r | r in Live(slots, ids, lo, hi) ensures r.observer != o {
      LiveIn(slots, ids, lo, hi, r);
    }
    WithoutAbsent(Live(slots, ids, lo, hi), o);
  }

  lemma RegisteredIsPresent<T(!new)>(slots: Slots<T>, ids: seq<nat>, o: T)
    requires |slots| == |ids|
    ensures Registered(Live(slots, ids, 0, |slots|), o) <==> Some(o) in slots
  {
    if Some(o) in slots {
      var k :| 0 <= k < |slots| && slots[k] == Some(o);
      LiveIn(slots, ids, 0, |slots|, Registration(o, ids[k]));
    }
    if Registered(Live(slots, ids, 0, |slots|), o) {
      var r :| r in Live(slots, ids, 0, |slots|) && r.observer == o;
      LiveIn(slots, ids, 0, |slots|, r);
    }
  }

  // ----- compaction -----

  /** The slots left when the marked ones are erased. */
  function Compacted<T>(slots: Slots<T>): Slots<T> {
    if slots == [] then []
    else if slots[|slots| - 1].None? then Compacted(slots[..|slots| - 1])
    else Compacted(slots[..|slots| - 1]) + [slots[|slots| - 1]]
  }

  ghost function CompactedIds<T>(slots: Slots<T>, ids: seq<nat>): seq<nat>
    requires |slots| == |ids|
  {
    if slots == [] then []
    else
      var front := CompactedIds(slots[..|slots| - 1], ids[..|slots| - 1]);
      if slots[|slots| - 1].None? then front else front + [ids[|slots| - 1]]
  }

  /** Compaction changes what the vector holds but not what it stands for. */
  lemma {:induction false} CompactionKeepsLive<T(!new)>(slots: Slots<T>, ids: seq<nat>)
    requires |slots| == |ids|
    ensures |Compacted(slots)| == |CompactedIds(slots, ids)|
    ensures Live(Compacted(slots), CompactedIds(slots, ids), 0, |Compacted(slots)|) == Live(slots, ids, 0, |slots|)
    ensures NoTombstones(Compacted(slots))
    ensures NoDuplicates(slots) ==> NoDuplicates(Compacted(slots))
    ensures forall x :: x in Compacted(slots) ==> x in slots
    decreases |slots|
  {
    if slots != [] {
      var n := |slots| - 1;
      var front, frontIds := slots[..n], ids[..n];
      CompactionKeepsLive(front, frontIds);
      LiveSame(slots, ids, front, frontIds, 0, n);
      var c, d := Compacted(front), CompactedIds(front, frontIds);
      if slots[n].Some? {
        LiveSame(c + [slots[n]], d + [ids[n]], c, d, 0, |c|);
        if NoDuplicates(slots) {
          forall j | 0 <= j < |c| && c[j].Some? ensures c[j] != slots[n] {
            assert c[j] in front;
          }
        }
      }
    }
  }

  ghost predicate Increasing(ids: seq<nat>, bound: nat) {
    && (forall j, k :: 0 <= j < k < |ids| ==> ids[j] < ids[k])
    && (forall k :: 0 <= k < |ids| ==> ids[k] < bound)
  }

  lemma {:induction false} CompactionKeepsOrder<T(!new)>(slots: Slots<T>, ids: seq<nat>, bound: nat)
    requires |slots| == |ids| && Increasing(ids, bound)
    ensures Increasing(CompactedIds(slots, ids), bound)
    decreases |slots|
  {
    if slots != [] {
      var n := |slots| - 1;
      CompactionKeepsOrder(slots[..n], ids[..n], ids[n]);
    }
  }

  /** The registrations of a stretch are numbered within the bound and stand for the vector. */
  lemma LiveWithin<T(!new)>(slots: Slots<T>, ids: seq<nat>, lo: nat, hi: nat, bound: nat, r: Registration<T>)
    requires hi <= |slots| == |ids| && Increasing(ids, bound)
    requires r in Live(slots, ids, lo, hi)
    ensures r.id < bound && r in Live(slots, ids, 0, |slots|)
  {
    LiveIn(slots, ids, lo, hi, r);
    LiveIn(slots, ids, 0, |slots|, r);
  }

  /** The registrations of a stretch are in order and distinct. */
  lemma {:induction false} LiveOrdered<T(!new)>(slots: Slots<T>, ids: seq<nat>, lo: nat, hi: nat, bound: nat)
    requires hi <= |slots| == |ids| && NoDuplicates(slots) && Increasing(ids, bound)
    ensures Ordered(Live(slots, ids, lo, hi)) && Distinct(Live(slots, ids, lo, hi))
    decreases hi
  {
    if hi > lo {
      LiveOrdered(slots, ids, lo, hi - 1, bound);
      var front := Live(slots, ids, lo, hi - 1);
      forall k | 0 <= k < |front|
        ensures front[k].id < ids[hi - 1] && Some(front[k].observer) != slots[hi - 1]
      {
        LiveIn(slots, ids, lo, hi - 1, front[k]);
      }
    }
  }

  /** An iterator standing in the vector has a view that fits what the vector stands for. */
  lemma ViewAtFits<T(!new)>(slots: Slots<T>, ids: seq<nat>, index: nat, hi: nat, bound: nat)
    requires hi <= |slots| == |ids| && NoDuplicates(slots) && Increasing(ids, bound)
    ensures ViewFits(ViewAt(slots, ids, index, hi), Live(slots, ids, 0, |slots|))
  {
    if index < hi {
      LiveOrdered(slots, ids, index + 1, hi, bound);
      forall r | r in Live(slots, ids, index + 1, hi)
        ensures ids[index] < r.id && r in Live(slots, ids, 0, |slots|)
      {
        LiveIn(slots, ids, index + 1, hi, r);
        LiveWithin(slots, ids, index + 1, hi, bound, r);
      }
      if slots[index].Some? {
        LiveIn(slots, ids, 0, |slots|, Registration(slots[index].value, ids[index]));
      }
    }
  }

  lemma ErasureKeepsShape<T(!new)>(slots: Slots<T>, ids: seq<nat>, k: nat, bound: nat)
    requires |slots| == |ids| && k < |slots| && NoDuplicates(slots) && Increasing(ids, bound)
    ensures NoDuplicates(slots[..k] + slots[k+1..]) && Increasing(ids[..k] + ids[k+1..], bound)
    ensures NoTombstones(slots) ==> NoTombstones(slots[..k] + slots[k+1..])
  {
  }

  /** Erasing one slot, as `RemoveObserver` does when nothing iterates. */
  lemma LiveErased<T(!new)>(slots: Slots<T>, ids: seq<nat>, k: nat, o: T)
    requires |slots| == |ids| && k < |slots|
    requires NoDuplicates(slots) && slots[k] == Some(o)
    ensures var slots' := slots[..k] + slots[k+1..];
            var ids' := ids[..k] + ids[k+1..];
            && |slots'| == |ids'|
            && Live(slots', ids', 0, |slots'|) == Without(Live(slots, ids, 0, |slots|), o)
  {
    var marked := slots[k := None];
    LiveMarked(slots, ids, k, o, 0, |slots|);
    LiveShift(marked, ids, k, |slots|);
  }

  lemma {:induction false} LiveShift<T(!new)>(slots: Slots<T>, ids: seq<nat>, k: nat, hi: nat)
    requires k < hi <= |slots| == |ids| && slots[k].None?
    ensures Live(slots[..k] + slots[k+1..], ids[..k] + ids[k+1..], 0, hi - 1) == Live(slots, ids, 0, hi)
    decreases hi
  {
    var slots', ids' := slots[..k] + slots[k+1..], ids[..k] + ids[k+1..];
    if hi == k + 1 {
      LiveSame(slots', ids', slots, ids, 0, k);
    } else {
      LiveShift(slots, ids, k, hi - 1);
      assert slots'[hi - 2] == slots[hi - 1] && ids'[hi - 2] == ids[hi - 1];
    }
  }
}
