/** Dotted paths into value trees: finding, setting and extracting. */
module ValuePaths {
  import opened Wrappers
  import opened Values
  import opened Dictionaries

  type Path = seq<string>

  const EMPTY := Dictionary([])

  // ----- what the operations mean on a list of components -----

  function FindAt(v: Value, p: Path): Option<Value>
    decreases |p|
  {
    if p == [] then Some(v)
    else if !v.Dictionary? then None
    else match Find(v.dict, p[0])
      case None => None
      case Some(child) => FindAt(child, p[1..])
  }

  /** The child under `key`, or the empty dictionary that setting would create there. */
  function ChildOrEmpty(d: Dict, key: string): Value {
    match Find(d, key) case None => EMPTY case Some(child) => child
  }

  /** The tree with `x` at `p`, unless something on the way is not a dictionary. */
  function SetAt(v: Value, p: Path, x: Value): Option<Value>
    requires p != []
    decreases |p|
  {
    if !v.Dictionary? then None
    else if |p| == 1 then Some(Dictionary(Put(v.dict, p[0], x)))
    else match SetAt(ChildOrEmpty(v.dict, p[0]), p[1..], x)
      case None => None
      case Some(child) => Some(Dictionary(Put(v.dict, p[0], child)))
  }

  /** What is taken out at `p`, and the tree that is left: dictionaries that the extraction empties
      are removed on the way back up, except the one it started from. */
  function ExtractAt(v: Value, p: Path): (r: (Option<Value>, Value))
    decreases |p|
  {
    if p == [] || !v.Dictionary? then (None, v)
    else match Find(v.dict, p[0])
      case None => (None, v)
      case Some(child) =>
        if |p| == 1 then (Some(child), Dictionary(Del(v.dict, p[0])))
        else if !child.Dictionary? then (None, v)
        else Pruned(v, p[0], ExtractAt(child, p[1..]))
  }

  /** What an extraction below `key` makes of the dictionary above. */
  function Pruned(v: Value, key: string, below: (Option<Value>, Value)): (Option<Value>, Value)
    requires v.Dictionary?
  {
    if below.0 == None then (None, v)
    else if below.1 == EMPTY then (below.0, Dictionary(Del(v.dict, key)))
    else (below.0, Dictionary(Put(v.dict, key, below.1)))
  }

  lemma {:induction false} ExtractKeepsKind(v: Value, p: Path)
    ensures v.Dictionary? ==> ExtractAt(v, p).1.Dictionary?
    ensures ExtractAt(v, p).0 == None ==> ExtractAt(v, p).1 == v
    decreases |p|
  {
  }

  lemma {:induction false} SetKeepsWellFormed(v: Value, p: Path, x: Value)
    requires p != [] && WellFormed(v) && WellFormed(x) && SetAt(v, p, x).Some?
    ensures WellFormed(SetAt(v, p, x).value)
    decreases |p|
  {
    if |p| == 1 {
      PutKeepsSorted(v.dict, p[0], x);
      PutKeepsWellFormed(v.dict, p[0], x);
    } else {
      var child := ChildOrEmpty(v.dict, p[0]);
      if Find(v.dict, p[0]).Some? {
        FoundIsWellFormed(v.dict, p[0]);
      }
      SetKeepsWellFormed(child, p[1..], x);
      var child' := SetAt(child, p[1..], x).value;
      PutKeepsSorted(v.dict, p[0], child');
      PutKeepsWellFormed(v.dict, p[0], child');
    }
  }

  lemma {:induction false} ExtractKeepsWellFormed(v: Value, p: Path)
    requires WellFormed(v)
    ensures WellFormed(ExtractAt(v, p).1)
    decreases |p|
  {
    if p != [] && v.Dictionary? && Find(v.dict, p[0]).Some? {
      FoundIsWellFormed(v.dict, p[0]);
      DelKeepsSorted(v.dict, p[0]);
      DelKeepsWellFormed(v.dict, p[0]);
      var child := Find(v.dict, p[0]).value;
      ExtractKeepsWellFormed(child, p[1..]);
      var left := ExtractAt(child, p[1..]).1;
      PutKeepsSorted(v.dict, p[0], left);
      PutKeepsWellFormed(v.dict, p[0], left);
    }
  }

  // ----- the laws -----

  /** After a successful set, the path finds the value. */
  lemma {:induction false} SetThenFind(v: Value, p: Path, x: Value)
    requires p != [] && SetAt(v, p, x).Some?
    ensures FindAt(SetAt(v, p, x).value, p) == Some(x)
    decreases |p|
  {
    if |p| == 1 {
      FindPut(v.dict, p[0], x, p[0]);
    } else {
      var child := ChildOrEmpty(v.dict, p[0]);
      SetThenFind(child, p[1..], x);
      FindPut(v.dict, p[0], SetAt(child, p[1..], x).value, p[0]);
    }
  }

  lemma {:induction false} EmptyAcceptsAll(p: Path, x: Value)
    requires p != []
    ensures SetAt(EMPTY, p, x).Some?
    decreases |p|
  {
    if |p| > 1 {
      EmptyAcceptsAll(p[1..], x);
    }
  }

  /** A set fails exactly when the path runs through something that is not a dictionary. */
  lemma {:induction false} SetFailsExactly(v: Value, p: Path, x: Value)
    requires p != []
    ensures SetAt(v, p, x) == None
       <==> exists k :: 0 <= k < |p| && FindAt(v, p[..k]).Some? && !FindAt(v, p[..k]).value.Dictionary?
    decreases |p|
  {
    assert p[..0] == [];
    if v.Dictionary? {
      forall k | 0 < k < |p| ensures p[..k][0] == p[0] && p[..k][1..] == p[1..][..k - 1] {
      }
      if |p| > 1 {
        match Find(v.dict, p[0])
        case None => EmptyAcceptsAll(p[1..], x);
        case Some(child) =>
          SetFailsExactly(child, p[1..], x);
          forall k | 0 <= k < |p| - 1 ensures FindAt(v, p[..k + 1]) == FindAt(child, p[1..][..k]) {
          }
      }
    } else {
      assert FindAt(v, p[..0]) == Some(v);
    }
  }

  /** Paths that neither lead to `p` nor on from it. */
  predicate Apart(p: Path, q: Path) {
    !(p <= q) && !(q <= p)
  }

  lemma ApartTails(p: Path, q: Path)
    requires Apart(p, q) && p[0] == q[0]
    ensures Apart(p[1..], q[1..]) && |p| > 1
  {
    assert p == [p[0]] + p[1..] && q == [q[0]] + q[1..];
  }

  /** Setting leaves what lies apart from the path as it was. */
  lemma {:induction false} SetLeavesApart(v: Value, p: Path, x: Value, q: Path)
    requires p != [] && SetAt(v, p, x).Some? && Apart(p, q)
    ensures FindAt(SetAt(v, p, x).value, q) == FindAt(v, q)
    decreases |p|
  {
    if p[0] == q[0] {
      ApartTails(p, q);
      var child := ChildOrEmpty(v.dict, p[0]);
      var child' := SetAt(child, p[1..], x).value;
      SetLeavesApart(child, p[1..], x, q[1..]);
      FindPut(v.dict, p[0], child', q[0]);
    } else {
      FindPut(v.dict, p[0], x, q[0]);
      if |p| > 1 {
        FindPut(v.dict, p[0], SetAt(ChildOrEmpty(v.dict, p[0]), p[1..], x).value, q[0]);
      }
    }
  }

  /** Extracting gives what finding finds, and leaves nothing there. */
  lemma {:induction false} ExtractTakesWhatFindFinds(v: Value, p: Path)
    requires p != [] && WellFormed(v)
    ensures ExtractAt(v, p).0 == FindAt(v, p)
    ensures FindAt(ExtractAt(v, p).1, p) == None
    decreases |p|
  {
    if v.Dictionary? && Find(v.dict, p[0]).Some? {
      var child := Find(v.dict, p[0]).value;
      FindDel(v.dict, p[0], p[0]);
      if |p| > 1 {
        FoundIsWellFormed(v.dict, p[0]);
        ExtractTakesWhatFindFinds(child, p[1..]);
        FindPut(v.dict, p[0], ExtractAt(child, p[1..]).1, p[0]);
      }
    }
  }

  /** Extracting leaves what lies apart from the path as it was, pruning included. */
  lemma {:induction false} ExtractLeavesApart(v: Value, p: Path, q: Path)
    requires WellFormed(v) && Apart(p, q)
    ensures FindAt(ExtractAt(v, p).1, q) == FindAt(v, q)
    decreases |p|
  {
    if v.Dictionary? && Find(v.dict, p[0]).Some? {
      var child := Find(v.dict, p[0]).value;
      FindDel(v.dict, p[0], q[0]);
      FoundIsWellFormed(v.dict, p[0]);
      var left := ExtractAt(child, p[1..]).1;
      FindPut(v.dict, p[0], left, q[0]);
      if p[0] == q[0] {
        ApartTails(p, q);
        ExtractLeavesApart(child, p[1..], q[1..]);
      }
    }
  }

  /** No dictionary strictly between the root and the end of `p` is empty. */
  predicate NoEmptyOnTheWay(v: Value, p: Path) {
    forall k :: 0 < k < |p| ==> FindAt(v, p[..k]) != Some(EMPTY)
  }

  lemma NoEmptySteps(v: Value, p: Path, child: Value)
    requires |p| > 1 && v.Dictionary? && Find(v.dict, p[0]) == Some(child)
    ensures NoEmptyOnTheWay(v, p) <==> child != EMPTY && NoEmptyOnTheWay(child, p[1..])
  {
    forall k | 0 < k < |p| ensures FindAt(v, p[..k]) == FindAt(child, p[1..][..k - 1]) {
      assert p[..k][0] == p[0] && p[..k][1..] == p[1..][..k - 1];
    }
    assert p[1..][..0] == [];
    if NoEmptyOnTheWay(v, p) {
      assert FindAt(v, p[..1]) == FindAt(child, p[1..][..0]);
      forall k | 0 < k < |p| - 1 ensures FindAt(child, p[1..][..k]) != Some(EMPTY) {
        assert FindAt(v, p[..k + 1]) == FindAt(child, p[1..][..k]);
      }
    }
  }

  /** Extracting a value that was just set on an absent path gives the value back, and gives the
      original tree back exactly when no dictionary on the way was empty beforehand. */
  lemma {:induction false} SetThenExtract(v: Value, p: Path, x: Value)
    requires p != [] && WellFormed(v) && FindAt(v, p) == None && SetAt(v, p, x).Some?
    ensures var (taken, left) := ExtractAt(SetAt(v, p, x).value, p);
            taken == Some(x) && (left == v <==> NoEmptyOnTheWay(v, p))
    decreases |p|
  {
    if |p| == 1 {
      FindPut(v.dict, p[0], x, p[0]);
      DelPut(v.dict, p[0], x);
    } else {
      var child := ChildOrEmpty(v.dict, p[0]);
      var child' := SetAt(child, p[1..], x).value;
      if Find(v.dict, p[0]).Some? {
        FoundIsWellFormed(v.dict, p[0]);
        NoEmptySteps(v, p, child);
      } else {
        NothingOnTheWay(v, p);
        NothingOnTheWay(EMPTY, p[1..]);
        DelPut(v.dict, p[0], child');
      }
      SetThenExtract(child, p[1..], x);
      var left := ExtractAt(child', p[1..]).1;
      FindPut(v.dict, p[0], child', p[0]);
      PutTwice(v.dict, p[0], child', left);
      RestoredExactly(v.dict, p[0], child', left);
    }
  }

  lemma NothingOnTheWay(v: Value, p: Path)
    requires p != [] && v.Dictionary? && Find(v.dict, p[0]) == None
    ensures NoEmptyOnTheWay(v, p)
  {
    forall k | 0 < k < |p| ensures FindAt(v, p[..k]) == None {
      assert p[..k][0] == p[0];
    }
  }

  /** Whether putting back or pruning restores the entry that was there. */
  lemma RestoredExactly(d: Dict, key: string, child': Value, left: Value)
    requires Sorted(d)
    ensures Find(d, key).Some? ==>
              && Del(Put(d, key, child'), key) != d
              && (Put(d, key, left) == d <==> Find(d, key) == Some(left))
  {
    if Find(d, key).Some? {
      PutKeepsSorted(d, key, child');
      FindDel(Put(d, key, child'), key, key);
      FindPut(d, key, left, key);
      if Find(d, key) == Some(left) {
        PutFound(d, key, left);
      }
    }
  }

  /** A dictionary that was empty beforehand is pruned: from `{"a": {}}`, setting and extracting
      `a.b` leaves `{}`. */
  lemma EmptyDictionaryIsPruned()
    ensures var v := Dictionary([Entry("a", EMPTY)]);
            && WellFormed(v) && SetAt(v, ["a", "b"], Null).Some?
            && ExtractAt(SetAt(v, ["a", "b"], Null).value, ["a", "b"]) == (Some(Null), EMPTY) && EMPTY != v
  {
    var v := Dictionary([Entry("a", EMPTY)]);
    var p := ["a", "b"];
    assert p[1..] == ["b"];
    var inner := Dictionary([Entry("b", Null)]);
    assert Put([], "b", Null) == [Entry("b", Null)];
    assert SetAt(EMPTY, ["b"], Null) == Some(inner);
    assert Put(v.dict, "a", inner) == [Entry("a", inner)] by {
      assert v.dict[1..] == [];
    }
    assert SetAt(v, p, Null) == Some(Dictionary([Entry("a", inner)]));
    assert ExtractAt(inner, ["b"]) == (Some(Null), EMPTY);
  }
}
