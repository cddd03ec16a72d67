/** Merging one dictionary into another, and copying without empty children. */
module ValueMerge {
  import opened Wrappers
  import opened Values
  import opened Dictionaries
  import opened ValuePaths

  // ----- merging -----

  predicate IsDict(v: Option<Value>) {
    v.Some? && v.value.Dictionary?
  }

  /** One entry of the argument: merged where both sides are dictionaries, copied over otherwise. */
  function MergeEntry(d: Dict, e: Entry): Dict
    decreases Size(e.value)
  {
    if e.value.Dictionary? && IsDict(Find(d, e.key))
    then Put(d, e.key, Dictionary(Merge(Find(d, e.key).value.dict, e.value.dict)))
    else Put(d, e.key, e.value)
  }

  function Merge(a: Dict, b: Dict): Dict
    decreases DictSize(b)
  {
    if b == [] then a else Merge(MergeEntry(a, b[0]), b[1..])
  }

  /** The value a key has after merging: `x` from the receiver, `y` from the argument. */
  function MergedValue(x: Option<Value>, y: Option<Value>): Option<Value> {
    if y == None then x
    else if y.value.Dictionary? && IsDict(x) then Some(Dictionary(Merge(x.value.dict, y.value.dict)))
    else y
  }

  lemma {:induction false} FindMerge(a: Dict, b: Dict, key: string)
    requires Sorted(b)
    ensures Find(Merge(a, b), key) == MergedValue(Find(a, key), Find(b, key))
    decreases |b|
  {
    if b != [] {
      var e := b[0];
      var put := if e.value.Dictionary? && IsDict(Find(a, e.key))
                 then Dictionary(Merge(Find(a, e.key).value.dict, e.value.dict)) else e.value;
      FindMerge(MergeEntry(a, e), b[1..], key);
      FindPut(a, e.key, put, key);
      AfterFindsNothing(b[1..], e.key);
    }
  }

  lemma {:induction false} MergeKeepsWellFormed(a: Dict, b: Dict)
    requires Sorted(a) && AllWellFormed(a) && AllWellFormed(b)
    ensures Sorted(Merge(a, b)) && AllWellFormed(Merge(a, b))
    decreases DictSize(b)
  {
    if b != [] {
      var e := b[0];
      var merges := e.value.Dictionary? && IsDict(Find(a, e.key));
      var put := if merges then Dictionary(Merge(Find(a, e.key).value.dict, e.value.dict)) else e.value;
      if merges {
        FoundIsWellFormed(a, e.key);
        assert Size(e.value) == 1 + DictSize(e.value.dict);
        MergeKeepsWellFormed(Find(a, e.key).value.dict, e.value.dict);
      }
      PutKeepsSorted(a, e.key, put);
      PutKeepsWellFormed(a, e.key, put);
      MergeKeepsWellFormed(MergeEntry(a, e), b[1..]);
    }
  }

  /** Some prefix of `p`, possibly `p` itself, leads in `v` to something that is not a dictionary. */
  predicate Shadows(v: Value, p: Path)
    decreases |p|
  {
    !v.Dictionary? || (p != [] && Find(v.dict, p[0]).Some? && Shadows(Find(v.dict, p[0]).value, p[1..]))
  }

  lemma {:induction false} ShadowsIsPrefix(v: Value, p: Path)
    ensures Shadows(v, p)
       <==> exists k :: 0 <= k <= |p| && FindAt(v, p[..k]).Some? && !FindAt(v, p[..k]).value.Dictionary?
    decreases |p|
  {
    assert p[..0] == [];
    if !v.Dictionary? {
      assert FindAt(v, p[..0]) == Some(v);
    } else if p != [] {
      forall k | 0 < k <= |p| ensures p[..k][0] == p[0] && p[..k][1..] == p[1..][..k - 1] {
      }
      if Find(v.dict, p[0]).Some? {
        var child := Find(v.dict, p[0]).value;
        ShadowsIsPrefix(child, p[1..]);
        forall k | 0 <= k < |p| ensures FindAt(v, p[..k + 1]) == FindAt(child, p[1..][..k]) {
        }
      }
    }
  }

  /** Where every path leads after merging.  A path that the argument resolves to a scalar or a
      list, or that runs through one, leads where the argument says; a path to dictionaries on both
      sides leads to their merge; a path only one side resolves leads where that side says. */
  lemma {:induction false} MergeAt(a: Value, b: Value, p: Path)
    requires a.Dictionary? && b.Dictionary? && WellFormed(a) && WellFormed(b)
    ensures FindAt(Dictionary(Merge(a.dict, b.dict)), p)
         == if Shadows(b, p) then FindAt(b, p) else MergedValue(FindAt(a, p), FindAt(b, p))
    decreases |p|
  {
    if p != [] {
      FindMerge(a.dict, b.dict, p[0]);
      var x, y := Find(a.dict, p[0]), Find(b.dict, p[0]);
      if IsDict(x) && IsDict(y) {
        FoundIsWellFormed(a.dict, p[0]);
        FoundIsWellFormed(b.dict, p[0]);
        MergeAt(x.value, y.value, p[1..]);
      } else if IsDict(y) {
        NotShadowed(y.value, p[1..]);
      }
    }
  }

  lemma {:induction false} NotShadowed(v: Value, p: Path)
    ensures !Shadows(v, p) ==> FindAt(v, p) == None || IsDict(FindAt(v, p))
    decreases |p|
  {
    if v.Dictionary? && p != [] && Find(v.dict, p[0]).Some? {
      NotShadowed(Find(v.dict, p[0]).value, p[1..]);
    }
  }

  lemma {:induction false} MergeSelf(a: Dict)
    requires Sorted(a) && AllWellFormed(a)
    ensures Merge(a, a) == a
    decreases DictSize(a)
  {
    MergeKeepsWellFormed(a, a);
    forall key ensures Find(Merge(a, a), key) == Find(a, key) {
      FindMerge(a, a, key);
      if IsDict(Find(a, key)) {
        FoundIsWellFormed(a, key);
        FoundIsSmaller(a, key);
        MergeSelf(Find(a, key).value.dict);
      }
    }
    Extensional(Merge(a, a), a);
  }

  lemma {:induction false} FoundIsSmaller(d: Dict, key: string)
    requires Find(d, key).Some?
    ensures Size(Find(d, key).value) < DictSize(d)
    decreases |d|
  {
    if d[0].key != key {
      FoundIsSmaller(d[1..], key);
    }
  }

  /** Merging the same dictionary a second time changes nothing. */
  lemma {:induction false} MergeIsIdempotent(a: Dict, b: Dict)
    requires Sorted(a) && AllWellFormed(a) && Sorted(b) && AllWellFormed(b)
    ensures Merge(Merge(a, b), b) == Merge(a, b)
    decreases DictSize(b)
  {
    var m := Merge(a, b);
    MergeKeepsWellFormed(a, b);
    MergeKeepsWellFormed(m, b);
    forall key ensures Find(Merge(m, b), key) == Find(m, key) {
      FindMerge(a, b, key);
      FindMerge(m, b, key);
      var x, y := Find(a, key), Find(b, key);
      if IsDict(y) {
        FoundIsWellFormed(b, key);
        FoundIsSmaller(b, key);
        if IsDict(x) {
          FoundIsWellFormed(a, key);
          MergeIsIdempotent(x.value.dict, y.value.dict);
        } else {
          MergeSelf(y.value.dict);
        }
      }
    }
    Extensional(Merge(m, b), m);
  }

  /** The loop over the argument's entries. */
  method MergeDictionary(target: Dict, dictionary: Dict) returns (merged: Dict)
    ensures merged == Merge(target, dictionary)
    decreases DictSize(dictionary)
  {
    merged := target;
    var k := 0;
    while k < |dictionary|
      invariant k <= |dictionary|
      invariant Merge(merged, dictionary[k..]) == Merge(target, dictionary)
      invariant DictSize(dictionary[k..]) <= DictSize(dictionary)
    {
      var key, val := dictionary[k].key, dictionary[k].value;
      assert dictionary[k..][1..] == dictionary[k + 1..];
      var found := Find(merged, key);
      if val.Dictionary? && IsDict(found) {
        var child := MergeDictionary(found.value.dict, val.dict);
        merged := Put(merged, key, Dictionary(child));
      } else {
        merged := Put(merged, key, val);
      }
      k := k + 1;
    }
  }

  // ----- copying without empty children -----

  /** None stands for the null that is returned instead of an empty list or dictionary. */
  function Strip(v: Value): Option<Value>
    decreases Size(v)
  {
    match v
    case Dictionary(d) => if StripDict(d) == [] then None else Some(Dictionary(StripDict(d)))
    case List(l) => if StripList(l) == [] then None else Some(List(StripList(l)))
    case _ => Some(v)
  }

  function StripList(l: seq<Value>): seq<Value>
    decreases ListSize(l)
  {
    if l == [] then []
    else (match Strip(l[0]) case None => [] case Some(x) => [x]) + StripList(l[1..])
  }

  function StripDict(d: Dict): Dict
    decreases DictSize(d)
  {
    if d == [] then []
    else (match Strip(d[0].value) case None => [] case Some(x) => [Entry(d[0].key, x)]) + StripDict(d[1..])
  }

  /** A scalar, with the keys on the way to it; places in lists are not recorded. */
  datatype Leaf = Leaf(keys: Path, value: Value)

  /** The scalars of a tree in order. */
  function Leaves(keys: Path, v: Value): seq<Leaf>
    decreases Size(v)
  {
    match v
    case Dictionary(d) => DictLeaves(keys, d)
    case List(l) => ListLeaves(keys, l)
    case _ => [Leaf(keys, v)]
  }

  function ListLeaves(keys: Path, l: seq<Value>): seq<Leaf>
    decreases ListSize(l)
  {
    if l == [] then [] else Leaves(keys, l[0]) + ListLeaves(keys, l[1..])
  }

  function DictLeaves(keys: Path, d: Dict): seq<Leaf>
    decreases DictSize(d)
  {
    if d == [] then [] else Leaves(keys + [d[0].key], d[0].value) + DictLeaves(keys, d[1..])
  }

  predicate Full(v: Value)
    decreases Size(v)
  {
    match v
    case Dictionary(d) => d != [] && DictFull(d)
    case List(l) => l != [] && ListFull(l)
    case _ => true
  }

  predicate ListFull(l: seq<Value>)
    decreases ListSize(l)
  {
    l == [] || (Full(l[0]) && ListFull(l[1..]))
  }

  predicate DictFull(d: Dict)
    decreases DictSize(d)
  {
    d == [] || (Full(d[0].value) && DictFull(d[1..]))
  }

  /** A copy has no empty list or dictionary in it, and the scalars of the original in their
      order under their keys; there is no copy exactly when there are no scalars. */
  lemma {:induction false} StripKeepsLeaves(v: Value, keys: Path)
    ensures match Strip(v)
            case None => Leaves(keys, v) == []
            case Some(x) => Full(x) && Leaves(keys, x) == Leaves(keys, v) && Leaves(keys, v) != []
    decreases Size(v)
  {
    match v
    case Dictionary(d) => StripDictKeepsLeaves(d, keys);
    case List(l) => StripListKeepsLeaves(l, keys);
    case _ =>
  }

  lemma {:induction false} StripListKeepsLeaves(l: seq<Value>, keys: Path)
    ensures ListFull(StripList(l)) && ListLeaves(keys, StripList(l)) == ListLeaves(keys, l)
    ensures StripList(l) == [] <==> ListLeaves(keys, l) == []
    decreases ListSize(l)
  {
    if l != [] {
      StripKeepsLeaves(l[0], keys);
      StripListKeepsLeaves(l[1..], keys);
      var rest := StripList(l[1..]);
      match Strip(l[0])
      case None => assert [] + rest == rest && [] + ListLeaves(keys, l[1..]) == ListLeaves(keys, l[1..]);
      case Some(x) => assert ([x] + rest)[1..] == rest;
    }
  }

  lemma {:induction false} StripDictKeepsLeaves(d: Dict, keys: Path)
    ensures DictFull(StripDict(d)) && DictLeaves(keys, StripDict(d)) == DictLeaves(keys, d)
    ensures StripDict(d) == [] <==> DictLeaves(keys, d) == []
    decreases DictSize(d)
  {
    if d != [] {
      StripKeepsLeaves(d[0].value, keys + [d[0].key]);
      StripDictKeepsLeaves(d[1..], keys);
      var rest := StripDict(d[1..]);
      match Strip(d[0].value)
      case None => assert [] + rest == rest && [] + DictLeaves(keys, d[1..]) == DictLeaves(keys, d[1..]);
      case Some(x) => assert ([Entry(d[0].key, x)] + rest)[1..] == rest;
    }
  }

  /** A tree without empty children is its own copy. */
  lemma {:induction false} FullIsKept(v: Value)
    requires Full(v)
    ensures Strip(v) == Some(v)
    decreases Size(v)
  {
    match v
    case Dictionary(d) => DictFullIsKept(d);
    case List(l) => ListFullIsKept(l);
    case _ =>
  }

  lemma {:induction false} ListFullIsKept(l: seq<Value>)
    requires ListFull(l)
    ensures StripList(l) == l
    decreases ListSize(l)
  {
    if l != [] {
      FullIsKept(l[0]);
      ListFullIsKept(l[1..]);
    }
  }

  lemma {:induction false} DictFullIsKept(d: Dict)
    requires DictFull(d)
    ensures StripDict(d) == d
    decreases DictSize(d)
  {
    if d != [] {
      FullIsKept(d[0].value);
      DictFullIsKept(d[1..]);
    }
  }

  /** What `DeepCopyWithoutEmptyChildren` promises of a dictionary: nothing empty below the root,
      every scalar kept in order, and copying the copy gives the copy. */
  lemma CopyWithoutEmptyChildren(d: Dict)
    ensures var copy := StripDict(d);
            && DictFull(copy)
            && DictLeaves([], copy) == DictLeaves([], d)
            && StripDict(copy) == copy
  {
    StripDictKeepsLeaves(d, []);
    DictFullIsKept(StripDict(d));
  }

  lemma {:induction false} PutAtEnd(d: Dict, key: string, v: Value)
    requires forall k :: 0 <= k < |d| ==> LessBytes(d[k].key, key)
    ensures Put(d, key, v) == d + [Entry(key, v)]
    decreases |d|
  {
    if d != [] {
      BytesTrichotomy(d[0].key, key);
      PutAtEnd(d[1..], key, v);
    }
  }

  lemma {:induction false} SortedAt(d: Dict, j: nat, k: nat)
    requires Sorted(d) && j < k < |d|
    ensures LessBytes(d[j].key, d[k].key)
    decreases |d|
  {
    if j > 0 {
      SortedAt(d[1..], j - 1, k - 1);
    } else {
      assert d[k] == d[1..][k - 1];
    }
  }

  /** The three mutually recursive copiers.  Each fills a local result in a loop. */
  method CopyNode(node: Value) returns (copy: Option<Value>)
    requires WellFormed(node)
    ensures copy == Strip(node)
    decreases Size(node)
  {
    match node
    case Dictionary(d) => copy := CopyDictionary(d);
    case List(l) => copy := CopyList(l);
    case _ => copy := Some(node);
  }

  method CopyList(l: seq<Value>) returns (copy: Option<Value>)
    requires forall x :: x in l ==> WellFormed(x)
    ensures copy == if StripList(l) == [] then None else Some(List(StripList(l)))
    decreases ListSize(l)
  {
    var items := [];
    var k := 0;
    while k < |l|
      invariant k <= |l|
      invariant items + StripList(l[k..]) == StripList(l)
      invariant ListSize(l[k..]) <= ListSize(l)
    {
      assert l[k..][0] == l[k] && l[k..][1..] == l[k + 1..];
      var child := CopyNode(l[k]);
      if child.Some? {
        items := items + [child.value];
      }
      k := k + 1;
    }
    assert items + StripList(l[k..]) == items;
    copy := if items == [] then None else Some(List(items));
  }

  /** Every key of `d` comes before `key`. */
  predicate Before(d: Dict, key: string) {
    forall k :: 0 <= k < |d| ==> LessBytes(d[k].key, key)
  }

  lemma BeforeNext(d: Dict, k: nat, entries: Dict)
    requires Sorted(d) && k + 1 < |d| && Before(entries, d[k].key)
    ensures Before(entries, d[k + 1].key)
    ensures forall v :: Before(entries + [Entry(d[k].key, v)], d[k + 1].key)
  {
    SortedAt(d, k, k + 1);
    forall j | 0 <= j < |entries| ensures LessBytes(entries[j].key, d[k + 1].key) {
      BytesTransitive(entries[j].key, d[k].key, d[k + 1].key);
    }
  }

  lemma StripNext(d: Dict, k: nat)
    requires k < |d|
    ensures StripDict(d[k..])
         == (match Strip(d[k].value) case None => [] case Some(x) => [Entry(d[k].key, x)]) + StripDict(d[k + 1..])
    ensures DictSize(d[k..]) == 1 + Size(d[k].value) + DictSize(d[k + 1..])
    ensures AllWellFormed(d[k..]) <==> WellFormed(d[k].value) && AllWellFormed(d[k + 1..])
  {
    assert d[k..][0] == d[k] && d[k..][1..] == d[k + 1..];
  }

  /** The first `k` entries are copied, and the rest is still to come. */
  ghost predicate Copying(d: Dict, k: nat, entries: Dict) {
    && k <= |d| && entries + StripDict(d[k..]) == StripDict(d)
    && AllWellFormed(d[k..]) && DictSize(d[k..]) <= DictSize(d)
    && (k < |d| ==> Before(entries, d[k].key))
  }

  function PutIfAny(entries: Dict, key: string, child: Option<Value>): Dict {
    if child.Some? then Put(entries, key, child.value) else entries
  }

  lemma PutIfAnyAtEnd(entries: Dict, key: string, child: Option<Value>, rest: Dict)
    requires Before(entries, key)
    ensures PutIfAny(entries, key, child) == if child.Some? then entries + [Entry(key, child.value)] else entries
    ensures PutIfAny(entries, key, child) + rest
         == entries + ((match child case None => [] case Some(x) => [Entry(key, x)]) + rest)
  {
    if child.Some? {
      PutAtEnd(entries, key, child.value);
    }
  }

  lemma CopyingNext(d: Dict, k: nat, entries: Dict)
    requires Sorted(d) && k < |d| && Copying(d, k, entries)
    ensures WellFormed(d[k].value) && Size(d[k].value) < DictSize(d)
    ensures Copying(d, k + 1, PutIfAny(entries, d[k].key, Strip(d[k].value)))
  {
    StripNext(d, k);
    PutIfAnyAtEnd(entries, d[k].key, Strip(d[k].value), StripDict(d[k + 1..]));
    if k + 1 < |d| {
      BeforeNext(d, k, entries);
    }
  }

  method CopyDictionary(d: Dict) returns (copy: Option<Value>)
    requires Sorted(d) && AllWellFormed(d)
    ensures copy == if StripDict(d) == [] then None else Some(Dictionary(StripDict(d)))
    decreases DictSize(d)
  {
    var entries: Dict := [];
    var k := 0;
    assert d[k..] == d;
    while k < |d|
      invariant Copying(d, k, entries)
    {
      CopyingNext(d, k, entries);
      var child := CopyNode(d[k].value);
      if child.Some? {
        entries := Put(entries, d[k].key, child.value);
      }
      k := k + 1;
    }
    assert entries + StripDict(d[k..]) == entries;
    copy := if entries == [] then None else Some(Dictionary(entries));
  }
}
