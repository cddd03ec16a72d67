/** Dictionaries as sorted vectors of entries: lookup, insertion and erasure. */
module Dictionaries {
  import opened Wrappers
  import opened Values

  /** Every key of `d` comes after `key`. */
  predicate After(key: string, d: Dict) {
    forall k :: 0 <= k < |d| ==> LessBytes(key, d[k].key)
  }

  predicate Sorted(d: Dict)
    decreases |d|
  {
    d == [] || (After(d[0].key, d[1..]) && Sorted(d[1..]))
  }

  /** Every dictionary in the tree is sorted, as the container keeps it. */
  predicate WellFormed(v: Value)
    decreases v, 1
  {
    match v
    case Dictionary(d) => Sorted(d) && AllWellFormed(d)
    case List(l) => forall x :: x in l ==> WellFormed(x)
    case _ => true
  }

  predicate AllWellFormed(d: Dict)
    decreases d, 0
  {
    d == [] || (WellFormed(d[0].value) && AllWellFormed(d[1..]))
  }

  function Find(d: Dict, key: string): Option<Value>
    decreases |d|
  {
    if d == [] then None else if d[0].key == key then Some(d[0].value) else Find(d[1..], key)
  }

  /** Inserts at the place the key belongs, or assigns to the entry that is there. */
  function Put(d: Dict, key: string, v: Value): Dict
    decreases |d|
  {
    if d == [] || LessBytes(key, d[0].key) then [Entry(key, v)] + d
    else if d[0].key == key then [Entry(key, v)] + d[1..]
    else [d[0]] + Put(d[1..], key, v)
  }

  function Del(d: Dict, key: string): Dict
    decreases |d|
  {
    if d == [] then [] else if d[0].key == key then d[1..] else [d[0]] + Del(d[1..], key)
  }

  lemma {:induction false} AfterFindsNothing(d: Dict, key: string)
    requires After(key, d)
    ensures Find(d, key) == None
    decreases |d|
  {
    if d != [] {
      BytesTrichotomy(key, d[0].key);
      AfterFindsNothing(d[1..], key);
    }
  }

  lemma AfterWeakens(d: Dict, key: string, key': string)
    requires LessBytes(key, key') && After(key', d)
    ensures After(key, d)
  {
    forall k | 0 <= k < |d| ensures LessBytes(key, d[k].key) {
      BytesTransitive(key, key', d[k].key);
    }
  }

  lemma {:induction false} FindPut(d: Dict, key: string, v: Value, other: string)
    ensures Find(Put(d, key, v), other) == if other == key then Some(v) else Find(d, other)
    decreases |d|
  {
    if d != [] && !LessBytes(key, d[0].key) && d[0].key != key {
      FindPut(d[1..], key, v, other);
    }
  }

  lemma {:induction false} PutKeepsAfter(d: Dict, key: string, v: Value, bound: string)
    requires After(bound, d) && LessBytes(bound, key)
    ensures After(bound, Put(d, key, v))
    decreases |d|
  {
    if d != [] && !LessBytes(key, d[0].key) && d[0].key != key {
      PutKeepsAfter(d[1..], key, v, bound);
    }
  }

  lemma {:induction false} PutKeepsSorted(d: Dict, key: string, v: Value)
    requires Sorted(d)
    ensures Sorted(Put(d, key, v))
    decreases |d|
  {
    if d != [] {
      BytesTrichotomy(key, d[0].key);
      if LessBytes(key, d[0].key) {
        AfterWeakens(d[1..], key, d[0].key);
        assert ([Entry(key, v)] + d)[1..] == d;
      } else if d[0].key == key {
        assert ([Entry(key, v)] + d[1..])[1..] == d[1..];
      } else {
        PutKeepsSorted(d[1..], key, v);
        PutKeepsAfter(d[1..], key, v, d[0].key);
        assert ([d[0]] + Put(d[1..], key, v))[1..] == Put(d[1..], key, v);
      }
    }
  }

  lemma {:induction false} DelKeepsSorted(d: Dict, key: string)
    requires Sorted(d)
    ensures Sorted(Del(d, key))
    ensures forall b :: After(b, d) ==> After(b, Del(d, key))
    decreases |d|
  {
    if d != [] && d[0].key != key {
      DelKeepsSorted(d[1..], key);
      assert After(d[0].key, Del(d[1..], key));
      forall b | After(b, d) ensures After(b, Del(d, key)) {
        assert LessBytes(b, d[0].key);
        assert After(b, d[1..]);
      }
      assert ([d[0]] + Del(d[1..], key))[1..] == Del(d[1..], key);
    }
  }

  lemma {:induction false} FindDel(d: Dict, key: string, other: string)
    requires Sorted(d)
    ensures Find(Del(d, key), other) == if other == key then None else Find(d, other)
    decreases |d|
  {
    if d != [] {
      if d[0].key == key {
        AfterFindsNothing(d[1..], key);
      } else {
        FindDel(d[1..], key, other);
      }
    }
  }

  /** Assigning what is already there changes nothing. */
  lemma {:induction false} PutFound(d: Dict, key: string, v: Value)
    requires Sorted(d) && Find(d, key) == Some(v)
    ensures Put(d, key, v) == d
    decreases |d|
  {
    BytesTrichotomy(key, d[0].key);
    if d[0].key != key {
      if LessBytes(key, d[0].key) {
        AfterWeakens(d[1..], key, d[0].key);
        AfterFindsNothing(d[1..], key);
      } else {
        PutFound(d[1..], key, v);
      }
    }
    assert d == [d[0]] + d[1..];
  }

  /** Erasing what was just inserted takes it out again. */
  lemma {:induction false} DelPut(d: Dict, key: string, v: Value)
    requires Find(d, key) == None
    ensures Del(Put(d, key, v), key) == d
    decreases |d|
  {
    if d == [] || LessBytes(key, d[0].key) {
      assert ([Entry(key, v)] + d)[1..] == d;
    } else {
      DelPut(d[1..], key, v);
      assert ([d[0]] + Put(d[1..], key, v))[1..] == Put(d[1..], key, v);
      assert d == [d[0]] + d[1..];
    }
  }

  lemma {:induction false} PutTwice(d: Dict, key: string, v: Value, w: Value)
    ensures Put(Put(d, key, v), key, w) == Put(d, key, w)
    decreases |d|
  {
    BytesTrichotomy(key, key);
    if d != [] && !LessBytes(key, d[0].key) && d[0].key != key {
      PutTwice(d[1..], key, v, w);
      assert ([d[0]] + Put(d[1..], key, v))[1..] == Put(d[1..], key, v);
    } else if d == [] || LessBytes(key, d[0].key) {
      assert ([Entry(key, v)] + d)[1..] == d;
    } else {
      assert ([Entry(key, v)] + d[1..])[1..] == d[1..];
    }
  }

  /** Sorted dictionaries that answer every lookup alike are the same. */
  lemma {:induction false} Extensional(a: Dict, b: Dict)
    requires Sorted(a) && Sorted(b) && forall key :: Find(a, key) == Find(b, key)
    ensures a == b
    decreases |a|
  {
    assert a != [] ==> Find(b, a[0].key) == Find(a, a[0].key);
    assert b != [] ==> Find(a, b[0].key) == Find(b, b[0].key);
    if a != [] && b != [] {
      SameHead(a, b);
      forall key ensures Find(a[1..], key) == Find(b[1..], key) {
        assert Find(a, key) == Find(b, key);
        if key == a[0].key {
          AfterFindsNothing(a[1..], key);
          AfterFindsNothing(b[1..], key);
        }
      }
      Extensional(a[1..], b[1..]);
      assert a == [a[0]] + a[1..] && b == [b[0]] + b[1..];
    }
  }

  lemma SameHead(a: Dict, b: Dict)
    requires a != [] && b != [] && Sorted(a) && Sorted(b) && forall key :: Find(a, key) == Find(b, key)
    ensures a[0] == b[0]
  {
    var x, y := a[0].key, b[0].key;
    assert Find(a, x) == Find(b, x) && Find(a, y) == Find(b, y);
    BytesTrichotomy(x, y);
    if LessBytes(x, y) {
      AfterWeakens(b[1..], x, y);
      AfterFindsNothing(b[1..], x);
    } else if LessBytes(y, x) {
      AfterWeakens(a[1..], y, x);
      AfterFindsNothing(a[1..], y);
    }
  }

  lemma {:induction false} FoundIsWellFormed(d: Dict, key: string)
    requires AllWellFormed(d) && Find(d, key).Some?
    ensures WellFormed(Find(d, key).value)
    decreases |d|
  {
    if d[0].key != key {
      FoundIsWellFormed(d[1..], key);
    }
  }

  lemma {:induction false} PutKeepsWellFormed(d: Dict, key: string, v: Value)
    requires AllWellFormed(d) && WellFormed(v)
    ensures AllWellFormed(Put(d, key, v))
    decreases |d|
  {
    if d == [] || LessBytes(key, d[0].key) {
      assert ([Entry(key, v)] + d)[1..] == d;
    } else if d[0].key == key {
      assert ([Entry(key, v)] + d[1..])[1..] == d[1..];
    } else {
      PutKeepsWellFormed(d[1..], key, v);
      assert ([d[0]] + Put(d[1..], key, v))[1..] == Put(d[1..], key, v);
    }
  }

  lemma {:induction false} DelKeepsWellFormed(d: Dict, key: string)
    requires AllWellFormed(d)
    ensures AllWellFormed(Del(d, key))
    decreases |d|
  {
    if d != [] && d[0].key != key {
      DelKeepsWellFormed(d[1..], key);
      assert ([d[0]] + Del(d[1..], key))[1..] == Del(d[1..], key);
    }
  }
}
