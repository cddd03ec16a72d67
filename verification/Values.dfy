/** Value trees: scalars, lists, and dictionaries kept as vectors sorted by key. */
module Values {

  /** Strings and binary blobs are sequences of bytes, compared byte by byte.  Doubles are finite,
      since the constructor turns everything else into zero. */
  datatype Value =
    | Null
    | Boolean(b: bool)
    | Integer(n: int)
    | Double(d: real)
    | String(s: string)
    | Binary(blob: string)
    | Dictionary(dict: seq<Entry>)
    | List(items: seq<Value>)

  datatype Entry = Entry(key: string, value: Value)

  type Dict = seq<Entry>

  function Rank(v: Value): nat {
    match v
    case Null => 0
    case Boolean(_) => 1
    case Integer(_) => 2
    case Double(_) => 3
    case String(_) => 4
    case Binary(_) => 5
    case Dictionary(_) => 6
    case List(_) => 7
  }

  // ----- keys -----

  predicate LessBytes(a: string, b: string)
    decreases |a|
  {
    if b == "" then false
    else if a == "" then true
    else if a[0] < b[0] then true
    else if b[0] < a[0] then false
    else LessBytes(a[1..], b[1..])
  }

  lemma {:induction false} BytesTrichotomy(a: string, b: string)
    ensures LessBytes(a, b) ==> !LessBytes(b, a)
    ensures !LessBytes(a, b) && !LessBytes(b, a) <==> a == b
    decreases |a|
  {
    if a != "" && b != "" {
      BytesTrichotomy(a[1..], b[1..]);
      if a[1..] == b[1..] && a[0] == b[0] {
        assert a == [a[0]] + a[1..] && b == [b[0]] + b[1..];
      }
    }
  }

  lemma {:induction false} BytesTransitive(a: string, b: string, c: string)
    requires LessBytes(a, b) && LessBytes(b, c)
    ensures LessBytes(a, c)
    decreases |a|
  {
    if a != "" && a[0] == b[0] == c[0] {
      BytesTransitive(a[1..], b[1..], c[1..]);
    }
  }

  // ----- the size of a tree, for recursion on two trees at once -----

  function Size(v: Value): nat
    decreases v, 0
  {
    match v
    case Dictionary(d) => 1 + DictSize(d)
    case List(l) => 1 + ListSize(l)
    case _ => 1
  }

  function ListSize(l: seq<Value>): nat
    decreases l
  {
    if l == [] then 0 else 1 + Size(l[0]) + ListSize(l[1..])
  }

  function DictSize(d: Dict): nat
    decreases d
  {
    if d == [] then 0 else 1 + Size(d[0].value) + DictSize(d[1..])
  }

  // ----- the order of values -----

  /** `operator<`: by type first, then within the type. */
  predicate Less(a: Value, b: Value)
    decreases Size(a) + Size(b)
  {
    if Rank(a) != Rank(b) then Rank(a) < Rank(b)
    else
      match a
      case Null => false
      case Boolean(x) => !x && b.b
      case Integer(x) => x < b.n
      case Double(x) => x < b.d
      case String(x) => LessBytes(x, b.s)
      case Binary(x) => LessBytes(x, b.blob)
      case Dictionary(x) => LessDict(x, b.dict)
      case List(x) => LessList(x, b.items)
  }

  /** Lexicographical comparison, which asks the element order both ways at each position. */
  predicate LessList(a: seq<Value>, b: seq<Value>)
    decreases ListSize(a) + ListSize(b)
  {
    if b == [] then false
    else if a == [] then true
    else if Less(a[0], b[0]) then true
    else if Less(b[0], a[0]) then false
    else LessList(a[1..], b[1..])
  }

  predicate LessDict(a: Dict, b: Dict)
    decreases DictSize(a) + DictSize(b)
  {
    if b == [] then false
    else if a == [] then true
    else if LessEntry(a[0], b[0]) then true
    else if LessEntry(b[0], a[0]) then false
    else LessDict(a[1..], b[1..])
  }

  /** Pairs compare by key, and by value where neither key is less. */
  predicate LessEntry(u: Entry, v: Entry)
    decreases Size(u.value) + Size(v.value) + 1
  {
    LessBytes(u.key, v.key) || (!LessBytes(v.key, u.key) && Less(u.value, v.value))
  }

  /** `operator==`: types first, then contents; dictionaries by size, then pair by pair. */
  predicate Equal(a: Value, b: Value)
    decreases a, 0
  {
    Rank(a) == Rank(b) &&
    match a
    case Null => true
    case Boolean(x) => x == b.b
    case Integer(x) => x == b.n
    case Double(x) => x == b.d
    case String(x) => x == b.s
    case Binary(x) => x == b.blob
    case Dictionary(x) => |x| == |b.dict| && EqualDict(x, b.dict)
    case List(x) => |x| == |b.items| && EqualList(x, b.items)
  }

  predicate EqualList(a: seq<Value>, b: seq<Value>)
    requires |a| == |b|
    decreases a
  {
    a == [] || (Equal(a[0], b[0]) && EqualList(a[1..], b[1..]))
  }

  predicate EqualDict(a: Dict, b: Dict)
    requires |a| == |b|
    decreases a
  {
    a == [] || (a[0].key == b[0].key && Equal(a[0].value, b[0].value) && EqualDict(a[1..], b[1..]))
  }

  // ----- equality is identity of trees -----

  lemma {:induction false} EqualIsIdentity(a: Value, b: Value)
    ensures Equal(a, b) <==> a == b
    decreases a, 0
  {
    match a
    case Dictionary(x) => if b.Dictionary? && |x| == |b.dict| { EqualDictIsIdentity(x, b.dict); }
    case List(x) => if b.List? && |x| == |b.items| { EqualListIsIdentity(x, b.items); }
    case _ =>
  }

  lemma {:induction false} EqualListIsIdentity(a: seq<Value>, b: seq<Value>)
    requires |a| == |b|
    ensures EqualList(a, b) <==> a == b
    decreases a
  {
    if a != [] {
      EqualIsIdentity(a[0], b[0]);
      EqualListIsIdentity(a[1..], b[1..]);
      assert a == [a[0]] + a[1..] && b == [b[0]] + b[1..];
    }
  }

  lemma {:induction false} EqualDictIsIdentity(a: Dict, b: Dict)
    requires |a| == |b|
    ensures EqualDict(a, b) <==> a == b
    decreases a
  {
    if a != [] {
      EqualIsIdentity(a[0].value, b[0].value);
      EqualDictIsIdentity(a[1..], b[1..]);
      assert a == [a[0]] + a[1..] && b == [b[0]] + b[1..];
    }
  }

  // ----- the order is strict and total -----

  /** Of two values exactly one is less, or they are equal. */
  lemma {:induction false} Trichotomy(a: Value, b: Value)
    ensures Less(a, b) ==> !Less(b, a)
    ensures !Less(a, b) && !Less(b, a) <==> Equal(a, b)
    decreases Size(a) + Size(b)
  {
    EqualIsIdentity(a, b);
    if Rank(a) == Rank(b) {
      match a
      case String(x) => BytesTrichotomy(x, b.s);
      case Binary(x) => BytesTrichotomy(x, b.blob);
      case Dictionary(x) => DictTrichotomy(x, b.dict);
      case List(x) => ListTrichotomy(x, b.items);
      case _ =>
    }
  }

  lemma {:induction false} ListTrichotomy(a: seq<Value>, b: seq<Value>)
    ensures LessList(a, b) ==> !LessList(b, a)
    ensures !LessList(a, b) && !LessList(b, a) <==> a == b
    decreases ListSize(a) + ListSize(b)
  {
    if a != [] && b != [] {
      Trichotomy(a[0], b[0]);
      EqualIsIdentity(a[0], b[0]);
      ListTrichotomy(a[1..], b[1..]);
      assert a == [a[0]] + a[1..] && b == [b[0]] + b[1..];
    }
  }

  lemma {:induction false} DictTrichotomy(a: Dict, b: Dict)
    ensures LessDict(a, b) ==> !LessDict(b, a)
    ensures !LessDict(a, b) && !LessDict(b, a) <==> a == b
    decreases DictSize(a) + DictSize(b)
  {
    if a != [] && b != [] {
      EntryTrichotomy(a[0], b[0]);
      DictTrichotomy(a[1..], b[1..]);
      assert a == [a[0]] + a[1..] && b == [b[0]] + b[1..];
    }
  }

  lemma {:induction false} EntryTrichotomy(u: Entry, v: Entry)
    ensures LessEntry(u, v) ==> !LessEntry(v, u)
    ensures !LessEntry(u, v) && !LessEntry(v, u) <==> u == v
    decreases Size(u.value) + Size(v.value) + 1
  {
    BytesTrichotomy(u.key, v.key);
    Trichotomy(u.value, v.value);
    EqualIsIdentity(u.value, v.value);
  }

  lemma {:induction false} Transitive(a: Value, b: Value, c: Value)
    requires Less(a, b) && Less(b, c)
    ensures Less(a, c)
    decreases Size(a) + Size(b) + Size(c)
  {
    if Rank(a) == Rank(b) == Rank(c) {
      match a
      case String(x) => BytesTransitive(x, b.s, c.s);
      case Binary(x) => BytesTransitive(x, b.blob, c.blob);
      case Dictionary(x) => DictTransitive(x, b.dict, c.dict);
      case List(x) => ListTransitive(x, b.items, c.items);
      case _ =>
    }
  }

  lemma {:induction false} ListTransitive(a: seq<Value>, b: seq<Value>, c: seq<Value>)
    requires LessList(a, b) && LessList(b, c)
    ensures LessList(a, c)
    decreases ListSize(a) + ListSize(b) + ListSize(c)
  {
    if a != [] {
      Trichotomy(a[0], b[0]);
      Trichotomy(b[0], c[0]);
      EqualIsIdentity(a[0], b[0]);
      EqualIsIdentity(b[0], c[0]);
      Trichotomy(a[0], c[0]);
      if Less(a[0], b[0]) && Less(b[0], c[0]) {
        Transitive(a[0], b[0], c[0]);
      } else if a[0] == b[0] == c[0] {
        ListTransitive(a[1..], b[1..], c[1..]);
      }
    }
  }

  lemma {:induction false} DictTransitive(a: Dict, b: Dict, c: Dict)
    requires LessDict(a, b) && LessDict(b, c)
    ensures LessDict(a, c)
    decreases DictSize(a) + DictSize(b) + DictSize(c)
  {
    if a != [] {
      EntryTrichotomy(a[0], b[0]);
      EntryTrichotomy(b[0], c[0]);
      EntryTrichotomy(a[0], c[0]);
      if LessEntry(a[0], b[0]) && LessEntry(b[0], c[0]) {
        EntryTransitive(a[0], b[0], c[0]);
      } else if a[0] == b[0] == c[0] {
        DictTransitive(a[1..], b[1..], c[1..]);
      }
    }
  }

  lemma {:induction false} EntryTransitive(u: Entry, v: Entry, w: Entry)
    requires LessEntry(u, v) && LessEntry(v, w)
    ensures LessEntry(u, w)
    decreases Size(u.value) + Size(v.value) + Size(w.value) + 1
  {
    BytesTrichotomy(u.key, v.key);
    BytesTrichotomy(v.key, w.key);
    BytesTrichotomy(u.key, w.key);
    if LessBytes(u.key, v.key) && LessBytes(v.key, w.key) {
      BytesTransitive(u.key, v.key, w.key);
    } else if u.key == v.key == w.key {
      Transitive(u.value, v.value, w.value);
    }
  }

  // ----- which order it is -----

  /** Values of different types are ordered by type; scalars by their usual orders. */
  lemma ScalarOrder(a: Value, b: Value)
    ensures Rank(a) < Rank(b) ==> Less(a, b)
    ensures !Less(Null, Null)
    ensures Less(Boolean(false), Boolean(true)) && !Less(Boolean(true), Boolean(false))
    ensures a.Integer? && b.Integer? ==> (Less(a, b) <==> a.n < b.n)
    ensures a.Double? && b.Double? ==> (Less(a, b) <==> a.d < b.d)
    ensures a.String? && b.String? ==> (Less(a, b) <==> FirstDiffers(a.s, b.s))
    ensures a.Binary? && b.Binary? ==> (Less(a, b) <==> FirstDiffers(a.blob, b.blob))
  {
    if a.String? && b.String? {
      BytesAreLexicographic(a.s, b.s);
    } else if a.Binary? && b.Binary? {
      BytesAreLexicographic(a.blob, b.blob);
    }
  }

  /** The order of the types. */
  lemma TypeOrder(b: bool, n: int, d: real, s: string, blob: string, dict: Dict, items: seq<Value>)
    ensures Less(Null, Boolean(b)) && Less(Boolean(b), Integer(n)) && Less(Integer(n), Double(d))
    ensures Less(Double(d), String(s)) && Less(String(s), Binary(blob))
    ensures Less(Binary(blob), Dictionary(dict)) && Less(Dictionary(dict), List(items))
  {
  }

  /** Where they first differ, `a` has the smaller byte, or has ended. */
  ghost predicate FirstDiffers(a: string, b: string) {
    exists k :: DiffersAt(a, b, k)
  }

  ghost predicate DiffersAt(a: string, b: string, k: int) {
    && 0 <= k <= |a| && k < |b| && a[..k] == b[..k]
    && (k < |a| ==> a[k] < b[k])
  }

  lemma {:induction false} BytesAreLexicographic(a: string, b: string)
    ensures LessBytes(a, b) <==> FirstDiffers(a, b)
    decreases |a|
  {
    if a == "" || b == "" || a[0] != b[0] {
      assert LessBytes(a, b) ==> DiffersAt(a, b, 0);
    } else {
      BytesAreLexicographic(a[1..], b[1..]);
      assert a == [a[0]] + a[1..] && b == [b[0]] + b[1..];
      if k :| DiffersAt(a[1..], b[1..], k) {
        assert a[..k + 1] == [a[0]] + a[1..][..k] && b[..k + 1] == [b[0]] + b[1..][..k];
        assert DiffersAt(a, b, k + 1);
      }
      if k :| DiffersAt(a, b, k) {
        assert k > 0;
        assert a[1..][..k - 1] == a[..k][1..] && b[1..][..k - 1] == b[..k][1..];
        assert DiffersAt(a[1..], b[1..], k - 1);
      }
    }
  }

  ghost predicate ListDiffersAt(a: seq<Value>, b: seq<Value>, k: int) {
    && 0 <= k <= |a| && k < |b| && a[..k] == b[..k]
    && (k < |a| ==> Less(a[k], b[k]))
  }

  /** Lists: the first item that differs decides, and a list comes after its own beginnings. */
  lemma {:induction false} ListsAreLexicographic(a: seq<Value>, b: seq<Value>)
    ensures LessList(a, b) <==> exists k :: ListDiffersAt(a, b, k)
    decreases |a|
  {
    if a == [] || b == [] || a[0] != b[0] {
      if a != [] && b != [] {
        Trichotomy(a[0], b[0]);
        EqualIsIdentity(a[0], b[0]);
      }
      assert LessList(a, b) ==> ListDiffersAt(a, b, 0);
    } else {
      Trichotomy(a[0], b[0]);
      EqualIsIdentity(a[0], b[0]);
      ListsAreLexicographic(a[1..], b[1..]);
      assert a == [a[0]] + a[1..] && b == [b[0]] + b[1..];
      if k :| ListDiffersAt(a[1..], b[1..], k) {
        assert a[..k + 1] == [a[0]] + a[1..][..k] && b[..k + 1] == [b[0]] + b[1..][..k];
        assert ListDiffersAt(a, b, k + 1);
      }
      if k :| ListDiffersAt(a, b, k) {
        assert k > 0;
        assert a[1..][..k - 1] == a[..k][1..] && b[1..][..k - 1] == b[..k][1..];
        assert ListDiffersAt(a[1..], b[1..], k - 1);
      }
    }
  }

  ghost predicate DictDiffersAt(a: Dict, b: Dict, k: int) {
    && 0 <= k <= |a| && k < |b| && a[..k] == b[..k]
    && (k < |a| ==> FirstDiffers(a[k].key, b[k].key) || (a[k].key == b[k].key && Less(a[k].value, b[k].value)))
  }

  lemma EntryOrder(u: Entry, v: Entry)
    ensures LessEntry(u, v) <==> FirstDiffers(u.key, v.key) || (u.key == v.key && Less(u.value, v.value))
  {
    BytesAreLexicographic(u.key, v.key);
    BytesTrichotomy(u.key, v.key);
  }

  /** Dictionaries: the first pair that differs decides, by its key, or by its value where the keys
      are the same. */
  lemma {:induction false} DictionariesAreLexicographic(a: Dict, b: Dict)
    ensures LessDict(a, b) <==> exists k :: DictDiffersAt(a, b, k)
    decreases |a|
  {
    if a == [] || b == [] || a[0] != b[0] {
      if a != [] && b != [] {
        EntryTrichotomy(a[0], b[0]);
        EntryOrder(a[0], b[0]);
      }
      assert LessDict(a, b) ==> DictDiffersAt(a, b, 0);
    } else {
      EntryTrichotomy(a[0], b[0]);
      EntryOrder(a[0], b[0]);
      DictionariesAreLexicographic(a[1..], b[1..]);
      assert a == [a[0]] + a[1..] && b == [b[0]] + b[1..];
      if k :| DictDiffersAt(a[1..], b[1..], k) {
        assert a[..k + 1] == [a[0]] + a[1..][..k] && b[..k + 1] == [b[0]] + b[1..][..k];
        assert DictDiffersAt(a, b, k + 1);
      }
      if k :| DictDiffersAt(a, b, k) {
        assert k > 0;
        assert a[1..][..k - 1] == a[..k][1..] && b[1..][..k - 1] == b[..k][1..];
        assert DictDiffersAt(a[1..], b[1..], k - 1);
      }
    }
  }

  /** `operator<` is a strict total order on values, with `operator==` as its equality. */
  lemma LessIsStrictTotalOrder(a: Value, b: Value, c: Value)
    ensures !Less(a, a)
    ensures Less(a, b) && Less(b, c) ==> Less(a, c)
    ensures (if Less(a, b) then 1 else 0) + (if Less(b, a) then 1 else 0) + (if Equal(a, b) then 1 else 0) == 1
    ensures Equal(a, a) && (Equal(a, b) ==> Equal(b, a)) && (Equal(a, b) && Equal(b, c) ==> Equal(a, c))
  {
    EqualIsIdentity(a, a);
    EqualIsIdentity(a, b);
    EqualIsIdentity(b, a);
    EqualIsIdentity(b, c);
    EqualIsIdentity(a, c);
    Trichotomy(a, a);
    Trichotomy(a, b);
    if Less(a, b) && Less(b, c) {
      Transitive(a, b, c);
    }
  }
}
