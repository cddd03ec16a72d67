/** The path operations as they work on dotted strings and on a tree in place. */
module ValueTrees {
  import opened Wrappers
  import opened Text
  import opened Values
  import opened Dictionaries
  import opened ValuePaths

  /** The components `PathSplitter` delivers: a trailing empty one is dropped. */
  function Components(path: string): Path
    decreases |path|
  {
    if path == "" then []
    else
      var dot := IndexOf(path, '.');
      if dot == |path| then [path] else [path[..dot]] + Components(path[dot + 1..])
  }

  function Dotted(p: Path): string {
    if p == [] then "" else if |p| == 1 then p[0] else p[0] + "." + Dotted(p[1..])
  }

  /** The components are the text between the dots: none has a dot in it, and put together with dots
      they give the path, but for a dot at its end. */
  lemma {:induction false} ComponentsJoin(path: string)
    ensures forall c :: c in Components(path) ==> '.' !in c
    ensures Dotted(Components(path)) == WithoutLastDot(path)
    decreases |path|
  {
    if path != "" {
      var dot := IndexOf(path, '.');
      if dot < |path| {
        ComponentsJoin(path[dot + 1..]);
        DottedFirst(path[..dot], Components(path[dot + 1..]));
        FirstDot(path, dot);
      }
    }
  }

  function WithoutLastDot(path: string): string {
    if EndsWithDot(path) then path[..|path| - 1] else path
  }

  lemma FirstDot(path: string, dot: nat)
    requires dot < |path| && path[dot] == '.'
    ensures WithoutLastDot(path) == if path[dot + 1..] == "" then path[..dot] else path[..dot] + "." + WithoutLastDot(path[dot + 1..])
  {
    var rest := path[dot + 1..];
    RestEnds(path, dot);
    assert path == path[..dot] + "." + rest;
    if rest != "" && EndsWithDot(path) {
      assert path[..|path| - 1] == path[..dot] + "." + rest[..|rest| - 1];
    }
  }

  lemma DottedFirst(first: string, rest: Path)
    ensures Dotted([first] + rest) == if rest == [] then first else first + "." + Dotted(rest)
  {
    assert ([first] + rest)[1..] == rest;
  }

  class PathSplitter {
    const path: string
    var pos: nat

    predicate Valid()
      reads this
    {
      pos <= |path|
    }

    constructor (path: string)
      ensures Valid() && this.path == path && pos == 0
    {
      this.path := path;
      pos := 0;
    }

    predicate HasNext()
      requires Valid()
      reads this
      ensures HasNext() <==> Components(path[pos..]) != []
    {
      pos < |path|
    }

    method Next() returns (component: string)
      requires Valid() && HasNext()
      modifies this
      ensures Valid() && old(pos) < pos
      ensures Components(path[old(pos)..]) == [component] + Components(path[pos..])
    {
      var start := pos;
      var found := start + IndexOf(path[start..], '.');
      var end;
      if found == |path| {
        end := |path|;
        pos := end;
        assert path[start..end] == path[start..];
      } else {
        end := found;
        pos := found + 1;
        assert path[start..][found - start + 1..] == path[pos..];
        assert path[start..][..found - start] == path[start..end];
      }
      component := path[start..end];
    }
  }

  /** `ExtractPath` splits at the first dot itself, and refuses the empty path at every level. */
  function ExtractDotted(v: Value, path: string): (Option<Value>, Value)
    decreases |path|
  {
    if !v.Dictionary? || path == "" then (None, v)
    else
      var dot := IndexOf(path, '.');
      if dot == |path| then
        match Find(v.dict, path)
        case None => (None, v)
        case Some(child) => (Some(child), Dictionary(Del(v.dict, path)))
      else match Find(v.dict, path[..dot])
        case None => (None, v)
        case Some(child) =>
          if !child.Dictionary? then (None, v)
          else Pruned(v, path[..dot], ExtractDotted(child, path[dot + 1..]))
  }

  predicate EndsWithDot(path: string) {
    path != "" && path[|path| - 1] == '.'
  }

  /** The two ways of reading a path agree except where it ends in a dot, or is empty: there
      `FindPath` drops the last, empty component and `ExtractPath` finds nothing. */
  lemma {:induction false} DottedExtracts(v: Value, path: string)
    ensures ExtractDotted(v, path)
         == if path == "" || EndsWithDot(path) then (None, v) else ExtractAt(v, Components(path))
    decreases |path|
  {
    if path != "" && v.Dictionary? {
      var dot := IndexOf(path, '.');
      if dot < |path| && Find(v.dict, path[..dot]).Some? && Find(v.dict, path[..dot]).value.Dictionary? {
        var child, rest := Find(v.dict, path[..dot]).value, path[dot + 1..];
        RestEnds(path, dot);
        DottedExtracts(child, rest);
        assert ExtractDotted(v, path) == Pruned(v, path[..dot], ExtractDotted(child, rest));
        if rest != "" {
          ExtractFirst(v, path[..dot], child, Components(rest));
          assert Components(path) == [path[..dot]] + Components(rest);
        }
      } else if dot < |path| {
        assert Components(path)[0] == path[..dot];
      }
    }
  }

  lemma ExtractFirst(v: Value, key: string, child: Value, rest: Path)
    requires v.Dictionary? && Find(v.dict, key) == Some(child) && child.Dictionary? && rest != []
    ensures ExtractAt(v, [key] + rest) == Pruned(v, key, ExtractAt(child, rest))
  {
    assert ([key] + rest)[1..] == rest;
  }

  lemma RestEnds(path: string, dot: nat)
    requires dot < |path| && path[dot] == '.'
    ensures EndsWithDot(path) <==> path[dot + 1..] == "" || EndsWithDot(path[dot + 1..])
  {
  }

  /** Extracting returns what finding finds, for every path that does not end in a dot. */
  lemma ExtractAgreesWithFind(v: Value, path: string)
    requires v.Dictionary? && WellFormed(v)
    ensures var taken := ExtractDotted(v, path).0;
            taken == if path == "" || EndsWithDot(path) then None else FindAt(v, Components(path))
  {
    DottedExtracts(v, path);
    if path != "" {
      ExtractTakesWhatFindFinds(v, Components(path));
    }
  }

  /** `{"a": null}`: the path `a.` is found and cannot be extracted. */
  lemma TrailingDotIsFoundOnly()
    ensures var v := Dictionary([Entry("a", Null)]);
            FindAt(v, Components("a.")) == Some(Null) && ExtractDotted(v, "a.") == (None, v)
  {
    var v := Dictionary([Entry("a", Null)]);
    IndexOfIs("a.", '.', 1);
    assert "a."[..1] == "a" && "a."[2..] == "";
    assert Components("a.") == ["a"];
    assert ["a"][1..] == [];
    DottedExtracts(v, "a.");
  }

  class ValueTree {
    var root: Value

    constructor (root: Value)
      requires root.Dictionary? && WellFormed(root)
      ensures this.root == root && Valid()
    {
      this.root := root;
    }

    ghost predicate Valid()
      reads this
    {
      root.Dictionary? && WellFormed(root)
    }

    method FindPath(path: string) returns (found: Option<Value>)
      requires Valid()
      ensures found == FindAt(root, Components(path))
    {
      var cur := root;
      var splitter := new PathSplitter(path);
      assert path[0..] == path;
      while splitter.HasNext()
        invariant splitter.Valid() && splitter.path == path
        invariant FindAt(root, Components(path)) == FindAt(cur, Components(path[splitter.pos..]))
        decreases |path| - splitter.pos
      {
        if !cur.Dictionary? {
          return None;
        }
        var component := splitter.Next();
        match Find(cur.dict, component)
        case None => return None;
        case Some(child) => cur := child;
      }
      found := Some(cur);
    }

    /** Walks down from the root, creating the dictionaries that are missing.  `whole` writes a
        value back where the walk stands: what the source does through its pointer `cur`. */
    method SetPath(path: string, x: Value) returns (ok: bool)
      requires Valid() && WellFormed(x) && path != ""
      modifies this
      ensures Valid()
      ensures match SetAt(old(root), Components(path), x)
              case Some(tree) => ok && root == tree
              case None => !ok && root == old(root)
    {
      var cur := root;
      var whole: Value -> Value := v => v;
      var splitter := new PathSplitter(path);
      assert path[0..] == path;
      var component := splitter.Next();
      ghost var target := SetAt(root, Components(path), x);
      while splitter.HasNext()
        invariant splitter.Valid() && splitter.path == path
        invariant root == old(root) && WellFormed(cur)
        invariant whole(cur) == root || cur == EMPTY
        invariant target == match SetAt(cur, [component] + Components(path[splitter.pos..]), x)
                            case None => None
                            case Some(v) => Some(whole(v))
        decreases |path| - splitter.pos
      {
        ghost var rest := [component] + Components(path[splitter.pos..]);
        if !cur.Dictionary? {
          root := whole(cur);
          return false;
        }
        var parent, outer, key := cur.dict, whole, component;
        var found := Find(parent, key);
        cur := if found == None then EMPTY else found.value;
        whole := v => outer(Dictionary(Put(parent, key, v)));
        component := splitter.Next();
        assert rest[1..] == [component] + Components(path[splitter.pos..]);
        if found.Some? {
          FoundIsWellFormed(parent, key);
          PutFound(parent, key, cur);
        }
      }
      if !cur.Dictionary? {
        root := whole(cur);
        return false;
      }
      assert Components(path[splitter.pos..]) == [];
      SetKeepsWellFormed(root, Components(path), x);
      root := whole(Dictionary(Put(cur.dict, component, x)));
      ok := true;
    }

    static method ExtractFrom(v: Value, path: string) returns (taken: Option<Value>, left: Value)
      ensures (taken, left) == ExtractDotted(v, path)
      decreases |path|
    {
      if !v.Dictionary? || path == "" {
        return None, v;
      }
      var dot := IndexOf(path, '.');
      if dot == |path| {
        var found := Find(v.dict, path);
        if found == None {
          return None, v;
        }
        return found, Dictionary(Del(v.dict, path));
      }
      var found := Find(v.dict, path[..dot]);
      if found == None || !found.value.Dictionary? {
        return None, v;
      }
      var below;
      taken, below := ExtractFrom(found.value, path[dot + 1..]);
      if taken == None {
        left := v;
      } else if below == EMPTY {
        left := Dictionary(Del(v.dict, path[..dot]));
      } else {
        left := Dictionary(Put(v.dict, path[..dot], below));
      }
    }

    method ExtractPath(path: string) returns (taken: Option<Value>)
      requires Valid()
      modifies this
      ensures Valid() && (taken, root) == ExtractDotted(old(root), path)
      ensures taken == if path == "" || EndsWithDot(path) then None else FindAt(old(root), Components(path))
      ensures taken == None ==> root == old(root)
    {
      DottedExtracts(root, path);
      ExtractAgreesWithFind(root, path);
      ExtractKeepsKind(root, Components(path));
      ExtractKeepsWellFormed(root, Components(path));
      taken, root := ExtractFrom(root, path);
    }
  }
}
