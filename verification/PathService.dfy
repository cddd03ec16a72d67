/** Paths by key: overrides, providers that may ask for other keys, and a cache over both. */
module PathServices {
  import opened Wrappers

  type Path = string

  const DIR_CURRENT := 1
  const DIR_EXE := 2
  const DIR_MODULE := 3
  const DIR_ASSETS := 4
  const DIR_TEMP := 5
  const DIR_HOME := 6
  const FILE_EXE := 7
  const FILE_MODULE := 8
  const DIR_SOURCE_ROOT := 9
  const DIR_USER_DESKTOP := 10
  const DIR_TEST_DATA := 11
  const DIR_APP_DATA := 109
  const DIR_USER_QUICK_LAUNCH := 114
  const DIR_TASKBAR_PINS := 115
  const DIR_IMPLICIT_APP_SHORTCUTS := 116
  const DIR_WINDOWS_FONTS := 117

  /** What the system and the path class answer: the current directory, the known folders, and
      operations on paths. */
  datatype System = System(
    current: Option<Path>,
    known: int -> Option<Path>,
    pathExists: Path -> bool,
    createDirectory: Path -> bool,
    makeAbsolute: Path -> Path,
    referencesParent: Path -> bool,
    dirName: Path -> Path,
    append: (Path, Path) -> Path)

  /** A provider's plan for a key: the keys it asks for, and what it makes of the answers. */
  datatype Plan = Plan(asks: seq<int>, finish: seq<Option<Path>> -> Option<Path>)

  type Provider = int -> Plan

  const REFUSE := Plan([], answers => None)

  /** Everything that is asked for has a lower rank. */
  ghost predicate RankedPlan(plan: Plan, rank: int -> nat, bound: nat) {
    forall k :: 0 <= k < |plan.asks| ==> rank(plan.asks[k]) < bound
  }

  ghost predicate Ranked(providers: seq<Provider>, rank: int -> nat) {
    forall i, key :: 0 <= i < |providers| ==> RankedPlan(providers[i](key), rank, rank(key))
  }

  /** What `Get` does with a provider's path: an empty one is a failure, and one that refers to a
      parent directory is made absolute first. */
  function Accepted(sys: System, path: Path): Option<Path> {
    if path == "" then None
    else if !sys.referencesParent(path) then Some(path)
    else if sys.makeAbsolute(path) == "" then None
    else Some(sys.makeAbsolute(path))
  }

  /** What the path service is asked about: everything but its cache. */
  datatype Setup = Setup(overrides: map<int, Path>, providers: seq<Provider>, sys: System)

  /** Resolving without a cache. */
  ghost function Resolve(key: int, setup: Setup, rank: int -> nat): Option<Path>
    requires Ranked(setup.providers, rank)
    decreases rank(key), 2, 0
  {
    if key == DIR_CURRENT then setup.sys.current
    else if key in setup.overrides then Some(setup.overrides[key])
    else Walk(key, 0, setup, rank)
  }

  /** The first provider that answers decides. */
  ghost function Walk(key: int, i: nat, setup: Setup, rank: int -> nat): Option<Path>
    requires Ranked(setup.providers, rank) && i <= |setup.providers|
    decreases rank(key), 1, |setup.providers| - i
  {
    if i == |setup.providers| then None
    else
      var plan := setup.providers[i](key);
      assert RankedPlan(plan, rank, rank(key));
      match plan.finish(ResolveAll(plan.asks, rank(key), setup, rank))
      case Some(path) => Accepted(setup.sys, path)
      case None => Walk(key, i + 1, setup, rank)
  }

  ghost function ResolveAll(keys: seq<int>, bound: nat, setup: Setup, rank: int -> nat): seq<Option<Path>>
    requires Ranked(setup.providers, rank)
    requires forall k :: 0 <= k < |keys| ==> rank(keys[k]) < bound
    decreases bound, 0, |keys|
  {
    if keys == [] then []
    else ResolveAll(keys[..|keys| - 1], bound, setup, rank) + [Resolve(keys[|keys| - 1], setup, rank)]
  }

  // ----- what an answer depends on -----

  /** The provider has no answer for the key, whatever it is told. */
  ghost predicate Refuses(provider: Provider, key: int) {
    forall answers :: provider(key).finish(answers) == None
  }

  /** A set of keys whose answers depend on no other keys. */
  ghost predicate Closed(keys: iset<int>, providers: seq<Provider>) {
    forall i, key, k :: 0 <= i < |providers| && key in keys && key != DIR_CURRENT && 0 <= k < |providers[i](key).asks|
      ==> providers[i](key).asks[k] in keys
  }

  /** The two setups look alike to the keys: same overrides, same current directory if that is among
      them, same system otherwise, and the providers in front refuse them. */
  ghost predicate Alike(keys: iset<int>, a: Setup, front: seq<Provider>, b: Setup) {
    && b.providers == front + a.providers
    && b.sys == a.sys.(current := b.sys.current) && (DIR_CURRENT in keys ==> a.sys.current == b.sys.current)
    && (forall key :: key in keys && key != DIR_CURRENT ==>
          && (key in a.overrides <==> key in b.overrides)
          && (key in a.overrides ==> a.overrides[key] == b.overrides[key]))
    && (forall i, key :: 0 <= i < |front| && key in keys ==> Refuses(front[i], key))
  }

  /** Then the keys resolve alike. */
  lemma {:induction false} AlikeResolve(key: int, keys: iset<int>, a: Setup, front: seq<Provider>, b: Setup, rank: int -> nat)
    requires Ranked(a.providers, rank) && Ranked(b.providers, rank)
    requires Closed(keys, a.providers) && Alike(keys, a, front, b) && key in keys
    ensures Resolve(key, a, rank) == Resolve(key, b, rank)
    decreases rank(key), 3, 0
  {
    if key != DIR_CURRENT && key !in a.overrides {
      assert forall j :: 0 <= j < |front| ==> b.providers[j] == front[j];
      Skip(key, 0, |front|, b, rank);
      AlikeWalk(key, 0, keys, a, front, b, rank);
    }
  }

  /** Providers that refuse are passed over. */
  lemma {:induction false} Skip(key: int, i: nat, n: nat, setup: Setup, rank: int -> nat)
    requires Ranked(setup.providers, rank) && i <= n <= |setup.providers|
    requires forall j :: i <= j < n ==> Refuses(setup.providers[j], key)
    ensures Walk(key, i, setup, rank) == Walk(key, n, setup, rank)
    decreases n - i
  {
    if i < n {
      assert Refuses(setup.providers[i], key);
      Skip(key, i + 1, n, setup, rank);
    }
  }

  lemma {:induction false} AlikeWalk(key: int, i: nat, keys: iset<int>, a: Setup, front: seq<Provider>, b: Setup,
                                     rank: int -> nat)
    requires Ranked(a.providers, rank) && Ranked(b.providers, rank) && i <= |a.providers|
    requires Closed(keys, a.providers) && Alike(keys, a, front, b) && key in keys && key != DIR_CURRENT
    ensures Walk(key, i, a, rank) == Walk(key, |front| + i, b, rank)
    decreases rank(key), 1, |a.providers| - i
  {
    if i < |a.providers| {
      var plan := a.providers[i](key);
      assert RankedPlan(plan, rank, rank(key)) && b.providers[|front| + i] == a.providers[i];
      AlikeAll(plan.asks, rank(key), keys, a, front, b, rank);
      AlikeWalk(key, i + 1, keys, a, front, b, rank);
    }
  }

  lemma {:induction false} AlikeAll(asked: seq<int>, bound: nat, keys: iset<int>, a: Setup, front: seq<Provider>,
                                    b: Setup, rank: int -> nat)
    requires Ranked(a.providers, rank) && Ranked(b.providers, rank)
    requires Closed(keys, a.providers) && Alike(keys, a, front, b)
    requires forall k :: 0 <= k < |asked| ==> rank(asked[k]) < bound && asked[k] in keys
    ensures ResolveAll(asked, bound, a, rank) == ResolveAll(asked, bound, b, rank)
    decreases bound, 0, |asked|
  {
    if asked != [] {
      AlikeAll(asked[..|asked| - 1], bound, keys, a, front, b, rank);
      AlikeResolve(asked[|asked| - 1], keys, a, front, b, rank);
    }
  }

  predicate IsCurrent(key: int) {
    key == DIR_CURRENT
  }

  predicate IsWithin(key: int, lo: int, hi: int) {
    lo <= key < hi
  }

  ghost function AllButCurrent(): iset<int> {
    iset key | !IsCurrent(key)
  }

  ghost function Outside(lo: int, hi: int): iset<int> {
    iset key | !IsWithin(key, lo, hi)
  }

  /** The current directory does not matter to other keys unless a provider asks for it, which is
      why everything but the current directory itself may be cached. */
  lemma CurrentDirectoryIsApart(key: int, setup: Setup, current: Option<Path>, rank: int -> nat)
    requires Ranked(setup.providers, rank) && key != DIR_CURRENT
    requires Closed(AllButCurrent(), setup.providers)
    ensures Resolve(key, setup, rank) == Resolve(key, setup.(sys := setup.sys.(current := current)), rank)
  {
    AlikeResolve(key, AllButCurrent(), setup, [], setup.(sys := setup.sys.(current := current)), rank);
  }

  /** An override changes no key that does not depend on the overridden one. */
  lemma OverrideIsLocal(key: int, keys: iset<int>, setup: Setup, other: int, path: Path, rank: int -> nat)
    requires Ranked(setup.providers, rank) && Closed(keys, setup.providers) && key in keys && other !in keys
    ensures Resolve(key, setup, rank) == Resolve(key, setup.(overrides := setup.overrides[other := path]), rank)
  {
    AlikeResolve(key, keys, setup, [], setup.(overrides := setup.overrides[other := path]), rank);
  }

  // ----- who answers -----

  /** What the i-th provider makes of the answers to what it asks. */
  ghost function AnswerOf(i: nat, key: int, setup: Setup, rank: int -> nat): Option<Path>
    requires Ranked(setup.providers, rank) && i < |setup.providers|
  {
    var plan := setup.providers[i](key);
    assert RankedPlan(plan, rank, rank(key));
    plan.finish(ResolveAll(plan.asks, rank(key), setup, rank))
  }

  lemma {:induction false} PassedOver(key: int, i: nat, n: nat, setup: Setup, rank: int -> nat)
    requires Ranked(setup.providers, rank) && i <= n <= |setup.providers|
    requires forall j :: i <= j < n ==> AnswerOf(j, key, setup, rank) == None
    ensures Walk(key, i, setup, rank) == Walk(key, n, setup, rank)
    decreases n - i
  {
    if i < n {
      assert AnswerOf(i, key, setup, rank) == None;
      PassedOver(key, i + 1, n, setup, rank);
    }
  }

  /** The first provider with an answer decides, the last registered being asked first: an empty path
      is none, and one that refers to a parent directory is made absolute. */
  lemma FirstAnswerDecides(key: int, n: nat, setup: Setup, rank: int -> nat)
    requires Ranked(setup.providers, rank) && n < |setup.providers|
    requires key != DIR_CURRENT && key !in setup.overrides
    requires forall j :: 0 <= j < n ==> AnswerOf(j, key, setup, rank) == None
    requires AnswerOf(n, key, setup, rank).Some?
    ensures var path := AnswerOf(n, key, setup, rank).value;
            var given := if setup.sys.referencesParent(path) && path != "" then setup.sys.makeAbsolute(path) else path;
            Resolve(key, setup, rank) == if given == "" then None else Some(given)
  {
    PassedOver(key, 0, n, setup, rank);
  }

  lemma NoAnswerIsNone(key: int, setup: Setup, rank: int -> nat)
    requires Ranked(setup.providers, rank) && key != DIR_CURRENT && key !in setup.overrides
    requires forall j :: 0 <= j < |setup.providers| ==> AnswerOf(j, key, setup, rank) == None
    ensures Resolve(key, setup, rank) == None
  {
    PassedOver(key, 0, |setup.providers|, setup, rank);
  }

  /** Nobody is asked for the current directory, and nobody for an overridden key. */
  lemma OverridesComeFirst(key: int, setup: Setup, rank: int -> nat)
    requires Ranked(setup.providers, rank)
    ensures Resolve(DIR_CURRENT, setup, rank) == setup.sys.current
    ensures key != DIR_CURRENT && key in setup.overrides ==> Resolve(key, setup, rank) == Some(setup.overrides[key])
  {
  }

  // ----- registering a provider while the cache is kept -----

  /** Every cached entry is what resolving without the cache would give. */
  ghost predicate Coherent(cache: map<int, Path>, setup: Setup, rank: int -> nat)
    requires Ranked(setup.providers, rank)
  {
    forall key :: key in cache ==> key != DIR_CURRENT && Resolve(key, setup, rank) == Some(cache[key])
  }

  /** What a registration must see to: the new provider answers only for its own range of keys,
      `[lo, hi)`, and no older one does. */
  ghost predicate Disjoint(newcomer: Provider, lo: int, hi: int, providers: seq<Provider>) {
    && (forall key :: !IsWithin(key, lo, hi) ==> Refuses(newcomer, key))
    && (forall i, key :: 0 <= i < |providers| && IsWithin(key, lo, hi) ==> Refuses(providers[i], key))
  }

  /** No other key asks for one in the range; then a provider for it changes no answer there was. */
  lemma NewcomerIsApart(key: int, newcomer: Provider, lo: int, hi: int, setup: Setup, rank: int -> nat)
    requires Ranked(setup.providers, rank) && Ranked([newcomer] + setup.providers, rank)
    requires Disjoint(newcomer, lo, hi, setup.providers) && Closed(Outside(lo, hi), setup.providers)
    requires Resolve(key, setup, rank).Some?
    ensures Resolve(key, setup.(providers := [newcomer] + setup.providers), rank) == Resolve(key, setup, rank)
  {
    if !IsWithin(key, lo, hi) {
      AlikeResolve(key, Outside(lo, hi), setup, [newcomer], setup.(providers := [newcomer] + setup.providers), rank);
    } else if key != DIR_CURRENT && key !in setup.overrides {
      Skip(key, 0, |setup.providers|, setup, rank);
    }
  }

  lemma NewcomerKeepsCache(cache: map<int, Path>, newcomer: Provider, lo: int, hi: int, setup: Setup, rank: int -> nat)
    requires Ranked(setup.providers, rank) && Ranked([newcomer] + setup.providers, rank)
    requires Disjoint(newcomer, lo, hi, setup.providers) && Closed(Outside(lo, hi), setup.providers)
    requires Coherent(cache, setup, rank)
    ensures Coherent(cache, setup.(providers := [newcomer] + setup.providers), rank)
  {
    forall key | key in cache
      ensures Resolve(key, setup.(providers := [newcomer] + setup.providers), rank) == Some(cache[key])
    {
      NewcomerIsApart(key, newcomer, lo, hi, setup, rank);
    }
  }

  /** The same keys are asked for, in the same order; what is made of the answers may differ. */
  ghost predicate SameAsks(a: seq<Provider>, b: seq<Provider>) {
    |a| == |b| && forall i, key :: 0 <= i < |a| ==> a[i](key).asks == b[i](key).asks
  }

  lemma SameAsksRanked(a: seq<Provider>, b: seq<Provider>, rank: int -> nat)
    requires SameAsks(a, b) && Ranked(b, rank)
    ensures Ranked(a, rank)
  {
    forall i, key | 0 <= i < |a| ensures RankedPlan(a[i](key), rank, rank(key)) {
      assert RankedPlan(b[i](key), rank, rank(key)) && a[i](key).asks == b[i](key).asks;
    }
  }

  lemma BothRanked(newcomer: Provider, providers: seq<Provider>, rank: int -> nat)
    requires Ranked([newcomer], rank) && Ranked(providers, rank)
    ensures Ranked([newcomer] + providers, rank)
  {
    var all := [newcomer] + providers;
    forall i, key | 0 <= i < |all| ensures RankedPlan(all[i](key), rank, rank(key)) {
      if i == 0 {
        assert RankedPlan([newcomer][0](key), rank, rank(key));
      }
    }
  }

  /** The kept cache stays right, whatever the overrides, the system and the entries. */
  ghost predicate KeepsCache(newcomer: Provider, providers: seq<Provider>, rank: int -> nat)
    requires Ranked(providers, rank) && Ranked([newcomer] + providers, rank)
  {
    forall cache, overrides, sys :: Coherent(cache, Setup(overrides, providers, sys), rank)
      ==> Coherent(cache, Setup(overrides, [newcomer] + providers, sys), rank)
  }

  /** Registering keeps the cache right for every new provider of the range, and whatever the older
      ones make of their answers, exactly when no key outside the range asks for one inside it. */
  lemma RegisteringIsSafeExactly(providers: seq<Provider>, lo: int, hi: int, rank: int -> nat)
    requires Ranked(providers, rank) && DIR_CURRENT < lo < hi
    ensures Closed(Outside(lo, hi), providers)
       <==> (forall ps, newcomer ::
               (SameAsks(ps, providers) && Ranked(ps, rank) && Ranked([newcomer] + ps, rank)
                && Disjoint(newcomer, lo, hi, ps))
               ==> KeepsCache(newcomer, ps, rank))
  {
    if Closed(Outside(lo, hi), providers) {
      forall ps, newcomer | SameAsks(ps, providers) && Ranked(ps, rank) && Ranked([newcomer] + ps, rank)
                            && Disjoint(newcomer, lo, hi, ps)
        ensures KeepsCache(newcomer, ps, rank)
      {
        assert Closed(Outside(lo, hi), ps);
        forall cache, overrides, sys | Coherent(cache, Setup(overrides, ps, sys), rank)
          ensures Coherent(cache, Setup(overrides, [newcomer] + ps, sys), rank)
        {
          NewcomerKeepsCache(cache, newcomer, lo, hi, Setup(overrides, ps, sys), rank);
        }
      }
    } else {
      var i, key, k :| 0 <= i < |providers| && !IsWithin(key, lo, hi) && key != DIR_CURRENT
                       && 0 <= k < |providers[i](key).asks| && IsWithin(providers[i](key).asks[k], lo, hi);
      var ps, asked := Probes(providers, i, key, k), providers[i](key).asks[k];
      ProbesAsk(providers, i, key, k);
      SameAsksRanked(ps, providers, rank);
      NewcomerIsRanked(asked, ps, rank);
      NewcomerIsDisjoint(ps, providers, i, key, k, asked, lo, hi);
      ProbesOutdate(ps, providers, i, key, k, asked, rank);
    }
  }

  // ----- why the condition is needed -----

  /** Answers with whether the k-th key asked for had an answer. */
  function TellWhether(k: nat): seq<Option<Path>> -> Option<Path> {
    (answers: seq<Option<Path>>) => Some(if k < |answers| && answers[k] == None then "without" else "with")
  }

  function Nothing(): seq<Option<Path>> -> Option<Path> {
    (answers: seq<Option<Path>>) => None
  }

  /** Asks what `provider` asks, and answers for one key at most. */
  function Probe(provider: Provider, key: int, k: nat, answers: bool): Provider {
    (x: int) => Plan(provider(x).asks, if answers && x == key then TellWhether(k) else Nothing())
  }

  function Probes(providers: seq<Provider>, i: int, key: int, k: nat): (r: seq<Provider>)
    ensures |r| == |providers|
    ensures forall j :: 0 <= j < |r| ==> r[j] == Probe(providers[j], key, k, j == i)
  {
    if providers == [] then [] else [Probe(providers[0], key, k, i == 0)] + Probes(providers[1..], i - 1, key, k)
  }

  function AnswersOnly(key: int): Provider {
    (x: int) => Plan([], if x == key then ((answers: seq<Option<Path>>) => Some("new")) else Nothing())
  }

  function PlainSystem(): System {
    System(None, key => None, path => true, path => true, path => path, path => false, path => path, (a, b) => a)
  }

  /** The same keys are asked for, and only provider `i` answers, and only for `key`. */
  ghost predicate Probing(ps: seq<Provider>, providers: seq<Provider>, i: nat, key: int, k: nat) {
    && SameAsks(ps, providers) && i < |ps| && ps[i](key).finish == TellWhether(k)
    && (forall j, x :: 0 <= j < |ps| && (j != i || x != key) ==> Refuses(ps[j], x))
  }

  lemma ProbesAsk(providers: seq<Provider>, i: nat, key: int, k: nat)
    requires i < |providers|
    ensures Probing(Probes(providers, i, key, k), providers, i, key, k)
  {
  }

  lemma NewcomerRefuses(asked: int, key: int)
    requires asked != key
    ensures Refuses(AnswersOnly(asked), key)
  {
    assert AnswersOnly(asked)(key).finish == Nothing();
  }

  lemma NewcomerIsDisjoint(ps: seq<Provider>, providers: seq<Provider>, i: nat, key: int, k: nat, asked: int,
                           lo: int, hi: int)
    requires Probing(ps, providers, i, key, k) && !IsWithin(key, lo, hi) && IsWithin(asked, lo, hi)
    ensures Disjoint(AnswersOnly(asked), lo, hi, ps)
  {
    forall x | !IsWithin(x, lo, hi) ensures Refuses(AnswersOnly(asked), x) {
      NewcomerRefuses(asked, x);
    }
  }

  lemma NewcomerIsRanked(asked: int, ps: seq<Provider>, rank: int -> nat)
    requires Ranked(ps, rank)
    ensures Ranked([AnswersOnly(asked)] + ps, rank)
  {
    assert Ranked([AnswersOnly(asked)], rank);
    BothRanked(AnswersOnly(asked), ps, rank);
  }

  lemma {:induction false} AskedAt(keys: seq<int>, bound: nat, setup: Setup, rank: int -> nat, k: nat)
    requires Ranked(setup.providers, rank) && k < |keys|
    requires forall j :: 0 <= j < |keys| ==> rank(keys[j]) < bound
    ensures |ResolveAll(keys, bound, setup, rank)| == |keys|
    ensures ResolveAll(keys, bound, setup, rank)[k] == Resolve(keys[k], setup, rank)
    decreases |keys|
  {
    if |keys| > 1 {
      AskedAt(keys[..|keys| - 1], bound, setup, rank, if k < |keys| - 1 then k else 0);
    }
  }

  /** A probe at place `n` tells whether the key it asks for has an answer. */
  lemma ProbeTells(setup: Setup, n: nat, key: int, k: nat, rank: int -> nat)
    requires Ranked(setup.providers, rank) && n < |setup.providers| && setup.overrides == map[]
    requires setup.sys == PlainSystem() && key != DIR_CURRENT
    requires forall j :: 0 <= j < n ==> Refuses(setup.providers[j], key)
    requires k < |setup.providers[n](key).asks| && setup.providers[n](key).finish == TellWhether(k)
    ensures Resolve(key, setup, rank)
         == Some(if Resolve(setup.providers[n](key).asks[k], setup, rank) == None then "without" else "with")
  {
    var plan := setup.providers[n](key);
    assert RankedPlan(plan, rank, rank(key));
    AskedAt(plan.asks, rank(key), setup, rank, k);
    Skip(key, 0, n, setup, rank);
  }

  lemma ProbesOutdate(ps: seq<Provider>, providers: seq<Provider>, i: nat, key: int, k: nat, asked: int, rank: int -> nat)
    requires Ranked(ps, rank) && Ranked([AnswersOnly(asked)] + ps, rank) && Probing(ps, providers, i, key, k)
    requires key != DIR_CURRENT && asked != DIR_CURRENT && key != asked && k < |ps[i](key).asks| && ps[i](key).asks[k] == asked
    ensures !KeepsCache(AnswersOnly(asked), ps, rank)
  {
    AnswerBefore(ps, i, key, k, rank);
    Shifted(AnswersOnly(asked), ps, i, key);
    AnswerAfter(Setup(map[], [AnswersOnly(asked)] + ps, PlainSystem()), i + 1, key, k, rank);
    Outdated(AnswersOnly(asked), ps, key, rank);
  }

  lemma Shifted(newcomer: Provider, ps: seq<Provider>, i: nat, key: int)
    requires i < |ps| && forall j :: 0 <= j < i ==> Refuses(ps[j], key)
    ensures var all := [newcomer] + ps;
            && all[0] == newcomer && all[i + 1] == ps[i]
            && forall j :: 1 <= j < i + 1 ==> Refuses(all[j], key)
  {
    var all := [newcomer] + ps;
    forall j | 1 <= j < i + 1 ensures Refuses(all[j], key) {
      assert all[j] == ps[j - 1];
    }
  }

  /** An answer that changes can have been cached. */
  lemma Outdated(newcomer: Provider, ps: seq<Provider>, key: int, rank: int -> nat)
    requires Ranked(ps, rank) && Ranked([newcomer] + ps, rank) && key != DIR_CURRENT
    requires Resolve(key, Setup(map[], ps, PlainSystem()), rank) == Some("without")
    requires Resolve(key, Setup(map[], [newcomer] + ps, PlainSystem()), rank) == Some("with")
    ensures !KeepsCache(newcomer, ps, rank)
  {
    var cache: map<int, Path> := map[key := "without"];
    assert Coherent(cache, Setup(map[], ps, PlainSystem()), rank);
    assert !Coherent(cache, Setup(map[], [newcomer] + ps, PlainSystem()), rank);
  }

  lemma AnswerBefore(ps: seq<Provider>, i: nat, key: int, k: nat, rank: int -> nat)
    requires Ranked(ps, rank) && i < |ps| && key != DIR_CURRENT
    requires k < |ps[i](key).asks| && ps[i](key).asks[k] != DIR_CURRENT && ps[i](key).finish == TellWhether(k)
    requires forall j :: 0 <= j < i ==> Refuses(ps[j], key)
    requires forall j :: 0 <= j < |ps| ==> Refuses(ps[j], ps[i](key).asks[k])
    ensures Resolve(key, Setup(map[], ps, PlainSystem()), rank) == Some("without")
  {
    var setup := Setup(map[], ps, PlainSystem());
    Skip(ps[i](key).asks[k], 0, |ps|, setup, rank);
    ProbeTells(setup, i, key, k, rank);
  }

  lemma AnswerAfter(setup: Setup, i: nat, key: int, k: nat, rank: int -> nat)
    requires Ranked(setup.providers, rank) && 0 < i < |setup.providers| && setup.overrides == map[]
    requires setup.sys == PlainSystem() && key != DIR_CURRENT
    requires k < |setup.providers[i](key).asks| && setup.providers[i](key).finish == TellWhether(k)
    requires setup.providers[0] == AnswersOnly(setup.providers[i](key).asks[k])
    requires setup.providers[i](key).asks[k] != DIR_CURRENT && setup.providers[i](key).asks[k] != key
    requires forall j :: 1 <= j < i ==> Refuses(setup.providers[j], key)
    ensures Resolve(key, setup, rank) == Some("with")
  {
    NewcomerAnswers(setup.providers[i](key).asks[k], setup, rank);
    NewcomerRefuses(setup.providers[i](key).asks[k], key);
    ProbeTells(setup, i, key, k, rank);
  }

  lemma NewcomerAnswers(asked: int, setup: Setup, rank: int -> nat)
    requires Ranked(setup.providers, rank) && asked != DIR_CURRENT && setup.overrides == map[]
    requires setup.providers != [] && setup.providers[0] == AnswersOnly(asked) && setup.sys == PlainSystem()
    ensures Resolve(asked, setup, rank) == Some("new")
  {
    assert Walk(asked, 0, setup, rank) == Accepted(PlainSystem(), "new");
  }

  /** `Get` gives out no path that refers to a parent directory, exactly when no override does. */
  lemma NoParents(setup: Setup, rank: int -> nat)
    requires Ranked(setup.providers, rank) && DIR_CURRENT !in setup.overrides
    requires forall path :: !setup.sys.referencesParent(setup.sys.makeAbsolute(path))
    ensures (forall key :: key != DIR_CURRENT && Resolve(key, setup, rank).Some?
               ==> !setup.sys.referencesParent(Resolve(key, setup, rank).value))
       <==> (forall key :: key in setup.overrides ==> !setup.sys.referencesParent(setup.overrides[key]))
  {
    forall key | key != DIR_CURRENT && key !in setup.overrides && Resolve(key, setup, rank).Some?
      ensures !setup.sys.referencesParent(Resolve(key, setup, rank).value)
    {
      ProvidersGiveNoParents(key, 0, setup, rank);
    }
    if key :| key in setup.overrides && setup.sys.referencesParent(setup.overrides[key]) {
      assert Resolve(key, setup, rank) == Some(setup.overrides[key]);
    }
  }

  /** An absolute override is taken as it is, where a provider's path would be made absolute. */
  lemma OverrideCanReferToParent(rank: int -> nat)
    ensures var path := "C:\\work\\..\\data";
            var sys := PlainSystem().(referencesParent := p => p == "C:\\work\\..\\data", makeAbsolute := p => "C:\\data");
            && (forall p :: !sys.referencesParent(sys.makeAbsolute(p)))
            && Resolve(300, Setup(map[300 := path], [], sys), rank) == Some(path) && sys.referencesParent(path)
            && Resolve(300, Setup(map[], [key => Plan([], answers => Some(path))], sys), rank) == Some("C:\\data")
  {
    var path := "C:\\work\\..\\data";
    var sys := PlainSystem().(referencesParent := p => p == "C:\\work\\..\\data", makeAbsolute := p => "C:\\data");
    assert path != "C:\\data" by {
      assert path[3] != "C:\\data"[3];
    }
    assert Accepted(sys, path) == Some("C:\\data");
  }

  lemma {:induction false} ProvidersGiveNoParents(key: int, i: nat, setup: Setup, rank: int -> nat)
    requires Ranked(setup.providers, rank) && i <= |setup.providers|
    requires forall path :: !setup.sys.referencesParent(setup.sys.makeAbsolute(path))
    ensures var r := Walk(key, i, setup, rank);
            r.Some? ==> r.value != "" && !setup.sys.referencesParent(r.value)
    decreases |setup.providers| - i
  {
    if i < |setup.providers| {
      ProvidersGiveNoParents(key, i + 1, setup, rank);
    }
  }

  class PathService {
    var cache: map<int, Path>
    var overrides: map<int, Path>
    var providers: seq<Provider>
    var cacheDisabled: bool
    var sys: System
    ghost const rank: int -> nat

    ghost function Current(): Setup
      reads this
    {
      Setup(overrides, providers, sys)
    }

    /** Every cached entry is what resolving without the cache would give. */
    ghost predicate Valid()
      reads this
    {
      && Ranked(providers, rank)
      && Coherent(cache, Current(), rank)
      && (cacheDisabled ==> cache == map[])
    }

    constructor (providers: seq<Provider>, sys: System, ghost rank: int -> nat)
      requires Ranked(providers, rank)
      ensures Valid() && Current() == Setup(map[], providers, sys) && this.rank == rank && !cacheDisabled
    {
      cache, overrides, cacheDisabled := map[], map[], false;
      this.providers, this.sys, this.rank := providers, sys, rank;
    }

    /** The cache does not show: with or without it, `Get` resolves. */
    method Get(key: int) returns (result: Option<Path>)
      requires Valid()
      modifies this`cache
      ensures Valid() && result == Resolve(key, Current(), rank)
      ensures old(cache.Keys) <= cache.Keys
      ensures result.Some? && key != DIR_CURRENT && !cacheDisabled ==> key in cache
      decreases rank(key), 1
    {
      if key == DIR_CURRENT {
        return sys.current;
      }
      if !cacheDisabled && key in cache {
        return Some(cache[key]);
      }
      if key in overrides {
        Remember(key, overrides[key]);
        return Some(overrides[key]);
      }
      var path: Option<Path> := None;
      var i := 0;
      while i < |providers|
        invariant i <= |providers| && Valid() && path == None && old(cache.Keys) <= cache.Keys
        invariant Walk(key, 0, Current(), rank) == Walk(key, i, Current(), rank)
      {
        path := Ask(key, i);
        if path.Some? {
          break;
        }
        i := i + 1;
      }
      if path.None? || path.value == "" {
        return None;
      }
      if sys.referencesParent(path.value) {
        path := Some(sys.makeAbsolute(path.value));
        if path.value == "" {
          return None;
        }
      }
      Remember(key, path.value);
      return path;
    }

    /** Caches an answer, unless the cache is disabled. */
    method Remember(key: int, path: Path)
      requires Valid() && key != DIR_CURRENT && Resolve(key, Current(), rank) == Some(path)
      modifies this`cache
      ensures Valid() && cache == if cacheDisabled then old(cache) else old(cache)[key := path]
    {
      if !cacheDisabled {
        cache := cache[key := path];
      }
    }

    /** A provider at work: it asks for its keys through `Get` again. */
    method Ask(key: int, i: nat) returns (path: Option<Path>)
      requires Valid() && i < |providers|
      modifies this`cache
      ensures Valid() && old(cache.Keys) <= cache.Keys
      ensures path == providers[i](key).finish(ResolveAll(providers[i](key).asks, rank(key), Current(), rank))
      decreases rank(key), 0
    {
      var plan := providers[i](key);
      var answers := [];
      var k := 0;
      while k < |plan.asks|
        invariant k <= |plan.asks| && Valid() && RankedPlan(plan, rank, rank(key)) && old(cache.Keys) <= cache.Keys
        invariant answers == ResolveAll(plan.asks[..k], rank(key), Current(), rank)
      {
        var answer := Get(plan.asks[k]);
        answers := answers + [answer];
        assert plan.asks[..k + 1][..k] == plan.asks[..k];
        k := k + 1;
      }
      assert plan.asks[..k] == plan.asks;
      path := plan.finish(answers);
    }

    /** Overrides a path, and forgets the cache, whose entries could depend on it. */
    method OverrideAndCreateIfNeeded(key: int, path: Path, isAbsolute: bool, create: bool) returns (ok: bool)
      requires Valid() && key > DIR_CURRENT
      modifies this`cache, this`overrides
      ensures Valid()
      ensures ok == ((create ==> sys.pathExists(path) || sys.createDirectory(path))
                     && (!isAbsolute ==> sys.makeAbsolute(path) != ""))
      ensures ok ==> Resolve(key, Current(), rank) == Some(if isAbsolute then path else sys.makeAbsolute(path))
      ensures ok ==> overrides == old(overrides)[key := if isAbsolute then path else sys.makeAbsolute(path)]
      ensures !ok ==> overrides == old(overrides) && cache == old(cache)
    {
      var filePath := path;
      if create {
        if !sys.pathExists(filePath) && !sys.createDirectory(filePath) {
          return false;
        }
      }
      if !isAbsolute {
        filePath := sys.makeAbsolute(filePath);
        if filePath == "" {
          return false;
        }
      }
      cache := map[];
      overrides := overrides[key := filePath];
      return true;
    }

    method RemoveOverride(key: int) returns (ok: bool)
      requires Valid()
      modifies this`cache, this`overrides
      ensures Valid() && ok == (key in old(overrides))
      ensures overrides == old(overrides) - {key}
      ensures !ok ==> cache == old(cache)
    {
      if key !in overrides {
        assert overrides - {key} == overrides;
        return false;
      }
      cache := map[];
      overrides := overrides - {key};
      return true;
    }

    /** Puts a provider in front and keeps the cache.  That is right whenever the ranges of keys are
        disjoint and no key outside the new range asks for one inside it, and by
        `RegisteringIsSafeExactly` it can be relied on in no other case. */
    method RegisterProvider(provider: Provider, lo: int, hi: int)
      requires Valid() && lo < hi && Ranked([provider], rank)
      modifies this`providers
      ensures providers == [provider] + old(providers) && Ranked(providers, rank)
      ensures Valid() <==> Coherent(cache, old(Current()).(providers := [provider] + old(providers)), rank)
      ensures Disjoint(provider, lo, hi, old(providers)) && Closed(Outside(lo, hi), old(providers)) ==> Valid()
    {
      ghost var setup := Current();
      BothRanked(provider, providers, rank);
      providers := [provider] + providers;
      if Disjoint(provider, lo, hi, setup.providers) && Closed(Outside(lo, hi), setup.providers) {
        NewcomerKeepsCache(cache, provider, lo, hi, setup, rank);
      }
    }

    method DisableCache()
      requires Valid()
      modifies this`cache, this`cacheDisabled
      ensures Valid() && cacheDisabled && cache == map[]
    {
      cache := map[];
      cacheDisabled := true;
    }

    /** The process changes its current directory; the cache does not notice and need not. */
    method ChangeDirectory(current: Option<Path>)
      requires Valid() && Closed(AllButCurrent(), providers)
      modifies this`sys
      ensures Valid() && sys == old(sys).(current := current)
    {
      ghost var setup := Current();
      sys := sys.(current := current);
      forall key | key in cache
        ensures Resolve(key, Current(), rank) == Some(cache[key])
      {
        CurrentDirectoryIsApart(key, setup, current, rank);
      }
    }
  }

  // ----- the providers there are from the start -----

  /** `PathProvider`. */
  function BaseProvider(sys: System, key: int): Plan {
    if key == DIR_EXE then Plan([FILE_EXE], DirNameOf(sys))
    else if key == DIR_MODULE then Plan([FILE_MODULE], DirNameOf(sys))
    else if key == DIR_ASSETS then Plan([DIR_MODULE], (answers: seq<Option<Path>>) => First(answers))
    else if key == DIR_TEST_DATA then Plan([DIR_SOURCE_ROOT], TestDataOf(sys))
    else if key == DIR_TEMP || key == DIR_HOME then Plan([], (answers: seq<Option<Path>>) => sys.known(key))
    else REFUSE
  }

  /** The keys whose paths `PathProviderWin` gets from the system. */
  predicate KnownToWin(key: int) {
    key == FILE_EXE || key == FILE_MODULE || key == DIR_USER_DESKTOP || 101 <= key <= 113 || key == DIR_WINDOWS_FONTS
  }

  /** `PathProviderWin`.  The source root is derived from the executable's directory even when that
      cannot be found. */
  function WinProvider(sys: System, key: int): Plan {
    if key == DIR_SOURCE_ROOT then Plan([DIR_EXE], SourceRootOf(sys))
    else if key == DIR_USER_QUICK_LAUNCH then Plan([DIR_APP_DATA], Appending(sys, "Microsoft\\Internet Explorer\\Quick Launch"))
    else if key == DIR_TASKBAR_PINS then Plan([DIR_USER_QUICK_LAUNCH], Appending(sys, "User Pinned\\TaskBar"))
    else if key == DIR_IMPLICIT_APP_SHORTCUTS then
      Plan([DIR_USER_QUICK_LAUNCH], Appending(sys, "User Pinned\\ImplicitAppShortcuts"))
    else if KnownToWin(key) then Plan([], (answers: seq<Option<Path>>) => sys.known(key))
    else REFUSE
  }

  function First(answers: seq<Option<Path>>): Option<Path> {
    if answers == [] then None else answers[0]
  }

  function DirNameOf(sys: System): seq<Option<Path>> -> Option<Path> {
    (answers: seq<Option<Path>>) =>
      match First(answers) case None => None case Some(path) => Some(sys.dirName(path))
  }

  function SourceRootOf(sys: System): seq<Option<Path>> -> Option<Path> {
    (answers: seq<Option<Path>>) =>
      var dir := match First(answers) case None => "" case Some(path) => path;
      Some(sys.dirName(sys.dirName(dir)))
  }

  function Appending(sys: System, tail: Path): seq<Option<Path>> -> Option<Path> {
    (answers: seq<Option<Path>>) =>
      match First(answers) case None => None case Some(path) => Some(sys.append(path, tail))
  }

  function TestDataOf(sys: System): seq<Option<Path>> -> Option<Path> {
    (answers: seq<Option<Path>>) =>
      match First(answers)
      case None => None
      case Some(path) =>
        var data := sys.append(path, "base\\test\\data");
        if sys.pathExists(data) then Some(data) else None
  }

  function BaseRank(key: int): nat {
    if key == DIR_TEST_DATA then 3
    else if key == DIR_SOURCE_ROOT || key == DIR_ASSETS || key == DIR_TASKBAR_PINS
            || key == DIR_IMPLICIT_APP_SHORTCUTS then 2
    else if key == DIR_EXE || key == DIR_MODULE || key == DIR_USER_QUICK_LAUNCH then 1
    else 0
  }

  lemma BuiltInIsRanked(plan: Plan, sys: System, key: int)
    requires plan == WinProvider(sys, key) || plan == BaseProvider(sys, key)
    ensures RankedPlan(plan, BaseRank, BaseRank(key))
    ensures forall k :: 0 <= k < |plan.asks| ==> plan.asks[k] != DIR_CURRENT
  {
  }

  ghost predicate AreBuiltIn(providers: seq<Provider>, sys: System) {
    && |providers| == 2
    && forall key :: providers[0](key) == WinProvider(sys, key) && providers[1](key) == BaseProvider(sys, key)
  }

  /** The providers there are from the start ask in no circle. */
  lemma BuiltInsAreRanked(providers: seq<Provider>, sys: System)
    requires AreBuiltIn(providers, sys)
    ensures Ranked(providers, BaseRank)
  {
    forall i, key | 0 <= i < |providers|
      ensures RankedPlan(providers[i](key), BaseRank, BaseRank(key))
    {
      BuiltInIsRanked(providers[i](key), sys, key);
    }
  }

  ghost function BuiltIn(key: int, providers: seq<Provider>, sys: System): Option<Path>
    requires AreBuiltIn(providers, sys)
  {
    BuiltInsAreRanked(providers, sys);
    Resolve(key, Setup(map[], providers, sys), BaseRank)
  }

  ghost function Accept(sys: System, path: Option<Path>): Option<Path> {
    if path == None then None else Accepted(sys, path.value)
  }

  lemma AsksNothing(bound: nat, setup: Setup, rank: int -> nat)
    requires Ranked(setup.providers, rank)
    ensures ResolveAll([], bound, setup, rank) == []
  {
  }

  lemma AsksOne(key: int, bound: nat, setup: Setup, rank: int -> nat)
    requires Ranked(setup.providers, rank) && rank(key) < bound
    ensures ResolveAll([key], bound, setup, rank) == [Resolve(key, setup, rank)]
  {
    assert [key][..0] == [];
    AsksNothing(bound, setup, rank);
  }

  lemma OneOfTwo(key: int, setup: Setup, rank: int -> nat)
    requires Ranked(setup.providers, rank) && |setup.providers| == 2
    requires key != DIR_CURRENT && key !in setup.overrides
    ensures var win, base := AnswerOf(0, key, setup, rank), AnswerOf(1, key, setup, rank);
            Resolve(key, setup, rank) == Accept(setup.sys, if win.Some? then win else base)
  {
    if AnswerOf(0, key, setup, rank).Some? {
      FirstAnswerDecides(key, 0, setup, rank);
    } else if AnswerOf(1, key, setup, rank).Some? {
      FirstAnswerDecides(key, 1, setup, rank);
    } else {
      NoAnswerIsNone(key, setup, rank);
    }
  }

  /** The first provider's answer, or else the second one's. */
  lemma BuiltInIs(key: int, providers: seq<Provider>, sys: System)
    requires AreBuiltIn(providers, sys) && key != DIR_CURRENT
    ensures Ranked(providers, BaseRank)
    ensures var setup := Setup(map[], providers, sys);
            var win, base := AnswerOf(0, key, setup, BaseRank), AnswerOf(1, key, setup, BaseRank);
            BuiltIn(key, providers, sys) == Accept(sys, if win.Some? then win else base)
  {
    BuiltInsAreRanked(providers, sys);
    OneOfTwo(key, Setup(map[], providers, sys), BaseRank);
  }

  /** An answer derived from one other key, or asked of the system. */
  lemma AnswerIs(i: nat, key: int, providers: seq<Provider>, sys: System)
    requires AreBuiltIn(providers, sys) && i < 2 && |providers[i](key).asks| <= 1
    ensures Ranked(providers, BaseRank)
    ensures var plan := providers[i](key);
            AnswerOf(i, key, Setup(map[], providers, sys), BaseRank)
            == plan.finish(if plan.asks == [] then [] else [BuiltIn(plan.asks[0], providers, sys)])
  {
    var setup, plan := Setup(map[], providers, sys), providers[i](key);
    BuiltInsAreRanked(providers, sys);
    assert RankedPlan(plan, BaseRank, BaseRank(key));
    if plan.asks == [] {
      AsksNothing(BaseRank(key), setup, BaseRank);
    } else {
      assert plan.asks == [plan.asks[0]];
      AsksOne(plan.asks[0], BaseRank(key), setup, BaseRank);
    }
  }

  /** A key that the first provider derives from another one. */
  lemma WinDerives(key: int, asked: int, providers: seq<Provider>, sys: System)
    requires AreBuiltIn(providers, sys) && key != DIR_CURRENT && WinProvider(sys, key).asks == [asked]
    requires BaseProvider(sys, key) == REFUSE
    ensures BuiltIn(key, providers, sys) == Accept(sys, WinProvider(sys, key).finish([BuiltIn(asked, providers, sys)]))
  {
    assert providers[0](key) == WinProvider(sys, key) && providers[1](key) == BaseProvider(sys, key);
    BuiltInIs(key, providers, sys);
    AnswerIs(0, key, providers, sys);
    AnswerIs(1, key, providers, sys);
  }

  /** A key that only the second provider knows, and derives from another one. */
  lemma BaseDerives(key: int, asked: int, providers: seq<Provider>, sys: System)
    requires AreBuiltIn(providers, sys) && key != DIR_CURRENT
    requires WinProvider(sys, key) == REFUSE && BaseProvider(sys, key).asks == [asked]
    ensures BuiltIn(key, providers, sys) == Accept(sys, BaseProvider(sys, key).finish([BuiltIn(asked, providers, sys)]))
  {
    assert providers[0](key) == WinProvider(sys, key) && providers[1](key) == BaseProvider(sys, key);
    BuiltInIs(key, providers, sys);
    AnswerIs(0, key, providers, sys);
    AnswerIs(1, key, providers, sys);
  }

  /** The directories of the executable, of the module and of its assets, and the test data below the
      source root. */
  lemma BaseKeys(providers: seq<Provider>, sys: System)
    requires AreBuiltIn(providers, sys)
    ensures var of := (key: int) => BuiltIn(key, providers, sys);
            && of(DIR_EXE) == (if of(FILE_EXE) == None then None else Accepted(sys, sys.dirName(of(FILE_EXE).value)))
            && of(DIR_MODULE) == (if of(FILE_MODULE) == None then None else Accepted(sys, sys.dirName(of(FILE_MODULE).value)))
            && of(DIR_ASSETS) == Accept(sys, of(DIR_MODULE))
            && of(DIR_TEST_DATA) ==
                 if of(DIR_SOURCE_ROOT) == None then None
                 else
                   var data := sys.append(of(DIR_SOURCE_ROOT).value, "base\\test\\data");
                   if sys.pathExists(data) then Accepted(sys, data) else None
  {
    BaseDerives(DIR_EXE, FILE_EXE, providers, sys);
    BaseDerives(DIR_MODULE, FILE_MODULE, providers, sys);
    BaseDerives(DIR_ASSETS, DIR_MODULE, providers, sys);
    BaseDerives(DIR_TEST_DATA, DIR_SOURCE_ROOT, providers, sys);
  }

  /** The source root, two levels above the executable's directory, and the places of shortcuts. */
  lemma WinKeys(providers: seq<Provider>, sys: System)
    requires AreBuiltIn(providers, sys)
    ensures var of := (key: int) => BuiltIn(key, providers, sys);
            && of(DIR_SOURCE_ROOT)
               == Accepted(sys, sys.dirName(sys.dirName(if of(DIR_EXE) == None then "" else of(DIR_EXE).value)))
            && of(DIR_USER_QUICK_LAUNCH) ==
                 (if of(DIR_APP_DATA) == None then None
                  else Accepted(sys, sys.append(of(DIR_APP_DATA).value, "Microsoft\\Internet Explorer\\Quick Launch")))
            && of(DIR_TASKBAR_PINS) ==
                 (if of(DIR_USER_QUICK_LAUNCH) == None then None
                  else Accepted(sys, sys.append(of(DIR_USER_QUICK_LAUNCH).value, "User Pinned\\TaskBar")))
            && of(DIR_IMPLICIT_APP_SHORTCUTS) ==
                 (if of(DIR_USER_QUICK_LAUNCH) == None then None
                  else Accepted(sys, sys.append(of(DIR_USER_QUICK_LAUNCH).value, "User Pinned\\ImplicitAppShortcuts")))
  {
    WinDerives(DIR_SOURCE_ROOT, DIR_EXE, providers, sys);
    WinDerives(DIR_USER_QUICK_LAUNCH, DIR_APP_DATA, providers, sys);
    WinDerives(DIR_TASKBAR_PINS, DIR_USER_QUICK_LAUNCH, providers, sys);
    WinDerives(DIR_IMPLICIT_APP_SHORTCUTS, DIR_USER_QUICK_LAUNCH, providers, sys);
  }

  predicate OfTheSystem(key: int) {
    key == FILE_EXE || key == FILE_MODULE || key == DIR_TEMP || key == DIR_HOME || key == DIR_USER_DESKTOP
    || 101 <= key <= 113 || key == DIR_WINDOWS_FONTS
  }

  /** Keys that are asked of the system, and keys that nobody knows. */
  lemma SystemKeys(key: int, providers: seq<Provider>, sys: System)
    requires AreBuiltIn(providers, sys)
    ensures OfTheSystem(key) ==> BuiltIn(key, providers, sys) == Accept(sys, sys.known(key))
    ensures key <= 0 || 11 < key < 101 || key > 117 ==> BuiltIn(key, providers, sys) == None
  {
    if OfTheSystem(key) || key <= 0 || 11 < key < 101 || key > 117 {
      assert providers[0](key) == WinProvider(sys, key) && providers[1](key) == BaseProvider(sys, key);
      BuiltInIs(key, providers, sys);
      AnswerIs(0, key, providers, sys);
      AnswerIs(1, key, providers, sys);
    }
  }

  /** And none of them asks for the current directory. */
  lemma BuiltInsIgnoreCurrent(providers: seq<Provider>, sys: System)
    requires AreBuiltIn(providers, sys)
    ensures Closed(AllButCurrent(), providers)
  {
    forall i, key, k | 0 <= i < |providers| && 0 <= k < |providers[i](key).asks|
      ensures providers[i](key).asks[k] != DIR_CURRENT
    {
      BuiltInIsRanked(providers[i](key), sys, key);
    }
  }

  function WithOrWithout(answers: seq<Option<Path>>): Option<Path> {
    Some(if First(answers) == None then "without" else "with")
  }

  function Asker(key: int): Plan {
    if key == 300 then Plan([200], WithOrWithout) else REFUSE
  }

  function Newcomer(key: int): Plan {
    if key == 200 then Plan([], answers => Some("new")) else REFUSE
  }

  function AskerRank(key: int): nat {
    if key == 300 then 1 else 0
  }

  lemma WithoutNewcomer(sys: System)
    requires forall path :: !sys.referencesParent(path)
    ensures Ranked([Asker], AskerRank)
    ensures Resolve(300, Setup(map[], [Asker], sys), AskerRank) == Some("without")
  {
    var setup := Setup(map[], [Asker], sys);
    assert ResolveAll([200], 1, setup, AskerRank) == [None] by {
      assert Walk(200, 1, setup, AskerRank) == None;
      assert Resolve(200, setup, AskerRank) == None;
    }
  }

  lemma NewIsGiven(sys: System)
    requires !sys.referencesParent("new")
    ensures Ranked([Newcomer, Asker], AskerRank)
    ensures Resolve(200, Setup(map[], [Newcomer, Asker], sys), AskerRank) == Some("new")
  {
  }

  lemma WithNewcomer(sys: System)
    requires forall path :: !sys.referencesParent(path)
    ensures Ranked([Newcomer, Asker], AskerRank)
    ensures Resolve(300, Setup(map[], [Newcomer, Asker], sys), AskerRank) == Some("with")
  {
    NewIsGiven(sys);
    var setup := Setup(map[], [Newcomer, Asker], sys);
    assert ResolveAll([200], 1, setup, AskerRank) == [Some("new")];
    assert Walk(300, 1, setup, AskerRank) == Some("with");
    assert Walk(300, 0, setup, AskerRank) == Walk(300, 1, setup, AskerRank);
  }

  /** A provider that asks for a key nobody answered yet may answer differently once somebody does:
      what was cached before `RegisterProvider` is then out of date. */
  lemma RegisteringCanOutdate(sys: System)
    requires forall path :: !sys.referencesParent(path)
    ensures Ranked([Asker], AskerRank) && Ranked([Newcomer, Asker], AskerRank)
    ensures Resolve(300, Setup(map[], [Asker], sys), AskerRank) == Some("without")
    ensures Resolve(300, Setup(map[], [Newcomer, Asker], sys), AskerRank) == Some("with")
  {
    WithoutNewcomer(sys);
    WithNewcomer(sys);
  }
}
