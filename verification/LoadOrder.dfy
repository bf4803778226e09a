/**
 The load order of the ns-3 libraries, `sort_to_dependencies` in bindings/python/ns__init__.py.

 `dependency_order` calls itself once per step and has no exit of its own when nothing can be loaded
 any more: Python ends such a run with a RecursionError. `limit` is that bound on nested calls.

 A dependency chain from a module is a sequence of modules each of which needs the next one. The
 results are stated with chains: which step a module lands in, and when the run completes at all.
 */
module LoadOrder {
  import opened Bags

  type Library = string

  datatype Result<T> = Ok(value: T) | RecursionError

  /** The dependency dictionary: its keys in insertion order, and the libraries each one needs. */
  datatype Dependencies = Dependencies(keys: seq<Library>, needs: map<Library, seq<Library>>) {
    ghost predicate Valid() {
      && NoDuplicates(keys)
      && forall m :: m in keys <==> m in needs
    }
  }

  // ---------- chains ----------

  /** Each element is a known library that needs its successor; the last one may be missing. */
  ghost predicate Chain(d: Dependencies, c: seq<Library>) {
    c != [] && forall i :: 0 <= i < |c| - 1 ==> c[i] in d.needs && c[i + 1] in d.needs[c[i]]
  }

  ghost predicate ChainFrom(d: Dependencies, m: Library, c: seq<Library>) {
    Chain(d, c) && c[0] == m
  }

  ghost predicate ReachesMissing(d: Dependencies, m: Library) {
    exists c :: ChainFrom(d, m, c) && c[|c| - 1] !in d.needs
  }

  ghost predicate HasRepeat<T>(c: seq<T>) {
    exists i, j :: 0 <= i < j < |c| && c[i] == c[j]
  }

  ghost predicate ReachesCycle(d: Dependencies, m: Library) {
    exists c :: ChainFrom(d, m, c) && HasRepeat(c)
  }

  /** The longest chain from `m` has at most `n` modules, all of them known. */
  ghost predicate ChainsWithin(d: Dependencies, m: Library, n: nat) {
    forall c :: ChainFrom(d, m, c) ==> |c| <= n && c[|c| - 1] in d.needs
  }

  // ---------- rounds ----------

  /** The libraries loaded after `n` rounds. */
  ghost function Loaded(d: Dependencies, n: nat): set<Library>
  {
    if n == 0 then {}
    else set m | m in d.needs && forall x :: x in d.needs[m] ==> x in Loaded(d, n - 1)
  }

  lemma {:induction false} LoadedGrows(d: Dependencies, n: nat)
    ensures Loaded(d, n) <= Loaded(d, n + 1)
  {
    if n > 0 {
      LoadedGrows(d, n - 1);
    }
  }

  lemma {:induction false} LoadedMonotone(d: Dependencies, n: nat, n': nat)
    requires n <= n'
    ensures Loaded(d, n) <= Loaded(d, n')
    decreases n' - n
  {
    if n < n' {
      LoadedMonotone(d, n, n' - 1);
      LoadedGrows(d, n' - 1);
    }
  }

  lemma ChainTail(d: Dependencies, m: Library, c: seq<Library>)
    requires ChainFrom(d, m, c) && |c| > 1
    ensures m in d.needs && c[1] in d.needs[m] && ChainFrom(d, c[1], c[1..])
  {
    forall i | 0 <= i < |c[1..]| - 1
      ensures c[1..][i] in d.needs && c[1..][i + 1] in d.needs[c[1..][i]]
    {
      assert c[1..][i] == c[i + 1] && c[1..][i + 1] == c[i + 2];
    }
  }

  lemma ChainPush(d: Dependencies, m: Library, x: Library, c: seq<Library>)
    requires m in d.needs && x in d.needs[m] && ChainFrom(d, x, c)
    ensures ChainFrom(d, m, [m] + c)
  {
  }

  /** A library is loaded within `n` rounds iff its longest dependency chain has at most `n` libraries, none missing. */
  lemma {:induction false} LoadedIffChainsWithin(d: Dependencies, n: nat, m: Library)
    ensures m in Loaded(d, n) <==> ChainsWithin(d, m, n)
    decreases n
  {
    assert ChainFrom(d, m, [m]);
    if n > 0 {
      if m in Loaded(d, n) {
        forall c | ChainFrom(d, m, c)
          ensures |c| <= n && c[|c| - 1] in d.needs
        {
          if |c| > 1 {
            ChainTail(d, m, c);
            LoadedIffChainsWithin(d, n - 1, c[1]);
            assert c[1..][|c[1..]| - 1] == c[|c| - 1];
          }
        }
      }
      if ChainsWithin(d, m, n) {
        assert m in d.needs;
        forall x | x in d.needs[m]
          ensures x in Loaded(d, n - 1)
        {
          forall c | ChainFrom(d, x, c)
            ensures |c| <= n - 1 && c[|c| - 1] in d.needs
          {
            ChainPush(d, m, x, c);
            assert ([m] + c)[|[m] + c| - 1] == c[|c| - 1];
          }
          LoadedIffChainsWithin(d, n - 1, x);
        }
      }
    }
  }

  // ---------- cycles ----------

  /** A chain that meets a library twice can be stretched at will. */
  lemma {:induction false} CycleStretches(d: Dependencies, m: Library, c: seq<Library>, i: nat, j: nat, n: nat)
    requires ChainFrom(d, m, c) && i < j < |c| && c[i] == c[j]
    ensures exists long :: ChainFrom(d, m, long) && |long| > n
    decreases n - |c|
  {
    if |c| <= n {
      var more := c[..j] + c[i..];
      forall k | 0 <= k < |more| - 1
        ensures more[k] in d.needs && more[k + 1] in d.needs[more[k]]
      {
        var at := if k < j then k else k - j + i;
        assert more[k] == c[at] && more[k + 1] == c[at + 1];
      }
      assert more[i] == c[i] && more[j] == c[i];
      CycleStretches(d, m, more, i, j, n);
    }
  }

  lemma {:induction false} DistinctWithin<T>(s: seq<T>, all: set<T>)
    requires NoDuplicates(s)
    requires forall x :: x in s ==> x in all
    ensures |s| <= |all|
  {
    if s != [] {
      var front, last := s[..|s| - 1], s[|s| - 1];
      assert last !in front;
      DistinctWithin(front, all - {last});
    }
  }

  /** Only a cycle or a missing library makes a chain outgrow the dictionary. */
  lemma ChainsWithinDictionary(d: Dependencies, m: Library)
    requires !ReachesCycle(d, m) && !ReachesMissing(d, m)
    ensures ChainsWithin(d, m, |d.needs|)
  {
    forall c | ChainFrom(d, m, c)
      ensures |c| <= |d.needs| && c[|c| - 1] in d.needs
    {
      assert !HasRepeat(c);
      forall x | x in c
        ensures x in d.needs.Keys
      {
        var i :| 0 <= i < |c| && c[i] == x;
      }
      DistinctWithin(c, d.needs.Keys);
    }
  }

  /** A library is loaded sooner or later iff it reaches no cycle and no missing library. */
  lemma LoadedEventually(d: Dependencies, m: Library, n: nat)
    ensures m in Loaded(d, |d.needs|) <==> !ReachesCycle(d, m) && !ReachesMissing(d, m)
    ensures m in Loaded(d, n) ==> m in Loaded(d, |d.needs|)
  {
    LoadedIffChainsWithin(d, |d.needs|, m);
    LoadedIffChainsWithin(d, n, m);
    if !ReachesCycle(d, m) && !ReachesMissing(d, m) {
      ChainsWithinDictionary(d, m);
    }
    if ReachesCycle(d, m) {
      var c :| ChainFrom(d, m, c) && HasRepeat(c);
      var i, j :| 0 <= i < j < |c| && c[i] == c[j];
      CycleStretches(d, m, c, i, j, n);
      CycleStretches(d, m, c, i, j, |d.needs|);
    }
  }

  // ---------- lists of libraries ----------

  ghost function Keep(s: seq<Library>, which: set<Library>): seq<Library> {
    if s == [] then []
    else
      var front, last := s[..|s| - 1], s[|s| - 1];
      if last in which then Keep(front, which) + [last] else Keep(front, which)
  }

  lemma {:induction false} KeepMembers(s: seq<Library>, which: set<Library>)
    ensures forall x :: x in Keep(s, which) <==> x in s && x in which
  {
    if s != [] {
      var front, last := s[..|s| - 1], s[|s| - 1];
      KeepMembers(front, which);
      assert s == front + [last];
    }
  }

  lemma {:induction false} KeepNoDuplicates(s: seq<Library>, which: set<Library>)
    requires NoDuplicates(s)
    ensures NoDuplicates(Keep(s, which))
  {
    if s != [] {
      KeepNoDuplicates(s[..|s| - 1], which);
      KeepMembers(s[..|s| - 1], which);
      assert s[|s| - 1] !in s[..|s| - 1];
    }
  }

  lemma {:induction false} KeepOrdered(s: seq<Library>, which: set<Library>) returns (at: seq<nat>)
    ensures Selects(at, s, Keep(s, which))
  {
    if s == [] {
      at := [];
    } else {
      var front, last := s[..|s| - 1], s[|s| - 1];
      at := KeepOrdered(front, which);
      assert s == front + [last];
      if last in which {
        SelectsNext(at, front, last, Keep(front, which));
        at := at + [|front|];
      } else {
        SelectsLonger(at, front, last, Keep(front, which));
      }
    }
  }

  lemma {:induction false} KeepTwice(s: seq<Library>, a: set<Library>, b: set<Library>)
    ensures Keep(Keep(s, a), b) == Keep(s, a * b)
  {
    if s != [] {
      var front, last := s[..|s| - 1], s[|s| - 1];
      KeepTwice(front, a, b);
      if last in a {
        KeepSnoc(Keep(front, a), last, b);
      }
    }
  }

  lemma KeepSnoc(s: seq<Library>, x: Library, which: set<Library>)
    ensures Keep(s + [x], which) == if x in which then Keep(s, which) + [x] else Keep(s, which)
  {
    assert (s + [x])[..|s + [x]| - 1] == s;
  }

  lemma {:induction false} KeepAll(s: seq<Library>, which: set<Library>)
    requires forall x :: x in s ==> x in which
    ensures Keep(s, which) == s
  {
    if s != [] {
      var front, last := s[..|s| - 1], s[|s| - 1];
      assert last in s;
      KeepAll(front, which);
      assert s == front + [last];
    }
  }

  /** `list.remove`: the list without its first occurrence of `x`. */
  function RemoveFirst(s: seq<Library>, x: Library): seq<Library>
    requires x in s
  {
    if s[0] == x then s[1..] else [s[0]] + RemoveFirst(s[1..], x)
  }

  lemma {:induction false} RemoveFirstKeepsOthers(s: seq<Library>, x: Library, all: set<Library>)
    requires NoDuplicates(s) && x in s
    requires forall y :: y in s ==> y in all
    ensures RemoveFirst(s, x) == Keep(s, all - {x})
  {
    var head, tail := s[0], s[1..];
    assert head in s;
    KeepCons(head, tail, all - {x});
    assert s == [head] + tail;
    if head == x {
      KeepAll(tail, all - {x});
    } else {
      RemoveFirstKeepsOthers(tail, x, all);
    }
  }

  lemma {:induction false} KeepCons(x: Library, s: seq<Library>, which: set<Library>)
    ensures Keep([x] + s, which) == (if x in which then [x] else []) + Keep(s, which)
  {
    if s == [] {
      assert [x] + s == [] + [x];
      KeepSnoc([], x, which);
    } else {
      var front, last := s[..|s| - 1], s[|s| - 1];
      KeepCons(x, front, which);
      assert [x] + s == ([x] + front) + [last];
      KeepSnoc([x] + front, last, which);
    }
  }

  // ---------- the steps ----------

  /** The libraries of step `k`, in dictionary order. */
  ghost function Step(d: Dependencies, k: nat): seq<Library> {
    Keep(d.keys, Loaded(d, k + 1) - Loaded(d, k))
  }

  /** A step lists its libraries in the order of the dictionary. */
  lemma StepInKeyOrder(d: Dependencies, k: nat) returns (at: seq<nat>)
    ensures Selects(at, d.keys, Step(d, k))
  {
    at := KeepOrdered(d.keys, Loaded(d, k + 1) - Loaded(d, k));
  }

  ghost function StepMap(d: Dependencies, n: nat): map<nat, seq<Library>> {
    map k | 0 <= k < n :: Step(d, k)
  }

  ghost function Flatten(d: Dependencies, n: nat): seq<Library> {
    if n == 0 then [] else Flatten(d, n - 1) + Step(d, n - 1)
  }

  ghost predicate AllLoaded(d: Dependencies, n: nat) {
    forall m :: m in d.keys ==> m in Loaded(d, n)
  }

  /** The number of rounds of a run that completes. */
  ghost function Rounds(d: Dependencies, n: nat): (r: nat)
    requires AllLoaded(d, n)
    ensures r <= n && AllLoaded(d, r) && forall k :: 0 <= k < r ==> !AllLoaded(d, k)
  {
    if n > 0 && AllLoaded(d, n - 1) then Rounds(d, n - 1)
    else
      NotAllLoadedBefore(d, n);
      n
  }

  lemma NotAllLoadedBefore(d: Dependencies, n: nat)
    requires n > 0 ==> !AllLoaded(d, n - 1)
    ensures forall k :: 0 <= k < n ==> !AllLoaded(d, k)
  {
    forall k | 0 <= k < n
      ensures !AllLoaded(d, k)
    {
      LoadedMonotone(d, k, n - 1);
    }
  }

  /** Step `k` holds exactly the libraries whose longest dependency chain has `k` links. */
  lemma StepIsLongestChain(d: Dependencies, k: nat, m: Library)
    requires d.Valid()
    ensures m in Step(d, k) <==> ChainsWithin(d, m, k + 1) && exists c :: ChainFrom(d, m, c) && |c| == k + 1
  {
    KeepMembers(d.keys, Loaded(d, k + 1) - Loaded(d, k));
    LoadedIffChainsWithin(d, k, m);
    LoadedIffChainsWithin(d, k + 1, m);
    if m in Step(d, k) {
      var c :| ChainFrom(d, m, c) && !(|c| <= k && c[|c| - 1] in d.needs);
    }
    if ChainsWithin(d, m, k + 1) {
      assert ChainFrom(d, m, [m]);
    }
  }

  lemma StepMembers(d: Dependencies, k: nat)
    requires d.Valid()
    ensures forall m :: m in Step(d, k) <==> m in Loaded(d, k + 1) && m !in Loaded(d, k)
  {
    KeepMembers(d.keys, Loaded(d, k + 1) - Loaded(d, k));
  }

  lemma {:induction false} FlattenMembers(d: Dependencies, n: nat, m: Library)
    requires d.Valid()
    ensures m in Flatten(d, n) <==> m in Loaded(d, n)
  {
    if n > 0 {
      FlattenMembers(d, n - 1, m);
      StepMembers(d, n - 1);
      LoadedGrows(d, n - 1);
    }
  }

  lemma {:induction false} FlattenNoDuplicates(d: Dependencies, n: nat)
    requires d.Valid()
    ensures NoDuplicates(Flatten(d, n))
  {
    if n > 0 {
      FlattenNoDuplicates(d, n - 1);
      KeepNoDuplicates(d.keys, Loaded(d, n) - Loaded(d, n - 1));
      var before, step := Flatten(d, n - 1), Step(d, n - 1);
      StepMembers(d, n - 1);
      forall x | x in before
        ensures x !in step
      {
        FlattenMembers(d, n - 1, x);
      }
      forall i, j | 0 <= i < |before| && 0 <= j < |step|
        ensures before[i] != step[j]
      {
        assert before[i] in before && step[j] in step;
      }
    }
  }

  /** Every dependency stands before the libraries that need it. */
  ghost predicate DependenciesFirst(d: Dependencies, order: seq<Library>) {
    forall i, x :: 0 <= i < |order| && order[i] in d.needs && x in d.needs[order[i]] ==> x in order[..i]
  }

  lemma {:induction false} FlattenDependenciesFirst(d: Dependencies, n: nat)
    requires d.Valid()
    ensures DependenciesFirst(d, Flatten(d, n))
  {
    if n > 0 {
      var before, order := Flatten(d, n - 1), Flatten(d, n);
      FlattenDependenciesFirst(d, n - 1);
      StepMembers(d, n - 1);
      forall i, x | 0 <= i < |order| && order[i] in d.needs && x in d.needs[order[i]]
        ensures x in order[..i]
      {
        if i < |before| {
          assert order[..i] == before[..i];
        } else {
          assert order[i] in Step(d, n - 1);
          FlattenMembers(d, n - 1, x);
          assert order[..|before|] == before && order[..|before|] <= order[..i];
        }
      }
    }
  }

  /** A completed run lists every library once, dependencies first. */
  lemma OrderIsTopological(d: Dependencies, n: nat)
    requires d.Valid() && AllLoaded(d, n)
    ensures multiset(Flatten(d, n)) == multiset(d.keys)
    ensures DependenciesFirst(d, Flatten(d, n))
  {
    FlattenDependenciesFirst(d, n);
    FlattenNoDuplicates(d, n);
    forall x
      ensures x in Flatten(d, n) <==> x in d.keys
    {
      FlattenMembers(d, n, x);
      if x in Loaded(d, n) {
        LoadedIffChainsWithin(d, n, x);
        assert ChainFrom(d, x, [x]);
      }
    }
    SameMembersSameBag(Flatten(d, n), d.keys);
  }

  /** A round that loads nothing is followed by nothing but such rounds. */
  lemma {:induction false} StuckForever(d: Dependencies, k: nat, n: nat)
    requires Loaded(d, k + 1) == Loaded(d, k) && k <= n
    ensures Loaded(d, n) == Loaded(d, k)
    decreases n - k
  {
    if k < n {
      StuckForever(d, k, n - 1);
      assert Loaded(d, n) == Loaded(d, k + 1);
    }
  }

  /** A step that loads nothing while libraries are pending dooms the run. */
  lemma StuckNeverCompletes(d: Dependencies, k: nat, n: nat)
    requires d.Valid() && Step(d, k) == [] && !AllLoaded(d, k)
    ensures !AllLoaded(d, n)
  {
    LoadedGrows(d, k);
    StepMembers(d, k);
    assert forall m :: m !in Step(d, k);
    if k <= n {
      StuckForever(d, k, n);
    } else {
      LoadedMonotone(d, n, k);
    }
  }

  /** Every step of a completed run loads something. */
  lemma StepsNonempty(d: Dependencies, n: nat, k: nat)
    requires d.Valid() && AllLoaded(d, n) && k < Rounds(d, n)
    ensures Step(d, k) != []
  {
    if Step(d, k) == [] {
      StuckNeverCompletes(d, k, n);
    }
  }

  /** Which runs complete: the recursion bound has to cover the rounds, and no library may be stuck. */
  lemma CompletesIff(d: Dependencies)
    requires d.Valid()
    ensures (exists n :: AllLoaded(d, n))
       <==> forall m :: m in d.keys ==> !ReachesCycle(d, m) && !ReachesMissing(d, m)
    ensures (exists n :: AllLoaded(d, n)) <==> AllLoaded(d, |d.keys|)
  {
    SizeOfKeys(d);
    if n :| AllLoaded(d, n) {
      forall m | m in d.keys
        ensures m in Loaded(d, |d.keys|) && !ReachesCycle(d, m) && !ReachesMissing(d, m)
      {
        LoadedEventually(d, m, n);
      }
    }
    if forall m :: m in d.keys ==> !ReachesCycle(d, m) && !ReachesMissing(d, m) {
      forall m | m in d.keys
        ensures m in Loaded(d, |d.keys|)
      {
        LoadedEventually(d, m, 0);
      }
      assert AllLoaded(d, |d.keys|);
    }
  }

  lemma SizeOfKeys(d: Dependencies)
    requires d.Valid()
    ensures |d.keys| == |d.needs|
  {
    SizeOfDistinct(d.keys);
    assert (set x | x in d.keys) == d.needs.Keys;
  }

  lemma {:induction false} SizeOfDistinct<T>(s: seq<T>)
    requires NoDuplicates(s)
    ensures |set x | x in s| == |s|
  {
    if s != [] {
      var front, last := s[..|s| - 1], s[|s| - 1];
      SizeOfDistinct(front);
      assert (set x | x in s) == (set x | x in front) + {last};
    }
  }

  ghost function Pending(d: Dependencies, n: nat): seq<Library> {
    Keep(d.keys, d.needs.Keys - Loaded(d, n))
  }

  lemma PendingMembers(d: Dependencies, n: nat)
    requires d.Valid()
    ensures forall m :: m in Pending(d, n) <==> m in d.needs && m !in Loaded(d, n)
    ensures NoDuplicates(Pending(d, n))
    ensures Pending(d, n) == [] <==> AllLoaded(d, n)
  {
    KeepMembers(d.keys, d.needs.Keys - Loaded(d, n));
    KeepNoDuplicates(d.keys, d.needs.Keys - Loaded(d, n));
    if Pending(d, n) != [] {
      assert Pending(d, n)[0] in Pending(d, n);
    }
  }

  ghost function CanLoad(d: Dependencies, current: seq<Library>): set<Library> {
    set m | m in d.needs && forall x :: x in d.needs[m] ==> x in current
  }

  /** What can be loaded now is the next step. */
  lemma LoadableIsStep(d: Dependencies, current: seq<Library>, n: nat)
    requires d.Valid()
    requires forall x :: x in current <==> x in Loaded(d, n)
    ensures Keep(Pending(d, n), CanLoad(d, current)) == Step(d, n)
  {
    var loadable := CanLoad(d, current);
    assert loadable == Loaded(d, n + 1);
    KeepTwice(d.keys, d.needs.Keys - Loaded(d, n), loadable);
    assert (d.needs.Keys - Loaded(d, n)) * loadable == Loaded(d, n + 1) - Loaded(d, n);
  }

  /** What is left pending once the step has moved over. */
  lemma PendingAfterStep(d: Dependencies, n: nat)
    requires d.Valid()
    ensures Keep(Pending(d, n), d.needs.Keys - set m | m in Step(d, n)) == Pending(d, n + 1)
  {
    var gone := set m | m in Step(d, n);
    LoadedGrows(d, n);
    StepMembers(d, n);
    assert gone == Loaded(d, n + 1) - Loaded(d, n);
    KeepTwice(d.keys, d.needs.Keys - Loaded(d, n), d.needs.Keys - gone);
    assert (d.needs.Keys - Loaded(d, n)) * (d.needs.Keys - gone) == d.needs.Keys - Loaded(d, n + 1);
  }

  lemma StepIsPending(d: Dependencies, n: nat)
    requires d.Valid()
    ensures NoDuplicates(Step(d, n)) && forall m :: m in Step(d, n) ==> m in Pending(d, n)
  {
    StepMembers(d, n);
    KeepNoDuplicates(d.keys, Loaded(d, n + 1) - Loaded(d, n));
    PendingMembers(d, n);
  }

  /** Once the step has moved over, the next round is reached. */
  lemma StepCompletesRound(d: Dependencies, n: nat, current: seq<Library>)
    requires d.Valid()
    requires forall x :: x in current <==> x in Loaded(d, n)
    ensures Keep(Pending(d, n), d.needs.Keys - set m | m in Step(d, n)) == Pending(d, n + 1)
    ensures forall x :: x in current + Step(d, n) <==> x in Loaded(d, n + 1)
    ensures StepMap(d, n)[n := Step(d, n)] == StepMap(d, n + 1)
    ensures n !in StepMap(d, n)
    ensures NoDuplicates(Step(d, n)) && forall m :: m in Step(d, n) ==> m in Pending(d, n)
  {
    PendingAfterStep(d, n);
    StepIsPending(d, n);
    LoadedGrows(d, n);
    StepMembers(d, n);
  }

  // ---------- the code ----------

  class Loader {
    const d: Dependencies
    var pending: seq<Library>
    var current: seq<Library>
    var steps: map<nat, seq<Library>>

    /** The three collections after `n` rounds. */
    ghost predicate AfterRounds(n: nat)
      reads this
    {
      && d.Valid()
      && pending == Pending(d, n)
      && (forall x :: x in current <==> x in Loaded(d, n))
      && steps == StepMap(d, n)
    }

    constructor (d: Dependencies)
      requires d.Valid()
      ensures AfterRounds(0) && this.d == d
    {
      this.d := d;
      pending, current, steps := d.keys, [], map[];
      KeepAll(d.keys, d.needs.Keys - Loaded(d, 0));
    }

    method ModulesThatCanBeLoaded() returns (modules: seq<Library>)
      requires forall m :: m in pending ==> m in d.needs
      ensures modules == Keep(pending, CanLoad(d, current))
    {
      modules := [];
      ghost var loadable := CanLoad(d, current);
      for i := 0 to |pending|
        invariant modules == Keep(pending[..i], loadable)
      {
        var canBeLoaded := true;
        var needed := d.needs[pending[i]];
        for j := 0 to |needed|
          invariant canBeLoaded
          invariant forall x :: x in needed[..j] ==> x in current
        {
          if needed[j] !in current {
            canBeLoaded := false;
            break;
          }
        }
        assert pending[..i + 1] == pending[..i] + [pending[i]];
        KeepSnoc(pending[..i], pending[i], loadable);
        if !canBeLoaded {
          continue;
        }
        modules := modules + [pending[i]];
      }
      assert pending[..|pending|] == pending;
    }

    /** The inner loop of a step: each module goes to the step's list and leaves `pending` for `current`. */
    method LoadModules(modules: seq<Library>, stepNumber: nat)
      requires NoDuplicates(modules) && forall m :: m in modules ==> m in pending
      requires NoDuplicates(pending) && forall m :: m in pending ==> m in d.needs
      requires stepNumber !in steps
      modifies this
      ensures pending == Keep(old(pending), d.needs.Keys - set m | m in modules)
      ensures current == old(current) + modules
      ensures steps == old(steps)[stepNumber := modules]
    {
      if stepNumber !in steps {
        steps := steps[stepNumber := []];
      }
      ghost var gone := {};
      KeepAll(pending, d.needs.Keys - {});
      for i := 0 to |modules|
        invariant forall m :: m in gone <==> m in modules[..i]
        invariant pending == Keep(old(pending), d.needs.Keys - gone)
        invariant current == old(current) + modules[..i]
        invariant steps == old(steps)[stepNumber := modules[..i]]
      {
        var module_ := modules[i];
        NextModule(modules, i);
        steps := steps[stepNumber := steps[stepNumber] + [module_]];
        RemoveFromKept(old(pending), module_, d.needs.Keys, gone);
        pending := RemoveFirst(pending, module_);
        current := current + [module_];
        gone := gone + {module_};
      }
      assert modules[..|modules|] == modules && gone == set m | m in modules;
    }

    /** The body of a step: what can be loaded is loaded. */
    method LoadStep(stepNumber: nat)
      requires AfterRounds(stepNumber)
      modifies this
      ensures AfterRounds(stepNumber + 1)
    {
      PendingMembers(d, stepNumber);
      var modules := ModulesThatCanBeLoaded();
      LoadableIsStep(d, current, stepNumber);
      StepCompletesRound(d, stepNumber, current);
      LoadModules(modules, stepNumber);
    }

    /** One call of `dependency_order`, with `limit` nested calls left. */
    method DependencyOrder(stepNumber: nat, limit: nat) returns (r: Result<map<nat, seq<Library>>>)
      requires AfterRounds(stepNumber)
      requires forall k :: 0 <= k < stepNumber ==> !AllLoaded(d, k)
      modifies this
      ensures r.Ok? <==> limit > 0 && AllLoaded(d, stepNumber + limit - 1)
      ensures r.Ok? ==> r.value == StepMap(d, Rounds(d, stepNumber + limit - 1))
      decreases limit
    {
      if limit == 0 {
        return RecursionError;
      }
      PendingMembers(d, stepNumber);
      if |pending| == 0 {
        LoadedMonotone(d, stepNumber, stepNumber + limit - 1);
        return Ok(steps);
      }
      LoadStep(stepNumber);
      r := DependencyOrder(stepNumber + 1, limit - 1);
    }

    /** `sort_to_dependencies`: the steps one after the other. */
    method SortToDependencies(limit: nat) returns (r: Result<seq<Library>>)
      requires AfterRounds(0)
      modifies this
      ensures r.Ok? <==> limit > 0 && AllLoaded(d, limit - 1)
      ensures r.Ok? ==> multiset(r.value) == multiset(d.keys) && DependenciesFirst(d, r.value)
      ensures r.Ok? ==> r.value == Flatten(d, Rounds(d, limit - 1))
    {
      var ordered := DependencyOrder(0, limit);
      if ordered.RecursionError? {
        return RecursionError;
      }
      var sorted := [];
      var k := 0;
      ghost var n := Rounds(d, limit - 1);
      while k in ordered.value
        invariant k <= n && sorted == Flatten(d, k)
        decreases n - k
      {
        sorted := sorted + ordered.value[k];
        k := k + 1;
      }
      OrderIsTopological(d, n);
      return Ok(sorted);
    }
  }

  lemma RemoveFromKept(s: seq<Library>, x: Library, all: set<Library>, gone: set<Library>)
    requires NoDuplicates(s) && x in s && x in all && x !in gone
    ensures x in Keep(s, all - gone)
    ensures RemoveFirst(Keep(s, all - gone), x) == Keep(s, all - (gone + {x}))
  {
    KeepMembers(s, all - gone);
    KeepNoDuplicates(s, all - gone);
    RemoveFirstKeepsOthers(Keep(s, all - gone), x, all - gone);
    KeepTwice(s, all - gone, all - gone - {x});
    assert (all - gone) * (all - gone - {x}) == all - (gone + {x});
  }

  lemma NextModule(s: seq<Library>, i: nat)
    requires NoDuplicates(s) && i < |s|
    ensures s[i] !in s[..i] && s[..i + 1] == s[..i] + [s[i]]
    ensures forall m :: m in s[..i + 1] <==> m in s[..i] || m == s[i]
  {
  }
}
