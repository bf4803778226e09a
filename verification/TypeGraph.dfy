/**
 The configuration-path search of utils/print-introspected-doxygen.cc seen as a graph problem.
 A type graph gives every type its ordered list of labelled edges. A walk is the sequence of edge
 choices made from a start type, so two walks differ even when they carry equal labels.

 `SimpleFrom` says declaratively which walks a search has to report. `Explore` is the depth-first
 enumeration of them; `ExploreExact` and `ExploreOrdered` prove that it is the strictly increasing
 list of precisely those walks, and `OrderedListUnique` that no other list is.
 */
module TypeGraph {
  import opened Bags

  type TypeId = nat

  type Walk = seq<nat>

  datatype Edge = Edge(name: string, target: TypeId)

  type Graph = seq<seq<Edge>>

  /** Every edge leads to a registered type. */
  ghost predicate Closed(g: Graph) {
    forall t, k :: 0 <= t < |g| && 0 <= k < |g[t]| ==> g[t][k].target < |g|
  }

  /** The types a search may still enter. */
  ghost function Unvisited(g: Graph, stack: seq<TypeId>): set<TypeId> {
    set x | 0 <= x < |g| && x !in stack
  }

  /** Entering a type leaves fewer types to enter, however many cycles there are. */
  lemma EnterType(g: Graph, t: TypeId, stack: seq<TypeId>)
    requires t < |g| && t !in stack
    ensures Unvisited(g, stack + [t]) < Unvisited(g, stack)
  {
    assert t in Unvisited(g, stack) && t !in Unvisited(g, stack + [t]);
  }

  // ---------- walks ----------

  ghost predicate IsWalk(g: Graph, t: TypeId, w: Walk)
    requires Closed(g) && t < |g|
    decreases |w|
  {
    w == [] || (w[0] < |g[t]| && IsWalk(g, g[t][w[0]].target, w[1..]))
  }

  /** The types met along a walk, the start included. */
  ghost function Visits(g: Graph, t: TypeId, w: Walk): (s: seq<TypeId>)
    requires Closed(g) && t < |g| && IsWalk(g, t, w)
    ensures |s| == |w| + 1 && s[0] == t
    decreases |w|
  {
    if w == [] then [t] else [t] + Visits(g, g[t][w[0]].target, w[1..])
  }

  ghost function End(g: Graph, t: TypeId, w: Walk): (e: TypeId)
    requires Closed(g) && t < |g| && IsWalk(g, t, w)
    ensures e == Visits(g, t, w)[|w|]
    ensures e < |g|
    decreases |w|
  {
    if w == [] then t else End(g, g[t][w[0]].target, w[1..])
  }

  ghost function Labels(g: Graph, t: TypeId, w: Walk): (s: seq<string>)
    requires Closed(g) && t < |g| && IsWalk(g, t, w)
    ensures |s| == |w|
    decreases |w|
  {
    if w == [] then [] else [g[t][w[0]].name] + Labels(g, g[t][w[0]].target, w[1..])
  }

  /** The walks from `t` that meet no type twice and stay off the types in `stack`. */
  ghost predicate SimpleFrom(g: Graph, t: TypeId, stack: seq<TypeId>, w: Walk)
    requires Closed(g) && t < |g|
  {
    && IsWalk(g, t, w)
    && NoDuplicates(Visits(g, t, w))
    && forall x :: x in Visits(g, t, w) ==> x !in stack
  }

  lemma {:induction false} VisitsRegistered(g: Graph, t: TypeId, w: Walk)
    requires Closed(g) && t < |g| && IsWalk(g, t, w)
    ensures t in Visits(g, t, w)
    ensures forall x :: x in Visits(g, t, w) ==> x < |g|
    decreases |w|
  {
    if w != [] {
      VisitsRegistered(g, g[t][w[0]].target, w[1..]);
    }
  }

  /** One step of a simple walk: leave `t` for good, then walk simply without it. */
  lemma SimpleStep(g: Graph, t: TypeId, stack: seq<TypeId>, w: Walk)
    requires Closed(g) && t < |g| && w != []
    ensures SimpleFrom(g, t, stack, w) <==>
            t !in stack && w[0] < |g[t]| && SimpleFrom(g, g[t][w[0]].target, stack + [t], w[1..])
  {
    if w[0] < |g[t]| && IsWalk(g, t, w) {
      var next := g[t][w[0]].target;
      var rest := Visits(g, next, w[1..]);
      var all := Visits(g, t, w);
      assert all == [t] + rest;
      if SimpleFrom(g, t, stack, w) {
        assert all[0] == t;
        forall x | x in rest
          ensures x !in stack + [t]
        {
          var i :| 0 <= i < |rest| && rest[i] == x;
          assert all[i + 1] == x && all[0] != all[i + 1];
        }
        forall i, j | 0 <= i < j < |rest|
          ensures rest[i] != rest[j]
        {
          assert all[i + 1] == rest[i] && all[j + 1] == rest[j];
        }
      }
      if t !in stack && SimpleFrom(g, next, stack + [t], w[1..]) {
        assert t in stack + [t];
        forall i, j | 0 <= i < j < |all|
          ensures all[i] != all[j]
        {
          assert all[j] == rest[j - 1];
          if i > 0 {
            assert all[i] == rest[i - 1];
          }
        }
        forall x | x in all
          ensures x !in stack
        {
          if x != t {
            assert x in rest;
            assert x !in stack + [t];
          }
        }
      }
    }
  }

  // ---------- the depth-first enumeration ----------

  /** `k` put before each walk. */
  ghost function Prepend(k: nat, ws: seq<Walk>): (r: seq<Walk>)
    ensures |r| == |ws|
    ensures forall i :: 0 <= i < |ws| ==> r[i] == [k] + ws[i]
  {
    seq(|ws|, i requires 0 <= i < |ws| => [k] + ws[i])
  }

  ghost function Explore(g: Graph, t: TypeId, stack: seq<TypeId>): (ws: seq<Walk>)
    requires Closed(g) && t < |g|
    ensures forall w :: w in ws ==> IsWalk(g, t, w)
    decreases Unvisited(g, stack), 1, 0
  {
    if t in stack then [] else [[]] + ExploreEdges(g, t, stack, |g[t]|)
  }

  /** The walks through the first `n` edges of `t`. */
  ghost function ExploreEdges(g: Graph, t: TypeId, stack: seq<TypeId>, n: nat): (ws: seq<Walk>)
    requires Closed(g) && t < |g| && n <= |g[t]| && t !in stack
    ensures forall w :: w in ws ==> IsWalk(g, t, w)
    decreases Unvisited(g, stack), 0, n
  {
    if n == 0 then []
    else
      EnterType(g, t, stack);
      var deeper := Explore(g, g[t][n - 1].target, stack + [t]);
      assert forall i :: 0 <= i < |deeper| ==> ([n - 1] + deeper[i])[1..] == deeper[i];
      ExploreEdges(g, t, stack, n - 1) + Prepend(n - 1, deeper)
  }

  lemma PrependMembers(k: nat, ws: seq<Walk>, w: Walk)
    ensures w in Prepend(k, ws) <==> w != [] && w[0] == k && w[1..] in ws
  {
    if w in Prepend(k, ws) {
      var i :| 0 <= i < |ws| && Prepend(k, ws)[i] == w;
      assert w[1..] == ws[i];
    }
    if w != [] && w[0] == k && w[1..] in ws {
      var i :| 0 <= i < |ws| && ws[i] == w[1..];
      assert w == [k] + w[1..];
      assert Prepend(k, ws)[i] == w;
    }
  }

  /** Sound and complete: the search reports a walk iff it is simple and off the stack. */
  lemma {:induction false} ExploreExact(g: Graph, t: TypeId, stack: seq<TypeId>, w: Walk)
    requires Closed(g) && t < |g|
    ensures w in Explore(g, t, stack) <==> SimpleFrom(g, t, stack, w)
    decreases Unvisited(g, stack), 1, 0
  {
    if t in stack {
      if IsWalk(g, t, w) {
        VisitsRegistered(g, t, w);
      }
    } else if w == [] {
      ExploreEdgesExact(g, t, stack, |g[t]|, w);
    } else {
      ExploreEdgesExact(g, t, stack, |g[t]|, w);
      SimpleStep(g, t, stack, w);
    }
  }

  lemma {:induction false} ExploreEdgesExact(g: Graph, t: TypeId, stack: seq<TypeId>, n: nat, w: Walk)
    requires Closed(g) && t < |g| && n <= |g[t]| && t !in stack
    ensures w in ExploreEdges(g, t, stack, n) <==>
            w != [] && w[0] < n && SimpleFrom(g, g[t][w[0]].target, stack + [t], w[1..])
    decreases Unvisited(g, stack), 0, n
  {
    if n > 0 {
      EnterType(g, t, stack);
      var deeper := Explore(g, g[t][n - 1].target, stack + [t]);
      ExploreEdgesExact(g, t, stack, n - 1, w);
      PrependMembers(n - 1, deeper, w);
      if w != [] {
        ExploreExact(g, g[t][n - 1].target, stack + [t], w[1..]);
      }
    }
  }

  // ---------- depth-first order ----------

  /** Depth-first order on walks: a walk precedes its extensions, and smaller edges come first. */
  ghost predicate Before(a: Walk, b: Walk)
    decreases |a|
  {
    b != [] && (a == [] || a[0] < b[0] || (a[0] == b[0] && Before(a[1..], b[1..])))
  }

  ghost predicate Ordered(ws: seq<Walk>) {
    forall i, j :: 0 <= i < j < |ws| ==> Before(ws[i], ws[j])
  }

  lemma {:induction false} ExploreOrdered(g: Graph, t: TypeId, stack: seq<TypeId>)
    requires Closed(g) && t < |g|
    ensures Ordered(Explore(g, t, stack))
    decreases Unvisited(g, stack), 1, 0
  {
    if t !in stack {
      ExploreEdgesOrdered(g, t, stack, |g[t]|);
      var ws := Explore(g, t, stack);
      forall i, j | 0 <= i < j < |ws|
        ensures Before(ws[i], ws[j])
      {
        assert ws[j] in ExploreEdges(g, t, stack, |g[t]|);
        ExploreEdgesExact(g, t, stack, |g[t]|, ws[j]);
      }
    }
  }

  lemma {:induction false} ExploreEdgesOrdered(g: Graph, t: TypeId, stack: seq<TypeId>, n: nat)
    requires Closed(g) && t < |g| && n <= |g[t]| && t !in stack
    ensures Ordered(ExploreEdges(g, t, stack, n))
    decreases Unvisited(g, stack), 0, n
  {
    if n > 0 {
      EnterType(g, t, stack);
      var front := ExploreEdges(g, t, stack, n - 1);
      var deeper := Explore(g, g[t][n - 1].target, stack + [t]);
      ExploreEdgesOrdered(g, t, stack, n - 1);
      ExploreOrdered(g, g[t][n - 1].target, stack + [t]);
      var ws := ExploreEdges(g, t, stack, n);
      forall i, j | 0 <= i < j < |ws|
        ensures Before(ws[i], ws[j])
      {
        if i < |front| <= j {
          assert ws[i] in front;
          ExploreEdgesExact(g, t, stack, n - 1, ws[i]);
        } else if |front| <= i {
          assert ws[i] == [n - 1] + deeper[i - |front|];
          assert ws[j] == [n - 1] + deeper[j - |front|];
          assert ws[i][1..] == deeper[i - |front|] && ws[j][1..] == deeper[j - |front|];
        }
      }
    }
  }

  lemma {:induction false} BeforeIrreflexive(a: Walk)
    ensures !Before(a, a)
    decreases |a|
  {
    if a != [] {
      BeforeIrreflexive(a[1..]);
    }
  }

  lemma {:induction false} BeforeTransitive(a: Walk, b: Walk, c: Walk)
    requires Before(a, b) && Before(b, c)
    ensures Before(a, c)
    decreases |a|
  {
    if a != [] && a[0] == b[0] == c[0] {
      BeforeTransitive(a[1..], b[1..], c[1..]);
    }
  }

  /** An ordered list is determined by its members, so nothing is listed twice either. */
  lemma {:induction false} OrderedListUnique(us: seq<Walk>, vs: seq<Walk>)
    requires Ordered(us) && Ordered(vs)
    requires forall w :: w in us <==> w in vs
    ensures us == vs
    decreases |us|
  {
    assert us != [] ==> us[0] in vs;
    assert vs != [] ==> vs[0] in us;
    if us != [] {
      assert us[0] in vs;
      HeadsAgree(us, vs);
      forall w
        ensures w in us[1..] <==> w in vs[1..]
      {
        TailMembers(us, w);
        TailMembers(vs, w);
      }
      OrderedListUnique(us[1..], vs[1..]);
      assert us == [us[0]] + us[1..] && vs == [vs[0]] + vs[1..];
    }
  }

  lemma HeadsAgree(us: seq<Walk>, vs: seq<Walk>)
    requires Ordered(us) && Ordered(vs) && us != [] && vs != []
    requires us[0] in vs && vs[0] in us
    ensures us[0] == vs[0]
  {
    var i :| 0 <= i < |vs| && vs[i] == us[0];
    var j :| 0 <= j < |us| && us[j] == vs[0];
    if i > 0 && j > 0 {
      BeforeTransitive(us[0], us[j], vs[i]);
      BeforeIrreflexive(us[0]);
    }
  }

  lemma TailMembers(ws: seq<Walk>, w: Walk)
    requires Ordered(ws) && ws != []
    ensures w in ws[1..] <==> w in ws && w != ws[0]
  {
    if w in ws[1..] {
      var i :| 0 <= i < |ws[1..]| && ws[1..][i] == w;
      assert Before(ws[0], ws[i + 1]);
      BeforeIrreflexive(w);
    }
  }

  /** The list a search must produce, characterised without the search. */
  lemma ExploreIsTheList(g: Graph, t: TypeId, stack: seq<TypeId>, ws: seq<Walk>)
    requires Closed(g) && t < |g|
    requires Ordered(ws)
    requires forall w :: w in ws <==> SimpleFrom(g, t, stack, w)
    ensures ws == Explore(g, t, stack)
  {
    forall w
      ensures w in ws <==> w in Explore(g, t, stack)
    {
      ExploreExact(g, t, stack, w);
    }
    ExploreOrdered(g, t, stack);
    OrderedListUnique(ws, Explore(g, t, stack));
  }

  // ---------- lengths ----------

  /** Distinct types below a bound are at most that many. */
  lemma {:induction false} DistinctBelow(s: seq<TypeId>, n: nat)
    requires NoDuplicates(s)
    requires forall i :: 0 <= i < |s| ==> s[i] < n
    ensures |s| <= n
    decreases n
  {
    assert s != [] ==> s[0] < n;
    if n == 0 {
    } else if n - 1 in s {
      var k :| 0 <= k < |s| && s[k] == n - 1;
      var rest := s[..k] + s[k + 1..];
      forall i | 0 <= i < |rest|
        ensures rest[i] < n - 1
      {
        assert rest[i] == s[if i < k then i else i + 1];
      }
      assert NoDuplicates(rest) by {
        forall i, j | 0 <= i < j < |rest|
          ensures rest[i] != rest[j]
        {
          assert rest[i] == s[if i < k then i else i + 1];
          assert rest[j] == s[if j < k then j else j + 1];
        }
      }
      DistinctBelow(rest, n - 1);
    } else {
      forall i | 0 <= i < |s|
        ensures s[i] < n - 1
      {
        assert s[i] in s;
      }
      DistinctBelow(s, n - 1);
    }
  }

  /** Cycles cannot be followed for long: a reported walk has fewer steps than there are types. */
  lemma ReportedWalkShort(g: Graph, t: TypeId, stack: seq<TypeId>, w: Walk)
    requires Closed(g) && t < |g|
    requires w in Explore(g, t, stack)
    ensures IsWalk(g, t, w) && |Labels(g, t, w)| <= |g| - 1
  {
    ExploreExact(g, t, stack, w);
    VisitsRegistered(g, t, w);
    var visits := Visits(g, t, w);
    assert forall i :: 0 <= i < |visits| ==> visits[i] in visits;
    DistinctBelow(visits, |g|);
  }
}
