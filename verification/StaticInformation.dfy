/**
 `StaticInformation` of utils/print-introspected-doxygen.cc: the object that records, for every
 type, the configuration paths leading to it.

 `DoGather` pushes and pops two stacks around its recursive calls and appends to the output. Its
 contract ties what it appends to `TypeGraph.Explore`, and says that it gives both stacks back as it
 found them. `GetListsSimpleWalks` puts the pieces together: what `Get` returns after `Gather`.
 */
module ConfigPaths {
  import opened Bags
  import opened TypeGraph

  datatype Checker =
    | PointerChecker(pointee: TypeId)
    | ContainerChecker(item: TypeId)
    | OtherChecker

  datatype Attribute = Attribute(name: string, checker: Checker)

  datatype TypeInfo = TypeInfo(name: string, attributes: seq<Attribute>)

  /** The registered types, in registration order; a TypeId is a position in that order. */
  datatype TypeDb = TypeDb(types: seq<TypeInfo>, childOf: set<(TypeId, TypeId)>, objectType: TypeId) {

    /** Attributes mention registered types only. */
    ghost predicate Closed() {
      forall t, i :: 0 <= t < |types| && 0 <= i < |types[t].attributes| ==>
        match types[t].attributes[i].checker
        case PointerChecker(pointee) => pointee < |types|
        case ContainerChecker(item) => item < |types|
        case OtherChecker => true
    }

    function IsChildOf(child: TypeId, tid: TypeId): bool {
      (child, tid) in childOf
    }
  }

  ghost predicate AggregatesRegistered(db: TypeDb, aggregates: seq<(TypeId, TypeId)>) {
    forall i :: 0 <= i < |aggregates| ==> aggregates[i].0 < |db.types| && aggregates[i].1 < |db.types|
  }

  ghost predicate Names(db: TypeDb, t: nat, name: string) {
    t < |db.types| && db.types[t].name == name
  }

  ghost predicate Registered(db: TypeDb, name: string) {
    exists t :: Names(db, t, name)
  }

  // ---------- the labelled edges of the type database ----------

  /** A pointer to the bare Object type is not followed. */
  ghost function AttributeEdges(db: TypeDb, attributes: seq<Attribute>): seq<Edge> {
    if attributes == [] then []
    else
      var last := attributes[|attributes| - 1];
      AttributeEdges(db, attributes[..|attributes| - 1]) +
      match last.checker
      case PointerChecker(pointee) => if pointee == db.objectType then [] else [Edge(last.name, pointee)]
      case ContainerChecker(item) => [Edge(last.name + "/[i]", item)]
      case OtherChecker => []
  }

  /** Downcasts to the children of `t` among the first `n` registered types. */
  ghost function ChildEdges(db: TypeDb, t: TypeId, n: nat): seq<Edge>
    requires n <= |db.types|
  {
    if n == 0 then []
    else
      ChildEdges(db, t, n - 1) +
      if db.IsChildOf(n - 1, t) then [Edge("$" + db.types[n - 1].name, n - 1)] else []
  }

  /** The first `k` aggregations; each joins two types in both directions. */
  ghost function AggregateEdges(db: TypeDb, aggregates: seq<(TypeId, TypeId)>, t: TypeId, k: nat): seq<Edge>
    requires AggregatesRegistered(db, aggregates) && k <= |aggregates|
  {
    if k == 0 then []
    else
      var item := aggregates[k - 1];
      var other := if item.1 == t then item.0 else item.1;
      AggregateEdges(db, aggregates, t, k - 1) +
      if item.0 == t || item.1 == t then [Edge("$" + db.types[other].name, other)] else []
  }

  ghost function Edges(db: TypeDb, aggregates: seq<(TypeId, TypeId)>, t: TypeId): seq<Edge>
    requires AggregatesRegistered(db, aggregates) && t < |db.types|
  {
    AttributeEdges(db, db.types[t].attributes)
    + ChildEdges(db, t, |db.types|)
    + AggregateEdges(db, aggregates, t, |aggregates|)
  }

  ghost function GraphOf(db: TypeDb, aggregates: seq<(TypeId, TypeId)>): (g: Graph)
    requires AggregatesRegistered(db, aggregates)
    ensures |g| == |db.types|
    ensures forall t :: 0 <= t < |g| ==> g[t] == Edges(db, aggregates, t)
  {
    seq(|db.types|, t requires 0 <= t < |db.types| => Edges(db, aggregates, t))
  }

  ghost predicate EdgesRegistered(db: TypeDb, es: seq<Edge>) {
    forall k :: 0 <= k < |es| ==> es[k].target < |db.types|
  }

  lemma {:induction false} AttributeEdgesRegistered(db: TypeDb, attributes: seq<Attribute>)
    requires forall i :: 0 <= i < |attributes| ==>
               match attributes[i].checker
               case PointerChecker(pointee) => pointee < |db.types|
               case ContainerChecker(item) => item < |db.types|
               case OtherChecker => true
    ensures EdgesRegistered(db, AttributeEdges(db, attributes))
  {
    if attributes != [] {
      AttributeEdgesRegistered(db, attributes[..|attributes| - 1]);
      assert attributes[|attributes| - 1] in attributes;
    }
  }

  lemma {:induction false} ChildEdgesRegistered(db: TypeDb, t: TypeId, n: nat)
    requires n <= |db.types|
    ensures EdgesRegistered(db, ChildEdges(db, t, n))
  {
    if n > 0 {
      ChildEdgesRegistered(db, t, n - 1);
    }
  }

  lemma {:induction false} AggregateEdgesRegistered(db: TypeDb, aggregates: seq<(TypeId, TypeId)>, t: TypeId, k: nat)
    requires AggregatesRegistered(db, aggregates) && k <= |aggregates|
    ensures EdgesRegistered(db, AggregateEdges(db, aggregates, t, k))
  {
    if k > 0 {
      AggregateEdgesRegistered(db, aggregates, t, k - 1);
    }
  }

  lemma GraphClosed(db: TypeDb, aggregates: seq<(TypeId, TypeId)>)
    requires db.Closed() && AggregatesRegistered(db, aggregates)
    ensures TypeGraph.Closed(GraphOf(db, aggregates))
  {
    var g := GraphOf(db, aggregates);
    forall t | 0 <= t < |g|
      ensures EdgesRegistered(db, g[t])
    {
      AttributeEdgesRegistered(db, db.types[t].attributes);
      ChildEdgesRegistered(db, t, |db.types|);
      AggregateEdgesRegistered(db, aggregates, t, |aggregates|);
    }
  }

  // ---------- rendered paths ----------

  ghost function Render(path: seq<string>): string {
    if path == [] then "" else Render(path[..|path| - 1]) + "/" + path[|path| - 1]
  }

  /** A string cut at its slashes. */
  ghost function Pieces(s: string): (r: seq<string>)
    ensures r != [] && forall k :: 0 <= k < |r| ==> '/' !in r[k]
  {
    if s == "" then [""]
    else
      WithFirst(s[0], Pieces(s[1..]))
  }

  ghost function Rejoined(pieces: seq<string>): string {
    if |pieces| == 0 then "" else if |pieces| == 1 then pieces[0]
    else pieces[0] + "/" + Rejoined(pieces[1..])
  }

  /** The pieces tell the string. */
  lemma {:induction false} PiecesRejoined(s: string)
    ensures Rejoined(Pieces(s)) == s
  {
    if s != "" {
      PiecesRejoined(s[1..]);
      var rest := Pieces(s[1..]);
      assert s == [s[0]] + s[1..];
      if s[0] == '/' {
        assert ([""] + rest)[1..] == rest;
      } else {
        assert ([[s[0]] + rest[0]] + rest[1..])[1..] == rest[1..];
      }
    }
  }

  lemma {:induction false} PiecesConcat(a: string, b: string)
    ensures Pieces(a + "/" + b) == Pieces(a) + Pieces(b)
  {
    if a == "" {
      assert (a + "/" + b)[1..] == b;
    } else {
      PiecesConcat(a[1..], b);
      assert (a + "/" + b)[1..] == a[1..] + "/" + b;
      FirstOf(a[0], Pieces(a[1..]), Pieces(b));
    }
  }

  /** The pieces of a string from those of its tail. */
  ghost function WithFirst(c: char, pieces: seq<string>): seq<string>
    requires pieces != []
  {
    if c == '/' then [""] + pieces else [[c] + pieces[0]] + pieces[1..]
  }

  lemma FirstOf(c: char, a: seq<string>, b: seq<string>)
    requires a != []
    ensures WithFirst(c, a + b) == WithFirst(c, a) + b
  {
    assert (a + b)[1..] == a[1..] + b;
  }

  /** A rendered path is the empty piece followed by the pieces of its components. */
  lemma {:induction false} RenderPieces(path: seq<string>)
    ensures Pieces(Render(path)) == [""] + FlatMap(Pieces, path)
  {
    if path != [] {
      RenderPieces(path[..|path| - 1]);
      PiecesConcat(Render(path[..|path| - 1]), path[|path| - 1]);
    }
  }

  ghost function Record(g: Graph, t: TypeId, path: seq<string>, w: Walk): (TypeId, string)
    requires TypeGraph.Closed(g) && t < |g| && IsWalk(g, t, w)
  {
    (End(g, t, w), Render(path + Labels(g, t, w)))
  }

  /** One entry per walk, its labels put after `path`. */
  ghost function Records(g: Graph, t: TypeId, path: seq<string>, ws: seq<Walk>): (r: seq<(TypeId, string)>)
    requires TypeGraph.Closed(g) && t < |g|
    requires forall w :: w in ws ==> IsWalk(g, t, w)
    ensures |r| == |ws|
    ensures forall i :: 0 <= i < |ws| ==> r[i] == Record(g, t, path, ws[i])
  {
    seq(|ws|, i requires 0 <= i < |ws| => Record(g, t, path, ws[i]))
  }

  lemma RecordPrepend(g: Graph, t: TypeId, path: seq<string>, k: nat, w: Walk)
    requires TypeGraph.Closed(g) && t < |g| && k < |g[t]|
    requires IsWalk(g, g[t][k].target, w)
    ensures IsWalk(g, t, [k] + w)
    ensures Record(g, t, path, [k] + w) == Record(g, g[t][k].target, path + [g[t][k].name], w)
  {
    var u := [k] + w;
    assert u[1..] == w;
    assert path + Labels(g, t, u) == path + [g[t][k].name] + Labels(g, g[t][k].target, w);
  }

  /** Pushing an edge name and searching from the target records the walks through that edge. */
  lemma RecordsPrepend(g: Graph, t: TypeId, path: seq<string>, k: nat, ws: seq<Walk>)
    requires TypeGraph.Closed(g) && t < |g| && k < |g[t]|
    requires forall w :: w in ws ==> IsWalk(g, g[t][k].target, w)
    ensures forall w :: w in Prepend(k, ws) ==> IsWalk(g, t, w)
    ensures Records(g, t, path, Prepend(k, ws)) == Records(g, g[t][k].target, path + [g[t][k].name], ws)
  {
    var next, deeper := g[t][k].target, path + [g[t][k].name];
    forall w | w in Prepend(k, ws)
      ensures IsWalk(g, t, w)
    {
      var i :| 0 <= i < |ws| && w == Prepend(k, ws)[i];
      RecordPrepend(g, t, path, k, ws[i]);
    }
    var us, vs := Records(g, t, path, Prepend(k, ws)), Records(g, next, deeper, ws);
    forall i | 0 <= i < |ws|
      ensures us[i] == vs[i]
    {
      RecordPrepend(g, t, path, k, ws[i]);
    }
  }

  lemma RecordsConcat(g: Graph, t: TypeId, path: seq<string>, us: seq<Walk>, vs: seq<Walk>)
    requires TypeGraph.Closed(g) && t < |g|
    requires forall w :: w in us || w in vs ==> IsWalk(g, t, w)
    ensures Records(g, t, path, us + vs) == Records(g, t, path, us) + Records(g, t, path, vs)
  {
    var all, front, back := Records(g, t, path, us + vs), Records(g, t, path, us), Records(g, t, path, vs);
    forall i | 0 <= i < |us| + |vs|
      ensures all[i] == (front + back)[i]
    {
    }
  }

  lemma RecordsHere(g: Graph, t: TypeId, path: seq<string>)
    requires TypeGraph.Closed(g) && t < |g|
    ensures Records(g, t, path, [[]]) == [(t, Render(path))]
  {
    assert path + Labels(g, t, []) == path;
  }

  /** What the search of `t` records: the type itself, then what lies behind each edge in turn. */
  ghost function Found(g: Graph, t: TypeId, path: seq<string>, stack: seq<TypeId>): seq<(TypeId, string)>
    requires TypeGraph.Closed(g) && t < |g|
    decreases Unvisited(g, stack), 1, 0
  {
    if t in stack then [] else [(t, Render(path))] + FoundBehind(g, t, path, stack, |g[t]|)
  }

  /** What lies behind the first `n` edges of `t`. */
  ghost function FoundBehind(g: Graph, t: TypeId, path: seq<string>, stack: seq<TypeId>, n: nat): seq<(TypeId, string)>
    requires TypeGraph.Closed(g) && t < |g| && n <= |g[t]| && t !in stack
    decreases Unvisited(g, stack), 0, n
  {
    if n == 0 then []
    else
      EnterType(g, t, stack);
      FoundBehind(g, t, path, stack, n - 1)
      + Found(g, g[t][n - 1].target, path + [g[t][n - 1].name], stack + [t])
  }

  lemma Associative<T>(a: seq<T>, b: seq<T>, c: seq<T>)
    ensures (a + b) + c == a + (b + c)
  {
  }

  lemma FoundHere(g: Graph, t: TypeId, path: seq<string>, stack: seq<TypeId>, start: seq<(TypeId, string)>)
    requires TypeGraph.Closed(g) && t < |g| && t !in stack
    ensures start + [(t, Render(path))] + FoundBehind(g, t, path, stack, |g[t]|) == start + Found(g, t, path, stack)
    ensures FoundBehind(g, t, path, stack, 0) == []
  {
    Associative(start, [(t, Render(path))], FoundBehind(g, t, path, stack, |g[t]|));
  }

  lemma FoundBehindNext(g: Graph, t: TypeId, path: seq<string>, stack: seq<TypeId>, n: nat, before: seq<(TypeId, string)>)
    requires TypeGraph.Closed(g) && t < |g| && n < |g[t]| && t !in stack
    ensures before + FoundBehind(g, t, path, stack, n + 1)
         == before + FoundBehind(g, t, path, stack, n) + Found(g, g[t][n].target, path + [g[t][n].name], stack + [t])
  {
    EnterType(g, t, stack);
    Associative(before, FoundBehind(g, t, path, stack, n), Found(g, g[t][n].target, path + [g[t][n].name], stack + [t]));
  }

  lemma Popped<T>(s: seq<T>, x: T)
    ensures (s + [x])[..|s + [x]| - 1] == s
  {
  }

  /** The recorded entries are the rendered walks of the search. */
  lemma {:induction false} FoundRecords(g: Graph, t: TypeId, path: seq<string>, stack: seq<TypeId>)
    requires TypeGraph.Closed(g) && t < |g|
    ensures Found(g, t, path, stack) == Records(g, t, path, Explore(g, t, stack))
    decreases Unvisited(g, stack), 1, 0
  {
    if t !in stack {
      FoundBehindRecords(g, t, path, stack, |g[t]|);
      RecordsHere(g, t, path);
      RecordsConcat(g, t, path, [[]], ExploreEdges(g, t, stack, |g[t]|));
    }
  }

  lemma {:induction false} FoundBehindRecords(g: Graph, t: TypeId, path: seq<string>, stack: seq<TypeId>, n: nat)
    requires TypeGraph.Closed(g) && t < |g| && n <= |g[t]| && t !in stack
    ensures FoundBehind(g, t, path, stack, n) == Records(g, t, path, ExploreEdges(g, t, stack, n))
    decreases Unvisited(g, stack), 0, n
  {
    if n > 0 {
      EnterType(g, t, stack);
      var target := g[t][n - 1].target;
      FoundBehindRecords(g, t, path, stack, n - 1);
      FoundRecords(g, target, path + [g[t][n - 1].name], stack + [t]);
      var deeper := Explore(g, target, stack + [t]);
      RecordsPrepend(g, t, path, n - 1, deeper);
      RecordsConcat(g, t, path, ExploreEdges(g, t, stack, n - 1), Prepend(n - 1, deeper));
    }
  }

  /** The recorded paths of one type, in recording order. */
  ghost function PathsTo(output: seq<(TypeId, string)>, tid: TypeId): seq<string> {
    if output == [] then []
    else
      var last := output[|output| - 1];
      PathsTo(output[..|output| - 1], tid) + if last.0 == tid then [last.1] else []
  }

  // ---------- positions of the edges met by the three loops ----------

  lemma {:induction false} AttributeEdgesPrefix(db: TypeDb, aggregates: seq<(TypeId, TypeId)>, t: TypeId, i: nat)
    requires AggregatesRegistered(db, aggregates) && t < |db.types|
    requires i <= |db.types[t].attributes|
    ensures AttributeEdges(db, db.types[t].attributes[..i]) <= Edges(db, aggregates, t)
    decreases |db.types[t].attributes| - i
  {
    var attributes := db.types[t].attributes;
    if i == |attributes| {
      assert attributes[..i] == attributes;
    } else {
      AttributeEdgesPrefix(db, aggregates, t, i + 1);
      assert attributes[..i + 1][..i] == attributes[..i];
    }
  }

  lemma {:induction false} ChildEdgesPrefix(db: TypeDb, aggregates: seq<(TypeId, TypeId)>, t: TypeId, j: nat)
    requires AggregatesRegistered(db, aggregates) && t < |db.types| && j <= |db.types|
    ensures AttributeEdges(db, db.types[t].attributes) + ChildEdges(db, t, j) <= Edges(db, aggregates, t)
    decreases |db.types| - j
  {
    if j < |db.types| {
      ChildEdgesPrefix(db, aggregates, t, j + 1);
    }
  }

  lemma {:induction false} AggregateEdgesPrefix(db: TypeDb, aggregates: seq<(TypeId, TypeId)>, t: TypeId, k: nat)
    requires AggregatesRegistered(db, aggregates) && t < |db.types| && k <= |aggregates|
    ensures AttributeEdges(db, db.types[t].attributes) + ChildEdges(db, t, |db.types|)
            + AggregateEdges(db, aggregates, t, k) <= Edges(db, aggregates, t)
    decreases |aggregates| - k
  {
    if k < |aggregates| {
      AggregateEdgesPrefix(db, aggregates, t, k + 1);
    }
  }

  ghost function AttributePosition(db: TypeDb, t: TypeId, i: nat): nat
    requires t < |db.types| && i <= |db.types[t].attributes|
  {
    |AttributeEdges(db, db.types[t].attributes[..i])|
  }

  ghost function ChildPosition(db: TypeDb, t: TypeId, j: nat): nat
    requires t < |db.types| && j <= |db.types|
  {
    |AttributeEdges(db, db.types[t].attributes)| + |ChildEdges(db, t, j)|
  }

  ghost function AggregatePosition(db: TypeDb, aggregates: seq<(TypeId, TypeId)>, t: TypeId, k: nat): nat
    requires AggregatesRegistered(db, aggregates) && t < |db.types| && k <= |aggregates|
  {
    |AttributeEdges(db, db.types[t].attributes)| + |ChildEdges(db, t, |db.types|)| + |AggregateEdges(db, aggregates, t, k)|
  }

  /** `es` has `e` at position `n`, and the next edge to come is at `n'`; or there is no edge here. */
  ghost predicate Places(es: seq<Edge>, n: nat, n': nat, here: bool, e: Edge) {
    if here then n' == n + 1 && n < |es| && es[n] == e else n' == n
  }

  lemma AttributeEdgeAt(db: TypeDb, aggregates: seq<(TypeId, TypeId)>, t: TypeId, i: nat)
    requires AggregatesRegistered(db, aggregates) && t < |db.types| && i < |db.types[t].attributes|
    ensures var n, n' := AttributePosition(db, t, i), AttributePosition(db, t, i + 1);
            var info, es := db.types[t].attributes[i], Edges(db, aggregates, t);
            && (info.checker.PointerChecker? ==>
                  Places(es, n, n', info.checker.pointee != db.objectType, Edge(info.name, info.checker.pointee)))
            && (info.checker.ContainerChecker? ==>
                  Places(es, n, n', true, Edge(info.name + "/[i]", info.checker.item)))
            && (info.checker.OtherChecker? ==> n' == n)
  {
    var attributes := db.types[t].attributes;
    assert attributes[..i + 1][..i] == attributes[..i];
    AttributeEdgesPrefix(db, aggregates, t, i + 1);
  }

  lemma ChildEdgeAt(db: TypeDb, aggregates: seq<(TypeId, TypeId)>, t: TypeId, j: nat)
    requires AggregatesRegistered(db, aggregates) && t < |db.types| && j < |db.types|
    ensures Places(Edges(db, aggregates, t), ChildPosition(db, t, j), ChildPosition(db, t, j + 1),
                   db.IsChildOf(j, t), Edge("$" + db.types[j].name, j))
  {
    ChildEdgesPrefix(db, aggregates, t, j + 1);
  }

  lemma AggregateEdgeAt(db: TypeDb, aggregates: seq<(TypeId, TypeId)>, t: TypeId, k: nat)
    requires AggregatesRegistered(db, aggregates) && t < |db.types| && k < |aggregates|
    ensures var item := aggregates[k];
            var other := if item.1 == t then item.0 else item.1;
            Places(Edges(db, aggregates, t),
                   AggregatePosition(db, aggregates, t, k), AggregatePosition(db, aggregates, t, k + 1),
                   item.0 == t || item.1 == t, Edge("$" + db.types[other].name, other))
  {
    AggregateEdgesPrefix(db, aggregates, t, k + 1);
  }

  /** The three groups of edges follow each other without a gap. */
  lemma Positions(db: TypeDb, aggregates: seq<(TypeId, TypeId)>, t: TypeId)
    requires AggregatesRegistered(db, aggregates) && t < |db.types|
    ensures AttributePosition(db, t, 0) == 0
    ensures AttributePosition(db, t, |db.types[t].attributes|) == ChildPosition(db, t, 0)
    ensures ChildPosition(db, t, |db.types|) == AggregatePosition(db, aggregates, t, 0)
    ensures AggregatePosition(db, aggregates, t, |aggregates|) == |Edges(db, aggregates, t)|
  {
    var attributes := db.types[t].attributes;
    assert attributes[..|attributes|] == attributes;
  }

  // ---------- the object ----------

  class StaticInformation {
    const db: TypeDb
    var output: seq<(TypeId, string)>
    var currentPath: seq<string>
    var alreadyProcessed: seq<TypeId>
    var aggregates: seq<(TypeId, TypeId)>
    var noTids: seq<string>
    ghost var graph: Graph  // the labelled edges that db and aggregates give every type

    /** What holds before and after every step: the two stacks move together and hold no type twice. */
    ghost predicate Valid()
      reads this
    {
      && db.Closed()
      && AggregatesRegistered(db, aggregates)
      && graph == GraphOf(db, aggregates) && TypeGraph.Closed(graph)
      && |currentPath| == |alreadyProcessed|
      && NoDuplicates(alreadyProcessed)
      && forall x :: x in alreadyProcessed ==> x < |db.types|
    }

    ghost predicate Idle()
      reads this
    {
      Valid() && currentPath == [] && alreadyProcessed == []
    }

    constructor (db: TypeDb)
      requires db.Closed()
      ensures Idle() && this.db == db && output == [] && aggregates == [] && noTids == []
    {
      this.db := db;
      output, currentPath, alreadyProcessed, aggregates, noTids := [], [], [], [], [];
      graph := GraphOf(db, []);
      GraphClosed(db, []);
    }

    method RecordAggregationInfo(a: string, b: string)
      requires Valid()
      modifies this
      ensures Valid()
      ensures output == old(output) && currentPath == old(currentPath)
      ensures alreadyProcessed == old(alreadyProcessed)
      ensures !Registered(db, a) ==> noTids == old(noTids) + [a] && aggregates == old(aggregates)
      ensures Registered(db, a) && !Registered(db, b) ==> noTids == old(noTids) + [b] && aggregates == old(aggregates)
      ensures Registered(db, a) && Registered(db, b) ==>
                && noTids == old(noTids) && |aggregates| == |old(aggregates)| + 1
                && old(aggregates) <= aggregates
                && Names(db, aggregates[|aggregates| - 1].0, a) && Names(db, aggregates[|aggregates| - 1].1, b)
    {
      var aTid, aFound := LookupByName(a);
      if !aFound {
        noTids := noTids + [a];
        return;
      }
      var bTid, bFound := LookupByName(b);
      if !bFound {
        noTids := noTids + [b];
        return;
      }
      aggregates := aggregates + [(aTid, bTid)];
      graph := GraphOf(db, aggregates);
      GraphClosed(db, aggregates);
    }

    method LookupByName(name: string) returns (tid: TypeId, found: bool)
      ensures found <==> Registered(db, name)
      ensures found ==> Names(db, tid, name)
    {
      tid, found := 0, false;
      while tid < |db.types|
        invariant tid <= |db.types|
        invariant forall t :: 0 <= t < tid ==> db.types[t].name != name
      {
        if db.types[tid].name == name {
          assert Names(db, tid, name);
          return tid, true;
        }
        tid := tid + 1;
      }
    }

    method GetCurrentPath() returns (path: string)
      ensures path == Render(currentPath) && Pieces(path) == [""] + FlatMap(Pieces, currentPath)
    {
      path := "";
      for i := 0 to |currentPath|
        invariant path == Render(currentPath[..i])
      {
        assert currentPath[..i + 1][..i] == currentPath[..i];
        path := path + "/" + currentPath[i];
      }
      assert currentPath[..|currentPath|] == currentPath;
      RenderPieces(currentPath);
    }

    method RecordOutput(tid: TypeId)
      modifies this`output
      ensures output == old(output) + [(tid, Render(currentPath))]
    {
      var path := GetCurrentPath();
      output := output + [(tid, path)];
    }

    method HasAlreadyBeenProcessed(tid: TypeId) returns (processed: bool)
      ensures processed <==> tid in alreadyProcessed
    {
      for i := 0 to |alreadyProcessed|
        invariant tid !in alreadyProcessed[..i]
      {
        if alreadyProcessed[i] == tid {
          return true;
        }
      }
      return false;
    }

    method Get(tid: TypeId) returns (paths: seq<string>)
      ensures paths == PathsTo(output, tid)
    {
      paths := [];
      for i := 0 to |output|
        invariant paths == PathsTo(output[..i], tid)
      {
        assert output[..i + 1][..i] == output[..i];
        if output[i].0 == tid {
          paths := paths + [output[i].1];
        }
      }
      assert output[..|output|] == output;
    }

    /** The output once the first `n` edges of `tid` have been searched. */
    ghost predicate Searched(before: seq<(TypeId, string)>, tid: TypeId, n: nat)
      requires Valid()
      reads this
    {
      && tid < |db.types| && tid !in alreadyProcessed && n <= |graph[tid]|
      && output == before + FoundBehind(graph, tid, currentPath, alreadyProcessed, n)
    }

    /** One edge: push, search the target, pop. */
    method Follow(tid: TypeId, name: string, target: TypeId, ghost n: nat, ghost before: seq<(TypeId, string)>)
      requires Valid() && Searched(before, tid, n)
      requires n < |graph[tid]| && graph[tid][n] == Edge(name, target)
      modifies this`output, this`currentPath, this`alreadyProcessed
      ensures Valid() && Searched(before, tid, n + 1)
      ensures currentPath == old(currentPath) && alreadyProcessed == old(alreadyProcessed)
      decreases Unvisited(graph, alreadyProcessed), 0
    {
      ghost var g, stack, path := graph, alreadyProcessed, currentPath;
      EnterType(g, tid, stack);
      currentPath := currentPath + [name];
      alreadyProcessed := alreadyProcessed + [tid];
      Popped(stack, tid);
      Popped(path, name);
      DoGather(target);
      FoundBehindNext(g, tid, path, stack, n, before);
      alreadyProcessed := alreadyProcessed[..|alreadyProcessed| - 1];
      currentPath := currentPath[..|currentPath| - 1];
      assert alreadyProcessed == stack && currentPath == path;
    }

    method GatherAttributes(tid: TypeId, ghost before: seq<(TypeId, string)>) returns (ghost n: nat)
      requires Valid() && Searched(before, tid, 0)
      modifies this`output, this`currentPath, this`alreadyProcessed
      ensures Valid() && Searched(before, tid, n) && n == AttributePosition(db, tid, |db.types[tid].attributes|)
      ensures currentPath == old(currentPath) && alreadyProcessed == old(alreadyProcessed)
      decreases Unvisited(graph, alreadyProcessed), 1
    {
      var attributes := db.types[tid].attributes;
      n := 0;
      Positions(db, aggregates, tid);
      for i := 0 to |attributes|
        invariant Valid() && currentPath == old(currentPath) && alreadyProcessed == old(alreadyProcessed)
        invariant Searched(before, tid, n) && n == AttributePosition(db, tid, i)
      {
        var info := attributes[i];
        AttributeEdgeAt(db, aggregates, tid, i);
        if info.checker.PointerChecker? {
          if info.checker.pointee == db.objectType {
            continue;
          }
          Follow(tid, info.name, info.checker.pointee, n, before);
          n := n + 1;
        } else if info.checker.ContainerChecker? {
          Follow(tid, info.name + "/[i]", info.checker.item, n, before);
          n := n + 1;
        }
      }
    }

    method GatherChildren(tid: TypeId, ghost before: seq<(TypeId, string)>, ghost n0: nat) returns (ghost n: nat)
      requires Valid() && Searched(before, tid, n0) && n0 == ChildPosition(db, tid, 0)
      modifies this`output, this`currentPath, this`alreadyProcessed
      ensures Valid() && Searched(before, tid, n) && n == ChildPosition(db, tid, |db.types|)
      ensures currentPath == old(currentPath) && alreadyProcessed == old(alreadyProcessed)
      decreases Unvisited(graph, alreadyProcessed), 1
    {
      n := n0;
      for j := 0 to |db.types|
        invariant Valid() && currentPath == old(currentPath) && alreadyProcessed == old(alreadyProcessed)
        invariant Searched(before, tid, n) && n == ChildPosition(db, tid, j)
      {
        ChildEdgeAt(db, aggregates, tid, j);
        if db.IsChildOf(j, tid) {
          Follow(tid, "$" + db.types[j].name, j, n, before);
          n := n + 1;
        }
      }
    }

    method GatherAggregates(tid: TypeId, ghost before: seq<(TypeId, string)>, ghost n1: nat) returns (ghost n: nat)
      requires Valid() && Searched(before, tid, n1) && n1 == AggregatePosition(db, aggregates, tid, 0)
      modifies this`output, this`currentPath, this`alreadyProcessed
      ensures Valid() && Searched(before, tid, n) && n == AggregatePosition(db, aggregates, tid, |aggregates|)
      ensures currentPath == old(currentPath) && alreadyProcessed == old(alreadyProcessed)
      decreases Unvisited(graph, alreadyProcessed), 1
    {
      n := n1;
      for k := 0 to |aggregates|
        invariant Valid() && currentPath == old(currentPath) && alreadyProcessed == old(alreadyProcessed)
        invariant Searched(before, tid, n) && n == AggregatePosition(db, aggregates, tid, k)
      {
        var item := aggregates[k];
        AggregateEdgeAt(db, aggregates, tid, k);
        if item.0 == tid || item.1 == tid {
          var other := item.1;
          if item.1 == tid {
            other := item.0;
          }
          Follow(tid, "$" + db.types[other].name, other, n, before);
          n := n + 1;
        }
      }
    }

    method DoGather(tid: TypeId)
      requires Valid() && tid < |db.types|
      modifies this`output, this`currentPath, this`alreadyProcessed
      ensures Valid()
      ensures currentPath == old(currentPath) && alreadyProcessed == old(alreadyProcessed)
      ensures output == old(output) + Found(graph, tid, currentPath, alreadyProcessed)
      decreases Unvisited(graph, alreadyProcessed), 2
    {
      var processed := HasAlreadyBeenProcessed(tid);
      if processed {
        return;
      }
      ghost var start := output;
      RecordOutput(tid);
      ghost var before := output;
      FoundHere(graph, tid, currentPath, alreadyProcessed, start);
      Positions(db, aggregates, tid);
      ghost var n := GatherAttributes(tid, before);
      ghost var n' := GatherChildren(tid, before, n);
      ghost var n'' := GatherAggregates(tid, before, n');
    }

    /** `Gather` also sorts and prunes a copy of the output, which leaves the output alone. */
    method Gather(tid: TypeId)
      requires Idle() && tid < |db.types|
      modifies this`output, this`currentPath, this`alreadyProcessed
      ensures Idle()
      ensures output == old(output) + Found(graph, tid, [], [])
    {
      DoGather(tid);
    }

    /** The whole run: one `Gather` for every root namespace object. */
    method GatherRoots(roots: seq<TypeId>)
      requires Idle() && forall i :: 0 <= i < |roots| ==> roots[i] < |db.types|
      modifies this`output, this`currentPath, this`alreadyProcessed
      ensures Idle()
      ensures output == old(output) + FoundFromRoots(graph, roots, |roots|)
    {
      for i := 0 to |roots|
        invariant Idle()
        invariant output == old(output) + FoundFromRoots(graph, roots, i)
      {
        Gather(roots[i]);
      }
    }
  }

  // ---------- what Get returns ----------

  /** What gathering from the first `n` roots records. */
  ghost function FoundFromRoots(g: Graph, roots: seq<TypeId>, n: nat): seq<(TypeId, string)>
    requires TypeGraph.Closed(g) && n <= |roots| && forall i :: 0 <= i < |roots| ==> roots[i] < |g|
  {
    if n == 0 then [] else FoundFromRoots(g, roots, n - 1) + Found(g, roots[n - 1], [], [])
  }

  /** The walks of `ws` that end at `tid`, in the order of `ws`. */
  ghost function WalksTo(g: Graph, t: TypeId, ws: seq<Walk>, tid: TypeId): (r: seq<Walk>)
    requires TypeGraph.Closed(g) && t < |g|
    requires forall w :: w in ws ==> IsWalk(g, t, w)
    ensures forall w :: w in r <==> w in ws && End(g, t, w) == tid
  {
    if ws == [] then []
    else
      var last := ws[|ws| - 1];
      WalksTo(g, t, ws[..|ws| - 1], tid) + if End(g, t, last) == tid then [last] else []
  }

  ghost function RenderAll(g: Graph, t: TypeId, ws: seq<Walk>): (r: seq<string>)
    requires TypeGraph.Closed(g) && t < |g|
    requires forall w :: w in ws ==> IsWalk(g, t, w)
    ensures |r| == |ws|
    ensures forall i :: 0 <= i < |ws| ==> r[i] == Render(Labels(g, t, ws[i]))
  {
    seq(|ws|, i requires 0 <= i < |ws| => Render(Labels(g, t, ws[i])))
  }

  /** After one `Gather`, `Get` returns one path per walk that ends at the type, in search order. */
  lemma {:induction false} GetIsRenderedWalks(g: Graph, t: TypeId, ws: seq<Walk>, tid: TypeId)
    requires TypeGraph.Closed(g) && t < |g|
    requires forall w :: w in ws ==> IsWalk(g, t, w)
    ensures PathsTo(Records(g, t, [], ws), tid) == RenderAll(g, t, WalksTo(g, t, ws, tid))
  {
    if ws != [] {
      var front, last := ws[..|ws| - 1], ws[|ws| - 1];
      GetIsRenderedWalks(g, t, front, tid);
      var records := Records(g, t, [], ws);
      assert records[..|ws| - 1] == Records(g, t, [], front);
      assert [] + Labels(g, t, last) == Labels(g, t, last);
    }
  }

  lemma {:induction false} PathsToConcat(a: seq<(TypeId, string)>, b: seq<(TypeId, string)>, tid: TypeId)
    ensures PathsTo(a + b, tid) == PathsTo(a, tid) + PathsTo(b, tid)
  {
    if b == [] {
      assert a + b == a;
    } else {
      PathsToConcat(a, b[..|b| - 1], tid);
      assert (a + b)[..|a + b| - 1] == a + b[..|b| - 1];
    }
  }

  /** A path leads to a type iff it spells a simple walk from a root to that type. */
  ghost predicate Spells(g: Graph, root: TypeId, tid: TypeId, w: Walk, path: string)
    requires TypeGraph.Closed(g) && root < |g|
  {
    SimpleFrom(g, root, [], w) && End(g, root, w) == tid && path == Render(Labels(g, root, w))
  }

  /** A walk spells the one string that begins with a slash and has the pieces of its labels, cut by slashes. */
  lemma SpellsIff(g: Graph, root: TypeId, tid: TypeId, w: Walk, path: string)
    requires TypeGraph.Closed(g) && root < |g|
    ensures Spells(g, root, tid, w, path)
       <==> && SimpleFrom(g, root, [], w) && End(g, root, w) == tid
            && Pieces(path) == [""] + FlatMap(Pieces, Labels(g, root, w))
  {
    if SimpleFrom(g, root, [], w) {
      RenderPieces(Labels(g, root, w));
      PiecesRejoined(path);
      PiecesRejoined(Render(Labels(g, root, w)));
    }
  }

  /** After one `Gather`: the paths of a type are those of the simple walks to it, and no others. */
  lemma GetListsSimpleWalks(g: Graph, root: TypeId, tid: TypeId, path: string)
    requires TypeGraph.Closed(g) && root < |g|
    ensures path in PathsTo(Found(g, root, [], []), tid) <==> exists w :: Spells(g, root, tid, w, path)
  {
    FoundRecords(g, root, [], []);
    var ws := Explore(g, root, []);
    var to := WalksTo(g, root, ws, tid);
    var paths := RenderAll(g, root, to);
    GetIsRenderedWalks(g, root, ws, tid);
    if path in paths {
      var i :| 0 <= i < |paths| && paths[i] == path;
      ExploreExact(g, root, [], to[i]);
      assert Spells(g, root, tid, to[i], path);
    }
    if w :| Spells(g, root, tid, w, path) {
      ExploreExact(g, root, [], w);
      var i :| 0 <= i < |to| && to[i] == w;
      assert paths[i] == path;
    }
  }

  lemma {:induction false} WalksToOrdered(g: Graph, t: TypeId, ws: seq<Walk>, tid: TypeId)
    requires TypeGraph.Closed(g) && t < |g| && Ordered(ws)
    requires forall w :: w in ws ==> IsWalk(g, t, w)
    ensures Ordered(WalksTo(g, t, ws, tid))
  {
    if ws != [] {
      var front, last := ws[..|ws| - 1], ws[|ws| - 1];
      WalksToOrdered(g, t, front, tid);
      var before := WalksTo(g, t, front, tid);
      forall i | 0 <= i < |before|
        ensures Before(before[i], last)
      {
        assert before[i] in before;
        var k :| 0 <= k < |front| && front[k] == before[i];
        assert ws[k] == front[k];
      }
    }
  }

  /** Different simple walks from the root to the type may spell the same path. */
  ghost predicate SpeltTwice(g: Graph, root: TypeId, tid: TypeId, path: string, w: Walk, w': Walk)
    requires TypeGraph.Closed(g) && root < |g|
  {
    w != w' && Spells(g, root, tid, w, path) && Spells(g, root, tid, w', path)
  }

  /** Nothing removes repetitions: after one `Gather`, `Get` lists no path twice exactly when no two simple
      walks to the type spell the same one. */
  lemma GetDistinctIff(g: Graph, root: TypeId, tid: TypeId)
    requires TypeGraph.Closed(g) && root < |g|
    ensures NoDuplicates(PathsTo(Found(g, root, [], []), tid))
       <==> forall path, w, w' :: !SpeltTwice(g, root, tid, path, w, w')
  {
    FoundRecords(g, root, [], []);
    var ws := Explore(g, root, []);
    var paths := RenderAll(g, root, WalksTo(g, root, ws, tid));
    GetIsRenderedWalks(g, root, ws, tid);
    if i, j :| 0 <= i < j < |paths| && paths[i] == paths[j] {
      RepeatedPath(g, root, tid, i, j);
    }
    if path, w, w' :| SpeltTwice(g, root, tid, path, w, w') {
      ListedTwice(g, root, tid, path, w, w');
    }
  }

  lemma RepeatedPath(g: Graph, root: TypeId, tid: TypeId, i: nat, j: nat)
    requires TypeGraph.Closed(g) && root < |g| && i < j < |WalksTo(g, root, Explore(g, root, []), tid)|
    requires var paths := RenderAll(g, root, WalksTo(g, root, Explore(g, root, []), tid)); paths[i] == paths[j]
    ensures var to := WalksTo(g, root, Explore(g, root, []), tid);
            SpeltTwice(g, root, tid, Render(Labels(g, root, to[i])), to[i], to[j])
  {
    var to := WalksTo(g, root, Explore(g, root, []), tid);
    ExploreOrdered(g, root, []);
    WalksToOrdered(g, root, Explore(g, root, []), tid);
    RenderedWalk(g, root, tid, to[i]);
    RenderedWalk(g, root, tid, to[j]);
    assert Before(to[i], to[j]);
    BeforeIrreflexive(to[j]);
  }

  lemma ListedTwice(g: Graph, root: TypeId, tid: TypeId, path: string, w: Walk, w': Walk)
    requires TypeGraph.Closed(g) && root < |g| && SpeltTwice(g, root, tid, path, w, w')
    ensures !NoDuplicates(RenderAll(g, root, WalksTo(g, root, Explore(g, root, []), tid)))
  {
    var to := WalksTo(g, root, Explore(g, root, []), tid);
    var paths := RenderAll(g, root, to);
    RenderedWalk(g, root, tid, w);
    RenderedWalk(g, root, tid, w');
    var i :| 0 <= i < |to| && to[i] == w;
    var j :| 0 <= j < |to| && to[j] == w';
    assert paths[i] == paths[j];
  }

  lemma RenderedWalk(g: Graph, root: TypeId, tid: TypeId, w: Walk)
    requires TypeGraph.Closed(g) && root < |g|
    ensures w in WalksTo(g, root, Explore(g, root, []), tid)
       <==> IsWalk(g, root, w) && Spells(g, root, tid, w, Render(Labels(g, root, w)))
  {
    ExploreExact(g, root, [], w);
  }

  /** Some walk from one of the first `n` roots to the type spells the path. */
  ghost predicate SpelledFrom(g: Graph, roots: seq<TypeId>, n: nat, tid: TypeId, path: string)
    requires TypeGraph.Closed(g) && n <= |roots| && forall i :: 0 <= i < |roots| ==> roots[i] < |g|
  {
    exists i, w :: 0 <= i < n && Spells(g, roots[i], tid, w, path)
  }

  lemma SpelledFromNext(g: Graph, roots: seq<TypeId>, n: nat, tid: TypeId, path: string)
    requires TypeGraph.Closed(g) && n < |roots| && forall i :: 0 <= i < |roots| ==> roots[i] < |g|
    ensures SpelledFrom(g, roots, n + 1, tid, path)
       <==> SpelledFrom(g, roots, n, tid, path) || exists w :: Spells(g, roots[n], tid, w, path)
  {
  }

  /** The whole run, whatever cycles the type database has. */
  lemma {:induction false} GetAfterRun(g: Graph, roots: seq<TypeId>, n: nat, tid: TypeId, path: string)
    requires TypeGraph.Closed(g) && n <= |roots| && forall i :: 0 <= i < |roots| ==> roots[i] < |g|
    ensures path in PathsTo(FoundFromRoots(g, roots, n), tid) <==> SpelledFrom(g, roots, n, tid, path)
  {
    if n > 0 {
      GetAfterRun(g, roots, n - 1, tid, path);
      SpelledFromNext(g, roots, n - 1, tid, path);
      GetListsSimpleWalks(g, roots[n - 1], tid, path);
      PathsToConcat(FoundFromRoots(g, roots, n - 1), Found(g, roots[n - 1], [], []), tid);
    }
  }
}
