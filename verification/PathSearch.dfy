/** get_path: the greedy depth first search with backtracking on the instantiation
    graph that looks for the flow path of a tag. */
module PathSearch {

  datatype Edge = Edge(source: nat, target: nat, info: nat)

  datatype Graph = Graph(vertices: nat, edges: seq<Edge>, isInputPort: nat -> bool, isOutputPort: nat -> bool)
  {
    predicate Valid() {
      forall e :: e in edges ==> e.source < vertices && e.target < vertices
    }

    predicate HasOutEdge(v: nat) {
      exists i :: 0 <= i < |edges| && edges[i].source == v
    }

    predicate HasInEdge(v: nat) {
      exists i :: 0 <= i < |edges| && edges[i].target == v
    }

    /** Where the forward phase stops: an output port without successors. */
    predicate IsSink(v: nat) {
      !HasOutEdge(v) && isOutputPort(v)
    }
  }

  type Filter = Edge -> bool

  /** Picks one of several edges, like min_element and max_element do. */
  type Selector = seq<Edge> -> nat

  ghost predicate Picks(selector: Selector) {
    forall es: seq<Edge> :: es != [] ==> selector(es) < |es|
  }

  predicate Linked(g: Graph, filter: Filter, u: nat, v: nat) {
    exists e :: e in g.edges && e.source == u && e.target == v && filter(e)
  }

  /** A chain of filtered edges. */
  predicate Chain(g: Graph, filter: Filter, p: seq<nat>) {
    forall i :: 0 < i < |p| ==> Linked(g, filter, p[i - 1], p[i])
  }

  predicate Distinct(p: seq<nat>) {
    forall i, j :: 0 <= i < j < |p| ==> p[i] != p[j]
  }

  /** A chain from t that does not come back to s. */
  predicate Avoids(g: Graph, filter: Filter, p: seq<nat>, t: nat, s: nat) {
    |p| > 0 && p[0] == t && Chain(g, filter, p) && forall i :: 0 < i < |p| ==> p[i] != s
  }

  ghost predicate SinkReachable(g: Graph, filter: Filter, t: nat, s: nat) {
    exists p: seq<nat> :: Avoids(g, filter, p, t, s) && g.IsSink(p[|p| - 1])
  }

  /** All filtered successors of v have been visited. */
  predicate Exhausted(g: Graph, filter: Filter, visited: seq<nat>, v: nat) {
    forall e :: e in g.edges && e.source == v && filter(e) ==> e.target in visited
  }

  /** The filtered edges out of v that lead to no vertex of `avoided`, in edge order. */
  function Candidates(es: seq<Edge>, filter: Filter, avoided: set<nat>, v: nat): seq<Edge> {
    if es == [] then []
    else
      var e := es[|es| - 1];
      Candidates(es[..|es| - 1], filter, avoided, v) +
      if e.source == v && filter(e) && e.target !in avoided then [e] else []
  }

  lemma {:induction false} CandidatesAre(es: seq<Edge>, filter: Filter, avoided: set<nat>, v: nat, e: Edge)
    ensures e in Candidates(es, filter, avoided, v) <==>
            e in es && e.source == v && filter(e) && e.target !in avoided
  {
    if es != [] {
      CandidatesAre(es[..|es| - 1], filter, avoided, v, e);
      assert es == es[..|es| - 1] + [es[|es| - 1]];
    }
  }

  function SetOf(p: seq<nat>): set<nat> {
    set v | v in p
  }

  lemma NoCandidates(g: Graph, filter: Filter, visited: seq<nat>, v: nat)
    requires Candidates(g.edges, filter, SetOf(visited), v) == []
    ensures Exhausted(g, filter, visited, v)
  {
    forall e | e in g.edges && e.source == v && filter(e)
      ensures e.target in visited
    {
      CandidatesAre(g.edges, filter, SetOf(visited), v, e);
    }
  }

  method OutCandidates(g: Graph, filter: Filter, visited: seq<nat>, v: nat) returns (candidates: seq<Edge>)
    ensures candidates == Candidates(g.edges, filter, SetOf(visited), v)
    ensures candidates == [] ==> Exhausted(g, filter, visited, v)
  {
    candidates := [];
    for i := 0 to |g.edges|
      invariant candidates == Candidates(g.edges[..i], filter, SetOf(visited), v)
    {
      assert g.edges[..i + 1][..i] == g.edges[..i];
      if g.edges[i].source == v && filter(g.edges[i]) && g.edges[i].target !in visited {
        candidates := candidates + [g.edges[i]];
      }
    }
    assert g.edges[..|g.edges|] == g.edges;
    if candidates == [] {
      NoCandidates(g, filter, visited, v);
    }
  }

  /** The candidates of the backward phase: the visited filter looks at the target of
      an edge into v, which is v. */
  method InCandidates(g: Graph, filter: Filter, visited: seq<nat>, v: nat) returns (candidates: seq<Edge>)
    ensures forall e :: e in candidates <==> e in g.edges && e.target == v && filter(e) && e.target !in visited
    ensures v in visited ==> candidates == []
  {
    candidates := [];
    for i := 0 to |g.edges|
      invariant forall e :: e in candidates <==> e in g.edges[..i] && e.target == v && filter(e) && e.target !in visited
      invariant v in visited ==> candidates == []
    {
      if g.edges[i].target == v && filter(g.edges[i]) && g.edges[i].target !in visited {
        candidates := candidates + [g.edges[i]];
      }
    }
  }

  /** The backward phase never extends the path. */
  method Backward(g: Graph, filter: Filter, path: seq<nat>, visited: seq<nat>) returns (extended: seq<nat>)
    requires |path| > 0 && path[0] in visited
    ensures extended == path
  {
    extended := path;
    var sourceVertex, searching := path[0], true;
    while searching && (g.HasInEdge(sourceVertex) || !g.isInputPort(sourceVertex))
      invariant extended == path && sourceVertex == path[0]
      decreases searching
    {
      var candidates := InCandidates(g, filter, visited, sourceVertex);
      // with no candidate the search only stops at the vertex it started from
      searching := candidates != [] || extended[0] != path[0];
    }
  }

  function Unvisited(n: nat, visited: seq<nat>): set<nat> {
    set v: nat | v < n && v !in visited
  }

  /** The search invariant: the path is a simple chain below s, and everything that
      was left behind is exhausted and no sink. */
  ghost predicate Searching(g: Graph, filter: Filter, s: nat, t: nat, path: seq<nat>, visited: seq<nat>) {
    |path| >= 2 && path[0] == s && path[1] == t && Chain(g, filter, path[1..]) && Distinct(path[1..]) &&
    (forall i :: 2 <= i < |path| ==> path[i] != s) &&
    (forall i :: 0 <= i < |path| ==> path[i] in visited) &&
    (forall v :: v in visited ==> v < g.vertices) &&
    forall v :: v in visited && v !in path ==> Exhausted(g, filter, visited, v) && !g.IsSink(v)
  }

  lemma Extends(g: Graph, filter: Filter, s: nat, t: nat, path: seq<nat>, visited: seq<nat>, e: Edge)
    requires g.Valid() && Searching(g, filter, s, t, path, visited)
    requires e in g.edges && e.source == path[|path| - 1] && filter(e) && e.target !in visited
    ensures Searching(g, filter, s, t, path + [e.target], visited + [e.target])
    ensures |Unvisited(g.vertices, visited + [e.target])| < |Unvisited(g.vertices, visited)|
  {
    var longer := path + [e.target];
    assert longer[1..] == path[1..] + [e.target];
    assert Linked(g, filter, path[|path| - 1], e.target);
    var before, after := Unvisited(g.vertices, visited), Unvisited(g.vertices, visited + [e.target]);
    assert after == before - {e.target};
    forall v | v in visited + [e.target] && v !in longer
      ensures Exhausted(g, filter, visited + [e.target], v) && !g.IsSink(v)
    {
      assert v in visited && v !in path;
      assert Exhausted(g, filter, visited, v);
    }
  }

  lemma Backtracks(g: Graph, filter: Filter, s: nat, t: nat, path: seq<nat>, visited: seq<nat>)
    requires Searching(g, filter, s, t, path, visited) && |path| > 2
    requires Exhausted(g, filter, visited, path[|path| - 1]) && !g.IsSink(path[|path| - 1])
    ensures Searching(g, filter, s, t, path[..|path| - 1], visited)
  {
    var shorter := path[..|path| - 1];
    assert shorter[1..] == path[1..][..|path| - 2];
    forall v | v in visited && v !in shorter
      ensures Exhausted(g, filter, visited, v) && !g.IsSink(v)
    {
      if v in path {
        assert v == path[|path| - 1];
      }
    }
  }

  /** From an exhausted set no chain gets out, except back to s. */
  lemma {:induction false} StaysVisited(g: Graph, filter: Filter, s: nat, t: nat, visited: seq<nat>, p: seq<nat>)
    requires Avoids(g, filter, p, t, s) && t in visited
    requires forall v :: v in visited && v != s ==> Exhausted(g, filter, visited, v)
    requires t == s ==> Exhausted(g, filter, visited, s)
    ensures p[|p| - 1] in visited
  {
    if |p| > 1 {
      var n := |p| - 1;
      StaysVisited(g, filter, s, t, visited, p[..n]);
      assert Linked(g, filter, p[n - 1], p[n]);
      if n - 1 > 0 {
        assert p[n - 1] != s;
      }
      assert Exhausted(g, filter, visited, p[n - 1]);
    }
  }

  /** Giving up at t is right. */
  lemma GivesUp(g: Graph, filter: Filter, s: nat, t: nat, visited: seq<nat>)
    requires Searching(g, filter, s, t, [s, t], visited)
    requires Exhausted(g, filter, visited, t) && !g.IsSink(t)
    ensures !SinkReachable(g, filter, t, s)
  {
    forall p: seq<nat> | Avoids(g, filter, p, t, s)
      ensures !g.IsSink(p[|p| - 1])
    {
      forall v | v in visited && v != s
        ensures Exhausted(g, filter, visited, v)
      {
        if v != t {
          assert v !in [s, t];
        }
      }
      StaysVisited(g, filter, s, t, visited, p);
      if p[|p| - 1] != t {
        assert p[|p| - 1] !in [s, t];
      }
    }
  }

  lemma Finds(g: Graph, filter: Filter, s: nat, t: nat, path: seq<nat>, visited: seq<nat>)
    requires Searching(g, filter, s, t, path, visited) && g.IsSink(path[|path| - 1])
    ensures SinkReachable(g, filter, t, s)
  {
    var p := path[1..];
    assert Avoids(g, filter, p, t, s) && p[|p| - 1] == path[|path| - 1];
  }

  // ----- which edges the path follows -----

  /** What step k avoids: the path up to there, and vertices that the search has left behind. */
  ghost predicate AvoidedAt(path: seq<nat>, visited: seq<nat>, k: nat, avoided: set<nat>)
    requires k + 2 <= |path|
  {
    (forall v :: v in path[..k + 2] ==> v in avoided) &&
    forall v :: v in avoided ==> v in path[..k + 2] || (v in visited && v !in path)
  }

  /** The edge is what the selector chooses among the edges to vertices not avoided. */
  ghost predicate IsChoice(g: Graph, filter: Filter, selector: Selector, avoided: set<nat>, v: nat, e: Edge) {
    var candidates := Candidates(g.edges, filter, avoided, v);
    candidates != [] && selector(candidates) < |candidates| && e == candidates[selector(candidates)]
  }

  /** Edge k of the path below its first edge. */
  ghost predicate GreedyStep(g: Graph, filter: Filter, selector: Selector, path: seq<nat>, visited: seq<nat>,
                             taken: seq<Edge>, k: nat)
    requires k < |taken| && k + 2 < |path|
  {
    taken[k].target == path[k + 2] &&
    exists avoided: set<nat> ::
      AvoidedAt(path, visited, k, avoided) && IsChoice(g, filter, selector, avoided, path[k + 1], taken[k])
  }

  ghost predicate Greedy(g: Graph, filter: Filter, selector: Selector, path: seq<nat>, visited: seq<nat>,
                         taken: seq<Edge>)
  {
    |taken| + 2 == |path| && forall k :: 0 <= k < |taken| ==> GreedyStep(g, filter, selector, path, visited, taken, k)
  }

  /** The search has left a vertex behind only when it is no sink and all its filtered
      successors have been visited. */
  ghost predicate LeftBehind(g: Graph, filter: Filter, path: seq<nat>, visited: seq<nat>) {
    forall v :: v in visited && v !in path ==> Exhausted(g, filter, visited, v) && !g.IsSink(v)
  }

  lemma GreedyExtends(g: Graph, filter: Filter, selector: Selector, path: seq<nat>, visited: seq<nat>,
                      taken: seq<Edge>, e: Edge)
    requires Greedy(g, filter, selector, path, visited, taken) && e.target !in visited && |path| >= 2
    requires forall v :: v in path ==> v in visited
    requires IsChoice(g, filter, selector, SetOf(visited), path[|path| - 1], e)
    ensures Greedy(g, filter, selector, path + [e.target], visited + [e.target], taken + [e])
  {
    var path', visited', taken' := path + [e.target], visited + [e.target], taken + [e];
    forall k | 0 <= k < |taken'|
      ensures GreedyStep(g, filter, selector, path', visited', taken', k)
    {
      assert path'[..k + 2] == path[..k + 2];
      if k < |taken| {
        assert GreedyStep(g, filter, selector, path, visited, taken, k);
        var avoided: set<nat> :| AvoidedAt(path, visited, k, avoided) &&
                                 IsChoice(g, filter, selector, avoided, path[k + 1], taken[k]);
        assert AvoidedAt(path', visited', k, avoided);
      } else {
        assert path[..k + 2] == path;
        assert AvoidedAt(path', visited', k, SetOf(visited));
      }
    }
  }

  lemma GreedyBacktracks(g: Graph, filter: Filter, selector: Selector, path: seq<nat>, visited: seq<nat>,
                         taken: seq<Edge>)
    requires Greedy(g, filter, selector, path, visited, taken) && |path| > 2
    ensures Greedy(g, filter, selector, path[..|path| - 1], visited, taken[..|taken| - 1])
  {
    var path', taken' := path[..|path| - 1], taken[..|taken| - 1];
    forall k | 0 <= k < |taken'|
      ensures GreedyStep(g, filter, selector, path', visited, taken', k)
    {
      assert GreedyStep(g, filter, selector, path, visited, taken, k);
      var avoided: set<nat> :| AvoidedAt(path, visited, k, avoided) &&
                               IsChoice(g, filter, selector, avoided, path[k + 1], taken[k]);
      assert path'[..k + 2] == path[..k + 2];
      assert AvoidedAt(path', visited, k, avoided);
    }
  }

  /** The selector returns an edge that is below all others. */
  ghost predicate Least(selector: Selector, leq: (Edge, Edge) -> bool) {
    forall es: seq<Edge>, e :: e in es ==> selector(es) < |es| && leq(es[selector(es)], e)
  }

  lemma LeastChoice(g: Graph, filter: Filter, selector: Selector, avoided: set<nat>, v: nat, e: Edge,
                    leq: (Edge, Edge) -> bool, f: Edge)
    requires IsChoice(g, filter, selector, avoided, v, e) && Least(selector, leq)
    requires f in g.edges && f.source == v && filter(f)
    ensures f.target in avoided || leq(e, f)
  {
    CandidatesAre(g.edges, filter, avoided, v, f);
  }

  /** With a selector of least edges, an edge preferred to the one taken leads back to the path
      or to a vertex that the search has left behind. */
  lemma PreferredIsAvoided(g: Graph, filter: Filter, selector: Selector, path: seq<nat>, visited: seq<nat>,
                           taken: seq<Edge>, k: nat, leq: (Edge, Edge) -> bool, f: Edge)
    requires Greedy(g, filter, selector, path, visited, taken) && k < |taken| && Least(selector, leq)
    requires LeftBehind(g, filter, path, visited)
    requires f in g.edges && f.source == path[k + 1] && filter(f) && !leq(taken[k], f)
    ensures f.target in path[..k + 2] ||
            (f.target in visited && f.target !in path && Exhausted(g, filter, visited, f.target) &&
              !g.IsSink(f.target))
  {
    assert GreedyStep(g, filter, selector, path, visited, taken, k);
    var avoided: set<nat> :| AvoidedAt(path, visited, k, avoided) &&
                             IsChoice(g, filter, selector, avoided, path[k + 1], taken[k]);
    LeastChoice(g, filter, selector, avoided, path[k + 1], taken[k], leq, f);
  }

  /** Where nothing has been left behind, every step is the selector's choice among all edges
      that do not lead back to the path. */
  lemma ChoiceWithoutBacktracking(g: Graph, filter: Filter, selector: Selector, path: seq<nat>, visited: seq<nat>,
                                  taken: seq<Edge>, k: nat)
    requires Greedy(g, filter, selector, path, visited, taken) && k < |taken|
    requires forall v :: v in visited ==> v in path
    ensures IsChoice(g, filter, selector, SetOf(path[..k + 2]), path[k + 1], taken[k])
    ensures taken[k] in g.edges && taken[k].source == path[k + 1] && taken[k].target == path[k + 2] && filter(taken[k])
  {
    assert GreedyStep(g, filter, selector, path, visited, taken, k);
    var avoided: set<nat> :| AvoidedAt(path, visited, k, avoided) &&
                             IsChoice(g, filter, selector, avoided, path[k + 1], taken[k]);
    assert avoided == SetOf(path[..k + 2]);
    CandidatesAre(g.edges, filter, avoided, path[k + 1], taken[k]);
  }

  /** A sink is an output port that no edge starts from. */
  lemma SinkIff(g: Graph, v: nat)
    ensures g.IsSink(v) <==> g.isOutputPort(v) && forall e :: e in g.edges ==> e.source != v
  {
    if e :| e in g.edges && e.source == v {
      var i :| 0 <= i < |g.edges| && g.edges[i] == e;
      assert g.HasOutEdge(v);
    }
  }

  /** The search along both directions from the edge s -> t. It ends at a sink exactly
      when one is reachable from t without coming back to s. */
  method GetPath(g: Graph, initial: Edge, filter: Filter, selector: Selector)
    returns (path: seq<nat>, ghost visited: seq<nat>, ghost taken: seq<Edge>)
    requires g.Valid() && Picks(selector) && initial in g.edges
    ensures |path| >= 2 && path[0] == initial.source && path[1] == initial.target
    ensures Chain(g, filter, path[1..]) && Distinct(path[1..])
    ensures initial.source != initial.target ==> Distinct(path)
    ensures g.IsSink(path[|path| - 1]) <==> SinkReachable(g, filter, initial.target, initial.source)
    ensures !g.IsSink(path[|path| - 1]) ==> path == [initial.source, initial.target]
    ensures Greedy(g, filter, selector, path, visited, taken) && LeftBehind(g, filter, path, visited)
  {
    var s, t := initial.source, initial.target;
    path := [s, t];
    var seen := [s, t];
    path := Backward(g, filter, path, seen);
    path, visited, taken := Forward(g, filter, selector, s, t, path, seen);
  }

  ghost predicate Trail(g: Graph, filter: Filter, selector: Selector, s: nat, t: nat, path: seq<nat>,
                        visited: seq<nat>, taken: seq<Edge>)
  {
    Searching(g, filter, s, t, path, visited) && Greedy(g, filter, selector, path, visited, taken)
  }

  /** The next vertex of the path: the target of the selector's choice or, without a candidate,
      the vertex before the last; at t the search gives up. */
  method Advance(g: Graph, filter: Filter, selector: Selector, ghost s: nat, t: nat, path: seq<nat>, visited: seq<nat>,
                 ghost taken: seq<Edge>)
    returns (stopped: bool, path': seq<nat>, visited': seq<nat>, ghost taken': seq<Edge>)
    requires g.Valid() && Picks(selector) && Trail(g, filter, selector, s, t, path, visited, taken)
    requires !g.IsSink(path[|path| - 1])
    ensures Trail(g, filter, selector, s, t, path', visited', taken')
    ensures stopped ==> path' == [s, t] && !SinkReachable(g, filter, t, s)
    ensures !stopped ==> |Unvisited(g.vertices, visited')| < |Unvisited(g.vertices, visited)| ||
                         (visited' == visited && |path'| < |path|)
  {
    stopped, path', visited', taken' := false, path, visited, taken;
    var sourceVertex := path[|path| - 1];
    var candidates := OutCandidates(g, filter, visited, sourceVertex);
    if candidates == [] {
      if sourceVertex == t {
        assert path == [s, t];
        GivesUp(g, filter, s, t, visited);
        stopped := true;
      } else {
        Backtracks(g, filter, s, t, path, visited);
        GreedyBacktracks(g, filter, selector, path, visited, taken);
        path', taken' := path[..|path| - 1], taken[..|taken| - 1];
      }
    } else {
      var e := candidates[selector(candidates)];
      CandidatesAre(g.edges, filter, SetOf(visited), sourceVertex, e);
      Extends(g, filter, s, t, path, visited, e);
      GreedyExtends(g, filter, selector, path, visited, taken, e);
      path', visited', taken' := path + [e.target], visited + [e.target], taken + [e];
    }
  }

  lemma TrailEnds(g: Graph, filter: Filter, selector: Selector, s: nat, t: nat, path: seq<nat>, visited: seq<nat>,
                  taken: seq<Edge>)
    requires Trail(g, filter, selector, s, t, path, visited, taken)
    requires g.IsSink(path[|path| - 1]) || (path == [s, t] && !SinkReachable(g, filter, t, s))
    ensures g.IsSink(path[|path| - 1]) <==> SinkReachable(g, filter, t, s)
    ensures LeftBehind(g, filter, path, visited)
  {
    if g.IsSink(path[|path| - 1]) {
      Finds(g, filter, s, t, path, visited);
    }
  }

  /** The forward phase. */
  method Forward(g: Graph, filter: Filter, selector: Selector, s: nat, t: nat, start: seq<nat>, seen: seq<nat>)
    returns (path: seq<nat>, ghost left: seq<nat>, ghost taken: seq<Edge>)
    requires g.Valid() && Picks(selector) && start == [s, t] && seen == [s, t] && s < g.vertices && t < g.vertices
    ensures |path| >= 2 && path[0] == s && path[1] == t
    ensures Chain(g, filter, path[1..]) && Distinct(path[1..])
    ensures forall i :: 2 <= i < |path| ==> path[i] != s
    ensures g.IsSink(path[|path| - 1]) <==> SinkReachable(g, filter, t, s)
    ensures !g.IsSink(path[|path| - 1]) ==> path == [s, t]
    ensures Greedy(g, filter, selector, path, left, taken) && LeftBehind(g, filter, path, left)
  {
    var visited, stopped := seen, false;
    path, taken := start, [];
    while !stopped && (g.HasOutEdge(path[|path| - 1]) || !g.isOutputPort(path[|path| - 1]))
      invariant Trail(g, filter, selector, s, t, path, visited, taken)
      invariant stopped ==> path == [s, t] && !SinkReachable(g, filter, t, s)
      decreases !stopped, |Unvisited(g.vertices, visited)|, |path|
    {
      stopped, path, visited, taken := Advance(g, filter, selector, s, t, path, visited, taken);
    }
    left := visited;
    TrailEnds(g, filter, selector, s, t, path, visited, taken);
  }
}
