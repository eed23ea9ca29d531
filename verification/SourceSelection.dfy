/** How populate_graph chooses the sources of a target among module ports, nets and cell
    ports. */
module SourceSelection {
  import opened PortExpr
  import opened ModuleGraph

  /** s may be attached to t. */
  ghost predicate Eligible(vs: seq<Vertex>, es: seq<Edge>, s: nat, t: nat) {
    s < |vs| && s != t && vs[s].CanDrive() && !NetReach(vs, es, t, s)
  }

  ghost predicate Shares(vs: seq<Vertex>, s: nat, t: nat) {
    s < |vs| && t < |vs| && exists b :: b in Ids(vs[s].Bits()) && b in Ids(vs[t].Bits())
  }

  ghost predicate IsPool(vs: seq<Vertex>, pool: set<nat>) {
    forall s :: s in pool ==> s < |vs| && !vs[s].CellVertex?
  }

  ghost predicate Carried(vs: seq<Vertex>, sources: seq<nat>, b: nat) {
    exists i :: 0 <= i < |sources| && sources[i] < |vs| && b in Ids(vs[sources[i]].Bits())
  }

  /** No eligible vertex of the pool carries the bit. */
  ghost predicate NoneCarries(vs: seq<Vertex>, es: seq<Edge>, pool: set<nat>, t: nat, b: nat) {
    forall s :: s in pool && Eligible(vs, es, s, t) ==> b !in Ids(vs[s].Bits())
  }

  ghost predicate GoodSources(vs: seq<Vertex>, es: seq<Edge>, sources: seq<nat>, t: nat) {
    forall i :: 0 <= i < |sources| ==> Eligible(vs, es, sources[i], t) && Shares(vs, sources[i], t)
  }

  /** Every source carries a bit of the target that no source before it carries. */
  ghost predicate NoneIdle(vs: seq<Vertex>, sources: seq<nat>, t: nat)
    requires t < |vs|
  {
    forall i :: 0 <= i < |sources| ==> BringsBit(vs, sources, t, i)
  }

  ghost predicate BringsBit(vs: seq<Vertex>, sources: seq<nat>, t: nat, i: nat)
    requires t < |vs| && i < |sources|
  {
    exists b :: b in Ids(vs[t].Bits()) && CarriedFirst(vs, sources, i, b)
  }

  ghost predicate CarriedFirst(vs: seq<Vertex>, sources: seq<nat>, i: nat, b: nat)
    requires i < |sources|
  {
    sources[i] < |vs| && b in Ids(vs[sources[i]].Bits()) && !Carried(vs, sources[..i], b)
  }

  lemma NoneIdleMore(vs: seq<Vertex>, sources: seq<nat>, t: nat, s: nat, b: nat)
    requires t < |vs| && NoneIdle(vs, sources, t)
    requires s < |vs| && b in Ids(vs[t].Bits()) && b in Ids(vs[s].Bits()) && !Carried(vs, sources, b)
    ensures NoneIdle(vs, sources + [s], t)
  {
    var more := sources + [s];
    forall i | 0 <= i < |more|
      ensures BringsBit(vs, more, t, i)
    {
      if i < |sources| {
        assert BringsBit(vs, sources, t, i);
        var c :| c in Ids(vs[t].Bits()) && CarriedFirst(vs, sources, i, c);
        assert more[..i] == sources[..i];
        assert CarriedFirst(vs, more, i, c);
      } else {
        assert more[..i] == sources;
        assert CarriedFirst(vs, more, i, b);
      }
    }
  }

  lemma NotCarriedMore(vs: seq<Vertex>, sources: seq<nat>, s: nat, b: nat)
    requires !Carried(vs, sources, b) && s < |vs| && b !in Ids(vs[s].Bits())
    ensures !Carried(vs, sources + [s], b)
  {
    var more := sources + [s];
    assert forall i :: 0 <= i < |more| ==> more[i] == if i < |sources| then sources[i] else s;
  }

  /** Source i comes from the pool and brings a bit that nothing in `before` could bring. */
  ghost predicate Preferred(vs: seq<Vertex>, es: seq<Edge>, sources: seq<nat>, t: nat, i: nat, pool: set<nat>,
                            before: set<nat>)
    requires t < |vs| && i < |sources|
  {
    sources[i] in pool &&
    exists b :: b in Ids(vs[t].Bits()) && CarriedFirst(vs, sources, i, b) && NoneCarries(vs, es, before, t, b)
  }

  ghost predicate AllPreferred(vs: seq<Vertex>, es: seq<Edge>, sources: seq<nat>, t: nat, n: nat, pool: set<nat>,
                               before: set<nat>)
    requires t < |vs|
  {
    forall i :: n <= i < |sources| ==> Preferred(vs, es, sources, t, i, pool, before)
  }

  lemma PreferredMore(vs: seq<Vertex>, es: seq<Edge>, sources: seq<nat>, more: seq<nat>, t: nat, i: nat,
                      pool: set<nat>, before: set<nat>)
    requires t < |vs| && i < |sources| && sources <= more && Preferred(vs, es, sources, t, i, pool, before)
    ensures Preferred(vs, es, more, t, i, pool, before)
  {
    var b :| b in Ids(vs[t].Bits()) && CarriedFirst(vs, sources, i, b) && NoneCarries(vs, es, before, t, b);
    assert more[..i] == sources[..i];
    assert CarriedFirst(vs, more, i, b);
  }

  /** One more source of the pool. */
  lemma PreferredNext(vs: seq<Vertex>, es: seq<Edge>, sources: seq<nat>, n: nat, t: nat, s: nat, left: set<nat>,
                      pool: set<nat>, before: set<nat>)
    requires t < |vs| && s < |vs| && s in pool && AllPreferred(vs, es, sources, t, n, pool, before)
    requires left <= Ids(vs[t].Bits()) && left != {}
    requires vs[s].Bits() == vs[t].Bits() || exists b :: b in Ids(vs[s].Bits()) && b in left
    requires forall b :: b in left ==> !Carried(vs, sources, b) && NoneCarries(vs, es, before, t, b)
    ensures AllPreferred(vs, es, sources + [s], t, n, pool, before)
  {
    var more := sources + [s];
    forall i | n <= i < |more|
      ensures Preferred(vs, es, more, t, i, pool, before)
    {
      if i < |sources| {
        PreferredMore(vs, es, sources, more, t, i, pool, before);
      } else {
        var b :| b in left && b in Ids(vs[s].Bits());
        assert more[..i] == sources;
        assert CarriedFirst(vs, more, i, b);
      }
    }
  }

  /** Some eligible vertex of the pool has exactly the bits of the target. */
  ghost predicate HasExact(vs: seq<Vertex>, es: seq<Edge>, pool: set<nat>, t: nat)
    requires t < |vs|
  {
    exists s :: s in pool && Eligible(vs, es, s, t) && vs[s].Bits() == vs[t].Bits()
  }

  lemma CarriedMore(vs: seq<Vertex>, sources: seq<nat>, s: nat, b: nat)
    requires Carried(vs, sources, b) || (s < |vs| && b in Ids(vs[s].Bits()))
    ensures Carried(vs, sources + [s], b)
  {
    var more := sources + [s];
    if Carried(vs, sources, b) {
      var i :| 0 <= i < |sources| && sources[i] < |vs| && b in Ids(vs[sources[i]].Bits());
      assert more[i] == sources[i];
    } else {
      assert more[|sources|] == s;
    }
  }

  /** Whether two bit sets meet; throws when one of them is empty. */
  method VectorsIntersection(bits1: set<nat>, bits2: set<nat>) returns (thrown: bool, meet: bool)
    ensures thrown <==> bits1 == {} || bits2 == {}
    ensures meet <==> !(bits1 !! bits2)
  {
    thrown, meet := bits1 == {} || bits2 == {}, false;
    if thrown {
      return;
    }
    // any_of, in any order of the first set
    var rest := bits1;
    while rest != {}
      invariant rest <= bits1 && bits1 - rest !! bits2
      decreases |rest|
    {
      var b :| b in rest;
      if b in bits2 {
        meet := true;
        return;
      }
      rest := rest - {b};
    }
  }

  /** A source with exactly the bits of the target, in any order of the pool. */
  method ExactSource(vs: seq<Vertex>, es: seq<Edge>, pool: set<nat>, t: nat, ghost rank: seq<nat>)
    returns (found: seq<nat>)
    requires Ranked(vs, es, rank) && IsPool(vs, pool) && t < |vs| && !vs[t].CellVertex?
    ensures |found| <= 1 && forall s :: s in found ==>
            s in pool && Eligible(vs, es, s, t) && vs[s].Bits() == vs[t].Bits()
    ensures found == [] <==> !HasExact(vs, es, pool, t)
  {
    var rest := pool;
    while rest != {}
      invariant rest <= pool
      invariant forall s :: s in pool - rest && Eligible(vs, es, s, t) ==> vs[s].Bits() != vs[t].Bits()
      decreases |rest|
    {
      var s :| s in rest;
      rest := rest - {s};
      if vs[s].Bits() != vs[t].Bits() {
        continue;
      }
      if s == t {
        continue;
      }
      if vs[s].CellPort? && vs[s].port.direction == Input {
        continue;
      }
      var reachable := SourceReachable(vs, es, s, t, rank);
      if reachable {
        continue;
      }
      found := [s];
      assert found[0] == s;
      return;
    }
    found := [];
  }

  /** One more source: it brings a bit that was missing. */
  lemma AttachOne(vs: seq<Vertex>, es: seq<Edge>, attached: seq<nat>, t: nat, s: nat, missing: set<nat>, left: set<nat>)
    requires t < |vs| && Eligible(vs, es, s, t) && GoodSources(vs, es, attached, t) && NoneIdle(vs, attached, t)
    requires left <= missing <= Ids(vs[t].Bits()) && left != {}
    requires vs[s].Bits() == vs[t].Bits() || exists b :: b in Ids(vs[s].Bits()) && b in left
    requires forall b :: b in missing - left ==> Carried(vs, attached, b)
    requires forall b :: b in left ==> !Carried(vs, attached, b)
    ensures GoodSources(vs, es, attached + [s], t) && NoneIdle(vs, attached + [s], t)
    ensures forall b :: b in missing - (left - Ids(vs[s].Bits())) ==> Carried(vs, attached + [s], b)
    ensures forall b :: b in left - Ids(vs[s].Bits()) ==> !Carried(vs, attached + [s], b)
  {
    var c :| c in left && c in Ids(vs[s].Bits());
    assert Shares(vs, s, t);
    NoneIdleMore(vs, attached, t, s, c);
    forall b | b in missing - (left - Ids(vs[s].Bits()))
      ensures Carried(vs, attached + [s], b)
    {
      CarriedMore(vs, attached, s, b);
    }
    forall b | b in left - Ids(vs[s].Bits())
      ensures !Carried(vs, attached + [s], b)
    {
      NotCarriedMore(vs, attached, s, b);
    }
  }

  /** Attaches every eligible vertex of the pool that carries a bit still missing. */
  method AttachSources(vs: seq<Vertex>, es: seq<Edge>, pool: set<nat>, t: nat, missing: set<nat>, sources: seq<nat>,
                       ghost rank: seq<nat>, ghost before: set<nat>)
    returns (status: Status, left: set<nat>, attached: seq<nat>)
    requires Ranked(vs, es, rank) && IsPool(vs, pool) && t < |vs| && !vs[t].CellVertex?
    requires GoodSources(vs, es, sources, t) && missing <= Ids(vs[t].Bits())
    requires NoneIdle(vs, sources, t)
    requires forall b :: b in missing ==> !Carried(vs, sources, b) && NoneCarries(vs, es, before, t, b)
    ensures status == Done && GoodSources(vs, es, attached, t) && sources <= attached && NoneIdle(vs, attached, t)
    ensures left <= missing && forall b :: b in missing - left ==> Carried(vs, attached, b)
    ensures forall b :: b in left ==> !Carried(vs, attached, b)
    ensures forall b :: b in left ==> NoneCarries(vs, es, before + pool, t, b)
    ensures AllPreferred(vs, es, attached, t, |sources|, pool, before)
  {
    status, left, attached := Done, missing, sources;
    var rest := pool;
    while rest != {}
      invariant rest <= pool && status == Done
      invariant GoodSources(vs, es, attached, t) && sources <= attached && NoneIdle(vs, attached, t)
      invariant left <= missing && forall b :: b in missing - left ==> Carried(vs, attached, b)
      invariant forall b :: b in left ==> !Carried(vs, attached, b) && NoneCarries(vs, es, before + (pool - rest), t, b)
      invariant AllPreferred(vs, es, attached, t, |sources|, pool, before)
      decreases |rest|
    {
      if left == {} {
        break;
      }
      var s :| s in rest;
      rest := rest - {s};
      if s == t {
        continue;
      }
      if vs[s].CellPort? && vs[s].port.direction == Input {
        continue;
      }
      if Ids(vs[s].Bits()) == {} {
        continue;
      }
      var reachable := SourceReachable(vs, es, s, t, rank);
      if reachable {
        continue;
      }
      var hit := vs[s].Bits() == vs[t].Bits();
      if !hit {
        var thrown;
        thrown, hit := VectorsIntersection(Ids(vs[s].Bits()), left);
        if thrown {
          return NoBits, left, attached;
        }
      }
      if hit {
        AttachOne(vs, es, attached, t, s, missing, left);
        PreferredNext(vs, es, attached, |sources|, t, s, left, pool, before);
        attached := attached + [s];
        left := left - Ids(vs[s].Bits());
      }
    }
  }

  lemma CarriedInPrefix(vs: seq<Vertex>, sources: seq<nat>, more: seq<nat>, b: nat)
    requires Carried(vs, sources, b) && sources <= more
    ensures Carried(vs, more, b)
  {
    var i :| 0 <= i < |sources| && sources[i] < |vs| && b in Ids(vs[sources[i]].Bits());
    assert more[i] == sources[i];
  }

  ghost predicate IsExact(vs: seq<Vertex>, sources: seq<nat>, pool: set<nat>, t: nat)
    requires t < |vs|
  {
    |sources| == 1 && sources[0] in pool && sources[0] < |vs| && vs[sources[0]].Bits() == vs[t].Bits()
  }

  lemma ExactSuffices(vs: seq<Vertex>, es: seq<Edge>, sources: seq<nat>, t: nat)
    requires t < |vs| && Ids(vs[t].Bits()) != {} && |sources| == 1 && Eligible(vs, es, sources[0], t)
    requires vs[sources[0]].Bits() == vs[t].Bits()
    ensures GoodSources(vs, es, sources, t) && NoneIdle(vs, sources, t)
    ensures forall b :: b in Ids(vs[t].Bits()) ==> Carried(vs, sources, b)
  {
    var b :| b in Ids(vs[t].Bits());
    assert Shares(vs, sources[0], t);
    assert NoneIdle(vs, [], t);
    NoneIdleMore(vs, [], t, sources[0], b);
    assert [] + [sources[0]] == sources;
  }

  function NetVertices(vs: seq<Vertex>): set<nat> {
    set v: nat | v < |vs| && vs[v].PlainNet?
  }

  function PortVertices(vs: seq<Vertex>): set<nat> {
    set v: nat | v < |vs| && vs[v].PortNet?
  }

  function CellPortVertices(vs: seq<Vertex>): set<nat> {
    set v: nat | v < |vs| && vs[v].CellPort?
  }

  /** The choice of phase three for a target: one source with the same bits if there is one,
      and otherwise, in this order, module ports, nets and cell ports that bring a bit which
      nothing of an earlier kind could bring, until no bit is missing. */
  ghost predicate Selected(vs: seq<Vertex>, es: seq<Edge>, sources: seq<nat>, t: nat)
    requires t < |vs|
  {
    GoodSources(vs, es, sources, t) && NoneIdle(vs, sources, t) && CoversAll(vs, es, sources, t) &&
    if HasExact(vs, es, PortVertices(vs), t) then IsExact(vs, sources, PortVertices(vs), t)
    else if HasExact(vs, es, NetVertices(vs), t) then IsExact(vs, sources, NetVertices(vs), t)
    else if HasExact(vs, es, CellPortVertices(vs), t) then IsExact(vs, sources, CellPortVertices(vs), t)
    else InOrder(vs, es, sources, t)
  }

  ghost predicate CoversAll(vs: seq<Vertex>, es: seq<Edge>, sources: seq<nat>, t: nat)
    requires t < |vs|
  {
    forall b :: b in Ids(vs[t].Bits()) ==>
      Carried(vs, sources, b) ||
      NoneCarries(vs, es, PortVertices(vs) + NetVertices(vs) + CellPortVertices(vs), t, b)
  }

  ghost predicate InOrder(vs: seq<Vertex>, es: seq<Edge>, sources: seq<nat>, t: nat)
    requires t < |vs|
  {
    exists n, m :: 0 <= n <= m <= |sources| && OrderedAt(vs, es, sources, t, n, m)
  }

  ghost predicate OrderedAt(vs: seq<Vertex>, es: seq<Edge>, sources: seq<nat>, t: nat, n: nat, m: nat)
    requires t < |vs| && n <= m <= |sources|
  {
    AllPreferred(vs, es, sources[..n], t, 0, PortVertices(vs), {}) &&
    AllPreferred(vs, es, sources[..m], t, n, NetVertices(vs), PortVertices(vs)) &&
    AllPreferred(vs, es, sources, t, m, CellPortVertices(vs), PortVertices(vs) + NetVertices(vs))
  }

  lemma PoolsAre(vs: seq<Vertex>)
    ensures IsPool(vs, PortVertices(vs) + NetVertices(vs) + CellPortVertices(vs))
    ensures forall s :: 0 <= s < |vs| && !vs[s].CellVertex? ==>
            s in PortVertices(vs) + NetVertices(vs) + CellPortVertices(vs)
  {
  }

  /** All sources of a target. */
  method SelectSources(vs: seq<Vertex>, es: seq<Edge>, ports: set<nat>, nets: set<nat>, cellPorts: set<nat>, t: nat,
                       ghost rank: seq<nat>)
    returns (status: Status, sources: seq<nat>)
    requires Ranked(vs, es, rank) && t < |vs| && !vs[t].CellVertex? && Ids(vs[t].Bits()) != {}
    requires ports == PortVertices(vs) && nets == NetVertices(vs) && cellPorts == CellPortVertices(vs)
    ensures status == Done && Selected(vs, es, sources, t)
  {
    PoolsAre(vs);
    status := Done;
    sources := ExactSource(vs, es, ports, t, rank);
    if sources == [] {
      sources := ExactSource(vs, es, nets, t, rank);
    }
    if sources == [] {
      sources := ExactSource(vs, es, cellPorts, t, rank);
    }
    if sources != [] {
      assert sources[0] in sources;
      ExactSuffices(vs, es, sources, t);
      return;
    }
    var missing, left, byPorts, byNets := Ids(vs[t].Bits()), {}, [], [];
    status, left, byPorts := AttachSources(vs, es, ports, t, missing, sources, rank, {});
    assert {} + ports == ports;
    ghost var left1 := left;
    status, left, byNets := AttachSources(vs, es, nets, t, left, byPorts, rank, ports);
    ghost var left2 := left;
    status, left, sources := AttachSources(vs, es, cellPorts, t, left, byNets, rank, ports + nets);
    assert sources[..|byPorts|] == byPorts && sources[..|byNets|] == byNets;
    assert OrderedAt(vs, es, sources, t, |byPorts|, |byNets|);
    forall b | b in missing
      ensures Carried(vs, sources, b) || NoneCarries(vs, es, ports + nets + cellPorts, t, b)
    {
      if b !in left1 {
        CarriedInPrefix(vs, byPorts, sources, b);
      } else if b !in left2 {
        CarriedInPrefix(vs, byNets, sources, b);
      }
    }
  }
}
