/** The wiring of the exported Verilog: one group of assigns for every wire of the
    module graph, and what they mean. */
module Wiring {
  import opened PortExpr
  import opened ModuleGraph
  import opened PopulatePhases

  /** A word, or one bit of it. */
  datatype Ref = Word(name: Name) | Select(name: Name, index: nat)

  datatype Assign = Assign(target: Ref, source: Ref)

  /** A named signal with the ids of its bits. */
  datatype Signal = Signal(name: Name, bits: seq<Bit>)

  function TargetRef(s: Signal, i: nat): Ref {
    if |s.bits| > 1 then Select(s.name, i) else Word(s.name)
  }

  function SourceRef(s: Signal, i: nat): Ref {
    if |s.bits| == 1 then Word(s.name) else Select(s.name, i)
  }

  /** Bit i of the target and bit j of the source are the same non-constant bit. */
  predicate Joined(source: Signal, target: Signal, i: nat, j: nat) {
    i < |target.bits| && j < |source.bits| && !target.bits[i].IsConstant() && target.bits[i] == source.bits[j]
  }

  predicate Emitted(source: Signal, target: Signal, a: Assign) {
    if source.bits == target.bits then a == Assign(Word(target.name), Word(source.name))
    else exists i: nat, j: nat :: i < |target.bits| && j < |source.bits| && Joined(source, target, i, j) &&
                                  a == Assign(TargetRef(target, i), SourceRef(source, j))
  }

  /** Equal words are assigned as words, otherwise every pair of equal bits is. */
  method ExportConnection(source: Signal, target: Signal) returns (assigns: seq<Assign>)
    ensures forall a :: a in assigns <==> Emitted(source, target, a)
  {
    if source.bits == target.bits {
      return [Assign(Word(target.name), Word(source.name))];
    }
    assigns := [];
    for i := 0 to |target.bits|
      invariant forall a :: a in assigns <==>
                  exists k: nat, j: nat :: k < i && j < |source.bits| && Joined(source, target, k, j) &&
                                           a == Assign(TargetRef(target, k), SourceRef(source, j))
    {
      if !target.bits[i].IsConstant() {
        var assignment := TargetRef(target, i);
        for j := 0 to |source.bits|
          invariant forall a :: a in assigns <==>
                      exists k: nat, m: nat ::
                        (k < i || (k == i && m < j)) && k < |target.bits| && m < |source.bits| &&
                          Joined(source, target, k, m) &&
                        a == Assign(TargetRef(target, k), SourceRef(source, m))
        {
          if target.bits[i] == source.bits[j] {
            assert Joined(source, target, i, j);
            assigns := assigns + [Assign(assignment, SourceRef(source, j))];
          }
        }
      }
    }
  }

  /** A reference that Verilog accepts: a word of one bit has no bit select. */
  predicate Legal(s: Signal, r: Ref) {
    r.name == s.name && (r.Select? ==> |s.bits| > 1 && r.index < |s.bits|)
  }

  lemma EmittedIsLegal(source: Signal, target: Signal, a: Assign)
    requires Emitted(source, target, a)
    ensures Legal(target, a.target) && Legal(source, a.source)
    ensures source.bits == target.bits ==> a == Assign(Word(target.name), Word(source.name))
  {
    if source.bits != target.bits {
      var i: nat, j: nat :| i < |target.bits| && j < |source.bits| && Joined(source, target, i, j) &&
                            a == Assign(TargetRef(target, i), SourceRef(source, j));
    }
  }

  /** Bit i of one word is assigned from bit j of another exactly when both are the same bit
      and that is no constant. */
  lemma EmittedBitIff(source: Signal, target: Signal, i: nat, j: nat, a: Assign)
    requires source.bits != target.bits && i < |target.bits| && j < |source.bits|
    requires a.target == if |target.bits| == 1 then Word(target.name) else Select(target.name, i)
    requires a.source == if |source.bits| == 1 then Word(source.name) else Select(source.name, j)
    ensures Emitted(source, target, a) <==> target.bits[i].Id? && source.bits[j] == target.bits[i]
  {
    if target.bits[i].Id? && source.bits[j] == target.bits[i] {
      assert Joined(source, target, i, j);
      assert a == Assign(TargetRef(target, i), SourceRef(source, j));
    }
  }

  // ----- meaning of the assigns -----

  type Env = Name -> seq<bool>

  function RefValue(env: Env, r: Ref): seq<bool> {
    match r
    case Word(n) => env(n)
    case Select(n, i) => if i < |env(n)| then [env(n)[i]] else []
  }

  /** A continuous assignment keeps its two sides equal. */
  predicate Holds(env: Env, a: Assign) {
    RefValue(env, a.target) == RefValue(env, a.source)
  }

  ghost predicate ConnectionHolds(env: Env, source: Signal, target: Signal) {
    forall a :: Emitted(source, target, a) ==> Holds(env, a)
  }

  predicate Sized(env: Env, s: Signal) {
    |env(s.name)| == |s.bits|
  }

  /** Every bit of the signal has the value of its own bit id. */
  predicate Faithful(env: Env, val: Bit -> bool, s: Signal) {
    Sized(env, s) && forall i :: 0 <= i < |s.bits| ==> env(s.name)[i] == val(s.bits[i])
  }

  lemma RefOfBit(env: Env, s: Signal, i: nat)
    requires Sized(env, s) && i < |s.bits|
    ensures RefValue(env, TargetRef(s, i)) == [env(s.name)[i]] == RefValue(env, SourceRef(s, i))
  {
  }

  /** The assigns of a connection never contradict the bit ids: giving every bit the
      value of its id satisfies all of them, repeated ones included. */
  lemma FaithfulHolds(env: Env, val: Bit -> bool, source: Signal, target: Signal)
    requires Faithful(env, val, source) && Faithful(env, val, target)
    ensures ConnectionHolds(env, source, target)
  {
    forall a | Emitted(source, target, a)
      ensures Holds(env, a)
    {
      if source.bits == target.bits {
        assert env(source.name) == env(target.name);
      } else {
        var i: nat, j: nat :| i < |target.bits| && j < |source.bits| && Joined(source, target, i, j) &&
                              a == Assign(TargetRef(target, i), SourceRef(source, j));
        RefOfBit(env, target, i);
        RefOfBit(env, source, j);
      }
    }
  }

  /** Wherever the connection holds, equal bits have equal values. */
  lemma ConnectionJoins(env: Env, source: Signal, target: Signal, i: nat, j: nat)
    requires ConnectionHolds(env, source, target) && Sized(env, source) && Sized(env, target)
    requires Joined(source, target, i, j)
    ensures source.bits != target.bits ==> env(target.name)[i] == env(source.name)[j]
    ensures source.bits == target.bits ==> env(target.name)[i] == env(source.name)[i]
  {
    if source.bits == target.bits {
      assert Emitted(source, target, Assign(Word(target.name), Word(source.name)));
    } else {
      var a := Assign(TargetRef(target, i), SourceRef(source, j));
      assert Emitted(source, target, a);
      assert Holds(env, a);
      RefOfBit(env, target, i);
      RefOfBit(env, source, j);
    }
  }

  // ----- the wiring of a module -----

  function SignalOf(vs: seq<Vertex>, names: seq<Name>, v: nat): Signal
    requires v < |vs| == |names|
  {
    Signal(names[v], vs[v].Bits())
  }

  predicate IsSourceEdge(vs: seq<Vertex>, e: Edge, t: nat) {
    e.target == t && e.source < |vs| && !vs[e.source].CellVertex?
  }

  /** The edges to a target that do not come from a cell, in edge order. */
  ghost predicate SourceEdges(vs: seq<Vertex>, es: seq<Edge>, t: nat, order: seq<nat>) {
    (forall i, j :: 0 <= i < j < |order| ==> order[i] < order[j]) &&
    forall n: nat :: n in order <==> n < |es| && IsSourceEdge(vs, es[n], t)
  }

  /** The assigns are those of all wires to the target. */
  ghost predicate AssignsTo(vs: seq<Vertex>, es: seq<Edge>, names: seq<Name>, t: nat, assigns: seq<Assign>)
    requires InRange(vs, es) && t < |vs| == |names|
  {
    forall a :: a in assigns <==>
      exists e :: e in es && IsSourceEdge(vs, e, t) &&
                  Emitted(SignalOf(vs, names, e.source), SignalOf(vs, names, t), a)
  }

  /** One tag for every source edge: the name of its source, in edge order. */
  ghost predicate TagsTo(vs: seq<Vertex>, es: seq<Edge>, names: seq<Name>, t: nat, tags: seq<Name>, order: seq<nat>)
    requires InRange(vs, es) && t < |vs| == |names|
  {
    SourceEdges(vs, es, t, order) && |tags| == |order| &&
    forall k :: 0 <= k < |tags| ==> order[k] < |es| && tags[k] == names[es[order[k]].source]
  }

  lemma NoTags(vs: seq<Vertex>, es: seq<Edge>, names: seq<Name>, t: nat, n: nat)
    requires InRange(vs, es) && t < |vs| == |names| && n < |es| && !IsSourceEdge(vs, es[n], t)
    ensures forall assigns :: AssignsTo(vs, es[..n], names, t, assigns) ==>
              AssignsTo(vs, es[..n + 1], names, t, assigns)
    ensures forall tags, order :: TagsTo(vs, es[..n], names, t, tags, order) ==>
              TagsTo(vs, es[..n + 1], names, t, tags, order)
  {
    assert es[..n + 1] == es[..n] + [es[n]];
  }

  lemma MoreAssigns(vs: seq<Vertex>, es: seq<Edge>, names: seq<Name>, t: nat, n: nat, assigns: seq<Assign>,
                    more: seq<Assign>)
    requires InRange(vs, es) && t < |vs| == |names| && n < |es| && IsSourceEdge(vs, es[n], t)
    requires AssignsTo(vs, es[..n], names, t, assigns)
    requires forall a :: a in more <==> Emitted(SignalOf(vs, names, es[n].source), SignalOf(vs, names, t), a)
    ensures AssignsTo(vs, es[..n + 1], names, t, assigns + more)
  {
    assert es[..n + 1] == es[..n] + [es[n]];
    forall a
      ensures a in assigns + more <==>
              exists e :: e in es[..n + 1] && IsSourceEdge(vs, e, t) &&
                          Emitted(SignalOf(vs, names, e.source), SignalOf(vs, names, t), a)
    {
      if a in more {
        assert es[n] in es[..n + 1];
      }
    }
  }

  lemma MoreTags(vs: seq<Vertex>, es: seq<Edge>, names: seq<Name>, t: nat, n: nat, tags: seq<Name>, order: seq<nat>)
    requires InRange(vs, es) && t < |vs| == |names| && n < |es| && IsSourceEdge(vs, es[n], t)
    requires TagsTo(vs, es[..n], names, t, tags, order)
    ensures TagsTo(vs, es[..n + 1], names, t, tags + [names[es[n].source]], order + [n])
  {
    assert es[..n + 1] == es[..n] + [es[n]];
    assert forall k: nat :: k < |order| ==> order[k] in order;
  }

  /** The assigns of one target, and the tags that are joined into its tag. */
  method ExportTarget(vs: seq<Vertex>, es: seq<Edge>, names: seq<Name>, t: nat)
    returns (assigns: seq<Assign>, tags: seq<Name>, ghost order: seq<nat>)
    requires InRange(vs, es) && t < |vs| == |names| && !vs[t].CellVertex?
    ensures AssignsTo(vs, es, names, t, assigns) && TagsTo(vs, es, names, t, tags, order)
  {
    assigns, tags, order := [], [], [];
    for n := 0 to |es|
      invariant AssignsTo(vs, es[..n], names, t, assigns) && TagsTo(vs, es[..n], names, t, tags, order)
    {
      var source := es[n].source;
      if es[n].target == t && !vs[source].CellVertex? {
        var more := ExportConnection(SignalOf(vs, names, source), SignalOf(vs, names, t));
        MoreAssigns(vs, es, names, t, n, assigns, more);
        MoreTags(vs, es, names, t, n, tags, order);
        assigns := assigns + more;
        tags := tags + [names[source]];
        order := order + [n];
      } else {
        NoTags(vs, es, names, t, n);
      }
    }
    assert es[..|es|] == es;
  }

  /** All assigns of the module hold. */
  ghost predicate WiringHolds(vs: seq<Vertex>, es: seq<Edge>, names: seq<Name>, env: Env)
    requires |vs| == |names|
  {
    forall e :: e in es && IsWire(vs, e) ==>
      ConnectionHolds(env, SignalOf(vs, names, e.source), SignalOf(vs, names, e.target))
  }

  /** A vertex that no wire leads to: a module input, the output of a cell or constants. */
  ghost predicate IsRoot(vs: seq<Vertex>, es: seq<Edge>, v: nat) {
    v < |vs| && vs[v].CanDrive() && forall e :: e in es && IsWire(vs, e) ==> e.target != v
  }

  ghost predicate RootsFaithful(vs: seq<Vertex>, es: seq<Edge>, names: seq<Name>, env: Env, val: Bit -> bool)
    requires |vs| == |names|
  {
    forall v: nat :: IsRoot(vs, es, v) ==> Faithful(env, val, SignalOf(vs, names, v))
  }

  ghost predicate AllSized(vs: seq<Vertex>, names: seq<Name>, env: Env)
    requires |vs| == |names|
  {
    forall v :: 0 <= v < |vs| && !vs[v].CellVertex? ==> Sized(env, SignalOf(vs, names, v))
  }

  /** Nothing but itself reaches a root. */
  lemma RootUnreached(vs: seq<Vertex>, es: seq<Edge>, rank: seq<nat>, t: nat, r: nat)
    requires Ranked(vs, es, rank) && IsRoot(vs, es, r) && t != r && t < |vs| && !vs[t].CellVertex?
    ensures !NetReach(vs, es, t, r)
  {
    if NetReach(vs, es, t, r) {
      var p: seq<nat> :| NetPath(vs, es, p, t, r);
      var n := |p| - 1;
      var e := Edge(p[n - 1], p[n]);
      assert e in es && e.target == r;
      assert IsWire(vs, e) by {
        if n - 1 > 0 {
          assert vs[p[n - 1]].IsNet();
        }
      }
    }
  }

  /** A bit that a root carries reaches every other vertex that has it over a wire. */
  lemma WireForBit(vs: seq<Vertex>, es: seq<Edge>, seeded: nat, rank: seq<nat>, t: nat, b: nat, r: nat)
    returns (e: Edge)
    requires Populated(vs, es, seeded, rank) && t < |vs| && !vs[t].CellVertex? && b in Ids(vs[t].Bits())
    requires IsRoot(vs, es, r) && b in Ids(vs[r].Bits()) && t != r && !IsRoot(vs, es, t)
    ensures e in es && IsWire(vs, e) && e.target == t && b in Ids(vs[e.source].Bits())
  {
    if LeftAlone(vs, es[..seeded], t) {
      assert vs[t].CanDrive() by {
        if HasSource(es[..seeded], t) {
          var k :| 0 <= k < |es[..seeded]| && es[..seeded][k].target == t;
          assert es[..seeded][k] == es[k];
        }
      }
      var w :| w in es && IsWire(vs, w) && w.target == t;
      var m :| 0 <= m < |es| && es[m] == w;
      assert m < seeded;
      assert IsPortEdge(vs, w);
      e := w;
    } else {
      assert Settled(vs, es, t, b);
      RootUnreached(vs, es, rank, t, r);
      assert Driven(vs, es, t, b);
      var s: nat :| s < |vs| && Edge(s, t) in es && b in Ids(vs[s].Bits());
      e := Edge(s, t);
    }
  }

  ghost predicate CarriedByRoot(vs: seq<Vertex>, es: seq<Edge>, b: nat) {
    exists r: nat :: IsRoot(vs, es, r) && b in Ids(vs[r].Bits())
  }

  /** Along the acyclic wiring every bit whose id some root carries has the value of
      its own id, whatever else is connected and however often it is assigned. */
  lemma {:induction false} WiringIsFaithful(vs: seq<Vertex>, es: seq<Edge>, seeded: nat, rank: seq<nat>,
                                            names: seq<Name>, env: Env, val: Bit -> bool, t: nat, i: nat)
    requires Populated(vs, es, seeded, rank) && |vs| == |names|
    requires AllSized(vs, names, env) && WiringHolds(vs, es, names, env) && RootsFaithful(vs, es, names, env, val)
    requires t < |vs| && !vs[t].CellVertex? && i < |vs[t].Bits()| && vs[t].Bits()[i].Id?
    requires CarriedByRoot(vs, es, vs[t].Bits()[i].id)
    ensures i < |env(names[t])| && env(names[t])[i] == val(vs[t].Bits()[i])
    decreases rank[t]
  {
    var target := SignalOf(vs, names, t);
    assert Sized(env, target);
    if IsRoot(vs, es, t) {
      assert Faithful(env, val, target);
    } else {
      var b := vs[t].Bits()[i].id;
      var r: nat :| IsRoot(vs, es, r) && b in Ids(vs[r].Bits());
      var e := WireForBit(vs, es, seeded, rank, t, b, r);
      var source := SignalOf(vs, names, e.source);
      assert Sized(env, source);
      var j :| 0 <= j < |source.bits| && source.bits[j] == Id(b);
      ConnectionJoins(env, source, target, i, j);
      if source.bits == target.bits {
        WiringIsFaithful(vs, es, seeded, rank, names, env, val, e.source, i);
      } else {
        WiringIsFaithful(vs, es, seeded, rank, names, env, val, e.source, j);
      }
    }
  }

  /** Conversely the assigns of a module never disagree: the values of the bit ids
      satisfy them all. */
  lemma WiringIsConsistent(vs: seq<Vertex>, es: seq<Edge>, names: seq<Name>, env: Env, val: Bit -> bool)
    requires |vs| == |names| && InRange(vs, es)
    requires forall v :: 0 <= v < |vs| && !vs[v].CellVertex? ==> Faithful(env, val, SignalOf(vs, names, v))
    ensures WiringHolds(vs, es, names, env)
  {
    forall e | e in es && IsWire(vs, e)
      ensures ConnectionHolds(env, SignalOf(vs, names, e.source), SignalOf(vs, names, e.target))
    {
      FaithfulHolds(env, val, SignalOf(vs, names, e.source), SignalOf(vs, names, e.target));
    }
  }
}
