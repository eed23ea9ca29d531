/** What one vertex adds to a step of the unrolled instance, constructor by constructor, and
    the positions that it drives. */
module VertexRules {
  import opened Bitvectors
  import opened Cells
  import opened PortExpr
  import opened Unroll
  import opened UnrollProof
  import opened Simulation
  import InstanceEdges

  // ----- constraints -----

  predicate Register(k: Kind) {
    k.Dff? || k.Dffe? || k.Adff? || k.Adffe? || k.Dffsr? || k.Dffsre?
  }

  /** The expression of a port that is read from the nets of the in-edges; a port of constants
      does not look at them. */
  function ReadFrom(nets: seq<Net>, constants: set<Bit>, bits: seq<Bit>): Expr {
    Reassembled(if exists i :: 0 <= i < |bits| && bits[i].Id? then nets else [], constants, bits)
  }

  /** No port before port k has its name. */
  predicate FirstOfName(ports: seq<Port>, k: nat) {
    k < |ports| && forall j :: 0 <= j < k ==> ports[j].name != ports[k].name
  }

  /** The port map has the expression of the first input port of every name. */
  ghost predicate ReadsPorts(ins: seq<Port>, nets: seq<Net>, portMap: map<PortName, Expr>) {
    (forall p :: p in portMap ==> exists k: nat :: FirstOfName(ins, k) && ins[k].name == p) &&
    forall k: nat :: FirstOfName(ins, k) ==>
      ins[k].name in portMap &&
      portMap[ins[k].name] == ReadFrom(nets, {Const1, Const0, ConstX, ConstZ}, ins[k].bits)
  }

  lemma {:induction false} FirstExists(ports: seq<Port>, i: nat) returns (k: nat)
    requires i < |ports|
    ensures k <= i && FirstOfName(ports, k) && ports[k].name == ports[i].name
  {
    if j :| 0 <= j < i && ports[j].name == ports[i].name {
      k := FirstExists(ports, j);
    } else {
      k := i;
    }
  }

  lemma ReadFromIs(vx: Vertex, bits: seq<Bit>)
    requires !vx.TopInput?
    ensures vx.InExpr(bits) ==
            ReadFrom(vx.inNets, {Const1, Const0, ConstX} + if vx.CellVertex? then {ConstZ} else {}, bits)
  {
    assert HasNonConstant(bits) <==> exists i :: 0 <= i < |bits| && bits[i].Id?;
    assert CELL_CONSTANTS == {Const1, Const0, ConstX} + {ConstZ};
    assert MODULE_CONSTANTS == {Const1, Const0, ConstX} + {};
  }

  lemma PortMapIs(vx: Vertex)
    requires vx.CellVertex?
    ensures ReadsPorts(vx.ins, vx.inNets, vx.InMap())
  {
    forall p | p in vx.InMap()
      ensures exists k: nat :: FirstOfName(vx.ins, k) && vx.ins[k].name == p
    {
      var i :| 0 <= i < |vx.ins| && vx.ins[i].name == p;
      var k := FirstExists(vx.ins, i);
    }
    forall k: nat | FirstOfName(vx.ins, k)
      ensures vx.ins[k].name in vx.InMap()
      ensures vx.InMap()[vx.ins[k].name] == ReadFrom(vx.inNets, {Const1, Const0, ConstX, ConstZ}, vx.ins[k].bits)
    {
      PortFirst(vx.ins, k);
      ReadFromIs(vx, vx.ins[k].bits);
      assert {Const1, Const0, ConstX} + {ConstZ} == {Const1, Const0, ConstX, ConstZ};
    }
  }

  /** A cell whose output nobody reads adds nothing, and neither does a register at step 0. Every
      other cell adds one constraint: its operator on the inputs of this step, or of the step
      before for a register, and its output at this step. */
  lemma CellRule(kind: Kind, ins: seq<Port>, out: seq<Bit>, inNets: seq<Net>, outNets: seq<Net>, t: nat)
    ensures var cs := VertexConstraints(CellVertex(kind, ins, out, inNets, outNets), t);
            if outNets == [] || (Register(kind) && t == 0) then cs == []
            else |cs| == 1 && cs[0].CellConstraint? && cs[0].kind == kind && ReadsPorts(ins, inNets, cs[0].ins) &&
                 cs[0].inTime == (if Register(kind) then t - 1 else t) &&
                 cs[0].out == Reassembled(outNets, {}, out) && cs[0].outTime == t
  {
    PortMapIs(CellVertex(kind, ins, out, inNets, outNets));
  }

  /** The port of a submodule adds nothing when the nets on the side of its direction are
      missing, and nothing when both sides are the same expression; otherwise the word on the
      far side equals the word on the near side. */
  lemma ModulePortRule(isInput: bool, inBits: seq<Bit>, outBits: seq<Bit>, inNets: seq<Net>, outNets: seq<Net>, t: nat)
    ensures var cs := VertexConstraints(ModulePort(isInput, inBits, outBits, inNets, outNets), t);
            var succ, pred := Reassembled(outNets, {}, outBits), ReadFrom(inNets, {Const1, Const0, ConstX}, inBits);
            if (if isInput then outNets == [] else inNets == []) || succ == pred then cs == []
            else cs == [Connect(succ, pred, t)]
  {
    var vx := ModulePort(isInput, inBits, outBits, inNets, outNets);
    ReadFromIs(vx, inBits);
    assert {Const1, Const0, ConstX} + {} == {Const1, Const0, ConstX};
  }

  /** A primary input whose nets are read is the signal of its own name. */
  lemma TopInputRule(name: Name, bits: seq<Bit>, outNets: seq<Net>, t: nat)
    ensures var cs := VertexConstraints(TopInput(name, bits, outNets), t);
            var succ, pred := Reassembled(outNets, {}, bits), Whole(name, |bits|);
            if outNets == [] || succ == pred then cs == [] else cs == [Connect(succ, pred, t)]
  {
  }

  /** A primary output that is connected names a signal of its own for what it reads. */
  lemma TopOutputRule(name: Name, bits: seq<Bit>, inNets: seq<Net>, t: nat)
    ensures var cs := VertexConstraints(TopOutput(name, bits, inNets), t);
            var succ, pred := Whole(name, |bits|), ReadFrom(inNets, {Const1, Const0, ConstX}, bits);
            if inNets == [] || succ == pred then cs == [] else cs == [Connect(succ, pred, t)]
  {
    ReadFromIs(TopOutput(name, bits, inNets), bits);
    assert {Const1, Const0, ConstX} + {} == {Const1, Const0, ConstX};
  }

  // ----- signals -----

  ghost predicate OnInEdge(vx: Vertex, net: Net) {
    !vx.TopInput? && net in vx.inNets
  }

  ghost predicate OnOutEdge(vx: Vertex, net: Net) {
    !vx.TopOutput? && net in vx.outNets
  }

  /** The signal of a top port that has an edge. */
  ghost predicate OfTopPort(vx: Vertex, net: Net) {
    (vx.TopInput? && vx.outNets != [] && net == Net(vx.name, vx.bits)) ||
    (vx.TopOutput? && vx.inNets != [] && net == Net(vx.name, vx.bits))
  }

  /** The signals of a step are the nets of all edges and the connected top ports. */
  lemma SignalsIff(d: Design, net: Net)
    ensures OnEdge(d, net) <==> exists vi :: 0 <= vi < |d| && (OnInEdge(d[vi], net) || OnOutEdge(d[vi], net))
    ensures IsNet(d, net) <==>
            exists vi :: 0 <= vi < |d| && (OnInEdge(d[vi], net) || OnOutEdge(d[vi], net) || OfTopPort(d[vi], net))
  {
    forall vi | 0 <= vi < |d|
      ensures net in d[vi].EdgesIn() || net in d[vi].EdgesOut() <==> OnInEdge(d[vi], net) || OnOutEdge(d[vi], net)
      ensures net in VertexNets(d[vi]) <==>
              OnInEdge(d[vi], net) || OnOutEdge(d[vi], net) || OfTopPort(d[vi], net)
    {
    }
  }

  // ----- edges -----

  /** The bits that a vertex sends: the output of a cell, the far side of a submodule port, a
      primary input; a primary output sends none. */
  predicate SendsBit(vx: Vertex, id: nat) {
    match vx
    case CellVertex(_, _, out, _, _) => Id(id) in out
    case ModulePort(_, _, outBits, _, _) => Id(id) in outBits
    case TopInput(_, bits, _) => Id(id) in bits
    case TopOutput(_, _, _) => false
  }

  /** The bits that a vertex reads at one of its ports. */
  predicate ReadsBit(vx: Vertex, port: nat, id: nat) {
    match vx
    case CellVertex(_, ins, _, _, _) => port < |ins| && Id(id) in ins[port].bits
    case ModulePort(_, inBits, _, _, _) => port == 0 && Id(id) in inBits
    case TopInput(_, _, _) => false
    case TopOutput(_, bits, _) => port == 0 && Id(id) in bits
  }

  /** An edge joins an output to a port exactly when some bit id is sent there and read here. */
  lemma EdgeIff(d: Design, e: InstanceEdges.Edge)
    ensures InstanceEdges.IsEdge(d, e) <==>
            e.source < |d| && e.target < |d| &&
            exists id: nat :: SendsBit(d[e.source], id) && ReadsBit(d[e.target], e.port, id)
  {
    if e.source < |d| && e.target < |d| {
      if InstanceEdges.IsEdge(d, e) {
        SharedBit(d, e);
      }
      if id: nat :| SendsBit(d[e.source], id) && ReadsBit(d[e.target], e.port, id) {
        var sent := InstanceEdges.Sent(d[e.source]);
        var i :| 0 <= i < |sent| && sent[i] == Id(id);
        assert Intersects(sent, InstanceEdges.PortAt(d, e.target, e.port));
      }
    }
  }

  lemma SharedBit(d: Design, e: InstanceEdges.Edge)
    requires InstanceEdges.IsEdge(d, e)
    ensures exists id: nat :: SendsBit(d[e.source], id) && ReadsBit(d[e.target], e.port, id)
  {
    var sent, read := InstanceEdges.Sent(d[e.source]), InstanceEdges.PortAt(d, e.target, e.port);
    var i :| 0 <= i < |sent| && !sent[i].IsConstant() && sent[i] in read;
    assert sent[i] == Id(sent[i].id);
    assert SendsBit(d[e.source], sent[i].id) && ReadsBit(d[e.target], e.port, sent[i].id);
  }

  // ----- driven positions -----

  /** The word that the constraint of a vertex is about. */
  function Written(vx: Vertex): Expr {
    match vx
    case CellVertex(_, _, out, _, outNets) => Reassembled(outNets, {}, out)
    case ModulePort(_, _, outBits, _, outNets) => Reassembled(outNets, {}, outBits)
    case TopInput(_, bits, outNets) => Reassembled(outNets, {}, bits)
    case TopOutput(name, bits, _) => Whole(name, |bits|)
  }

  /** The vertex has an edge on the side that matters to it, and is not a port both of whose
      sides are one expression. */
  predicate Writes(vx: Vertex) {
    match vx
    case CellVertex(_, _, _, _, outNets) => outNets != []
    case ModulePort(isInput, inBits, outBits, inNets, outNets) =>
      (if isInput then outNets != [] else inNets != []) &&
      Reassembled(outNets, {}, outBits) != ReadFrom(inNets, {Const1, Const0, ConstX}, inBits)
    case TopInput(_, _, outNets) => outNets != []
    case TopOutput(name, bits, inNets) =>
      inNets != [] && Whole(name, |bits|) != ReadFrom(inNets, {Const1, Const0, ConstX}, bits)
  }

  /** Every position that the word of such a vertex picks is driven. */
  lemma WrittenIsDriven(d: Design, vi: nat, i: nat, name: Name, j: nat)
    requires vi < |d| && Writes(d[vi])
    requires i < |Pieces(Written(d[vi]))| && Pieces(Written(d[vi]))[i] == Slice(name, j)
    ensures SlotDriven(d, name, j)
  {
    var vx := d[vi];
    assert vx.OutExpr() == Written(vx);
    assert {Const1, Const0, ConstX} + {} == {Const1, Const0, ConstX};
    if !vx.TopInput? && !vx.CellVertex? {
      ReadFromIs(vx, vx.Ins()[0].bits);
    }
    if vx.TopInput? && vx.Trivial() {
      assert vx.OutExpr() == Whole(vx.name, |vx.bits|);
      assert IsInput(d, name);
    } else {
      assert Defines(d, vi, i, (name, j));
    }
  }
}
