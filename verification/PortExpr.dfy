/** How the SMT export rebuilds the word at a cell port from the nets on the
    edges of the instantiation graph: the bits of the port are looked up in the
    nets, and the pieces found are sorted and concatenated. */
module PortExpr {
  import opened Bitvectors

  /** A bit of a net or port: a constant or the id that its driver and readers share. */
  datatype Bit = Const0 | Const1 | ConstX | ConstZ | Id(id: nat)
  {
    predicate IsConstant() {
      !Id?
    }
  }

  type Name = string

  /** The net an edge carries. Its name identifies one SMT variable per time step. */
  datatype Net = Net(name: Name, bits: seq<Bit>)

  /** One bit of an SMT expression. */
  datatype Piece =
    | Literal(value: bool)
    | FreeX
    | FreeZ
    | Slice(name: Name, index: nat)

  /** An SMT expression at one time step; a concatenation lists its most
      significant part first. */
  datatype Expr =
    | Whole(name: Name, width: nat)
    | Concat(parts: seq<Piece>)

  /** A value for every SMT variable: the signals at each time step, and x and z. */
  datatype Assignment = Assignment(vars: (Name, nat) -> Bv, x: bool, z: bool)

  datatype Outcome<+T> = Ok(value: T) | Absent | NoPieces | EmptyBits | NoSignal

  // ----- meaning of expressions -----

  function PieceValue(a: Assignment, t: nat, p: Piece): bool {
    match p
    case Literal(v) => v
    case FreeX => a.x
    case FreeZ => a.z
    case Slice(n, i) => i < |a.vars(n, t)| && a.vars(n, t)[i]
  }

  /** The pieces of an expression, least significant first. */
  function Pieces(e: Expr): seq<Piece> {
    match e
    case Whole(n, w) => seq(w, i requires 0 <= i < w => Slice(n, i))
    case Concat(parts) => seq(|parts|, i requires 0 <= i < |parts| => parts[|parts| - 1 - i])
  }

  function PiecesValue(a: Assignment, t: nat, ps: seq<Piece>): (b: Bv)
    ensures |b| == |ps|
  {
    seq(|ps|, i requires 0 <= i < |ps| => PieceValue(a, t, ps[i]))
  }

  function Value(a: Assignment, t: nat, e: Expr): Bv {
    PiecesValue(a, t, Pieces(e))
  }

  /** The value of a bit, given the values of the bit ids. */
  function BitValue(a: Assignment, sigma: nat -> bool, b: Bit): bool {
    match b
    case Const0 => false
    case Const1 => true
    case ConstX => a.x
    case ConstZ => a.z
    case Id(n) => sigma(n)
  }

  function BitsValue(a: Assignment, sigma: nat -> bool, bits: seq<Bit>): (b: Bv)
    ensures |b| == |bits|
  {
    seq(|bits|, i requires 0 <= i < |bits| => BitValue(a, sigma, bits[i]))
  }

  /** The variable of a net holds the values of the net's bits. */
  ghost predicate Carries(a: Assignment, t: nat, net: Net, sigma: nat -> bool) {
    |a.vars(net.name, t)| == |net.bits| &&
    forall j :: 0 <= j < |net.bits| ==> a.vars(net.name, t)[j] == BitValue(a, sigma, net.bits[j])
  }

  // ----- specification of the lookup -----

  function FirstIndex(bits: seq<Bit>, b: Bit): (i: nat)
    requires b in bits
    ensures i < |bits| && bits[i] == b && forall j :: 0 <= j < i ==> bits[j] != b
  {
    if bits[0] == b then 0 else 1 + FirstIndex(bits[1..], b)
  }

  predicate Carried(nets: seq<Net>, b: Bit) {
    exists k :: 0 <= k < |nets| && b in nets[k].bits
  }

  /** Position index of the variable called name holds bit b of this net. */
  predicate HasSlot(net: Net, name: Name, index: nat, b: Bit) {
    net.name == name && index < |net.bits| && net.bits[index] == b
  }

  ghost predicate Located(nets: seq<Net>, p: Piece, b: Bit) {
    p.Slice? && exists k :: 0 <= k < |nets| && HasSlot(nets[k], p.name, p.index, b)
  }

  /** The first net that carries the bit, and its first position there. */
  function Pick(nets: seq<Net>, b: Bit): (p: Piece)
    requires Carried(nets, b)
    ensures p.Slice? && Located(nets, p, b)
  {
    if b in nets[0].bits then
      assert HasSlot(nets[0], nets[0].name, FirstIndex(nets[0].bits, b), b);
      Slice(nets[0].name, FirstIndex(nets[0].bits, b))
    else
      assert Carried(nets[1..], b) by {
        var k :| 0 <= k < |nets| && b in nets[k].bits;
        assert nets[1..][k - 1] == nets[k];
      }
      var p := Pick(nets[1..], b);
      assert Located(nets, p, b) by {
        var k :| 0 <= k < |nets[1..]| && HasSlot(nets[1..][k], p.name, p.index, b);
        assert nets[k + 1] == nets[1..][k];
      }
      p
  }

  function ConstantPiece(b: Bit): Piece
    requires b.IsConstant()
  {
    match b
    case Const0 => Literal(false)
    case Const1 => Literal(true)
    case ConstX => FreeX
    case ConstZ => FreeZ
  }

  /** The constants that are preset for a cell input port, a module port input,
      and an output port. */
  const CELL_CONSTANTS: set<Bit> := {Const1, Const0, ConstX, ConstZ}
  const MODULE_CONSTANTS: set<Bit> := {Const1, Const0, ConstX}
  const NO_CONSTANTS: set<Bit> := {}

  function Found(nets: seq<Net>, consts: set<Bit>, b: Bit): seq<Piece> {
    if b.IsConstant() then (if b in consts then [ConstantPiece(b)] else [])
    else if Carried(nets, b) then [Pick(nets, b)] else []
  }

  /** The sorted parts, most significant first; a bit that is not found is left out. */
  function Parts(nets: seq<Net>, consts: set<Bit>, bits: seq<Bit>): seq<Piece> {
    if |bits| == 0 then [] else Parts(nets, consts, bits[1..]) + Found(nets, consts, bits[0])
  }

  /** The first net that has exactly the bits of the port. */
  function ExactMatch(nets: seq<Net>, bits: seq<Bit>): (k: int)
    ensures -1 <= k < |nets|
    ensures k >= 0 ==> nets[k].bits == bits && forall j :: 0 <= j < k ==> nets[j].bits != bits
    ensures k < 0 ==> forall j :: 0 <= j < |nets| ==> nets[j].bits != bits
  {
    if |nets| == 0 then -1
    else if nets[0].bits == bits then 0
    else
      var k := ExactMatch(nets[1..], bits);
      assert forall j :: 1 <= j < |nets| ==> nets[j] == nets[1..][j - 1];
      if k < 0 then -1 else k + 1
  }

  function Reassembled(nets: seq<Net>, consts: set<Bit>, bits: seq<Bit>): Expr {
    var k := ExactMatch(nets, bits);
    if k >= 0 then Whole(nets[k].name, |bits|) else Concat(Parts(nets, consts, bits))
  }

  /** Every bit of the port is a preset constant or occurs on some net. */
  ghost predicate Covered(nets: seq<Net>, consts: set<Bit>, bits: seq<Bit>) {
    forall i :: 0 <= i < |bits| ==> if bits[i].IsConstant() then bits[i] in consts else Carried(nets, bits[i])
  }

  predicate HasNonConstant(bits: seq<Bit>) {
    exists i :: 0 <= i < |bits| && !bits[i].IsConstant()
  }

  predicate Intersects(xs: seq<Bit>, ys: seq<Bit>) {
    exists i :: 0 <= i < |xs| && !xs[i].IsConstant() && xs[i] in ys
  }

  // ----- the collecting loops -----

  /** State of the three parallel containers after some nets were looked at. */
  ghost predicate Collected(portExpr: seq<Piece>, bits: set<Bit>, bitsVector: seq<Bit>,
                            nets: seq<Net>, consts: set<Bit>, portBits: seq<Bit>)
  {
    |portExpr| == |bitsVector| &&
    (forall i, j :: 0 <= i < j < |bitsVector| ==> bitsVector[i] != bitsVector[j]) &&
    (forall b :: b in bitsVector <==>
       if b.IsConstant() then b in consts else b in portBits && Carried(nets, b)) &&
    (forall b :: b in bits <==> b in bitsVector && !b.IsConstant()) &&
    forall i :: 0 <= i < |portExpr| ==> Found(nets, consts, bitsVector[i]) == [portExpr[i]]
  }

  lemma CarriedAppend(nets: seq<Net>, net: Net, b: Bit)
    ensures Carried(nets + [net], b) <==> Carried(nets, b) || b in net.bits
  {
    if Carried(nets, b) {
      var k :| 0 <= k < |nets| && b in nets[k].bits;
      assert (nets + [net])[k] == nets[k];
    }
    if b in net.bits {
      assert (nets + [net])[|nets|] == net;
    }
  }

  lemma {:induction false} PickAppend(nets: seq<Net>, net: Net, b: Bit)
    requires Carried(nets + [net], b)
    ensures Pick(nets + [net], b) ==
            if Carried(nets, b) then Pick(nets, b)
            else (CarriedAppend(nets, net, b); Slice(net.name, FirstIndex(net.bits, b)))
  {
    CarriedAppend(nets, net, b);
    if |nets| == 0 {
      assert nets + [net] == [net];
    } else {
      assert (nets + [net])[1..] == nets[1..] + [net];
      assert (nets + [net])[0] == nets[0];
      if b !in nets[0].bits {
        assert Carried(nets[1..] + [net], b) by {
          var k :| 0 <= k < |nets + [net]| && b in (nets + [net])[k].bits;
          assert (nets[1..] + [net])[k - 1] == (nets + [net])[k];
        }
        assert Carried(nets[1..], b) <==> Carried(nets, b) by {
          if Carried(nets, b) {
            var k :| 0 <= k < |nets| && b in nets[k].bits;
            assert nets[1..][k - 1] == nets[k];
          }
          if Carried(nets[1..], b) {
            var k :| 0 <= k < |nets[1..]| && b in nets[1..][k].bits;
            assert nets[k + 1] == nets[1..][k];
          }
        }
        PickAppend(nets[1..], net, b);
      } else {
        assert Carried(nets, b);
      }
    }
  }

  lemma FirstIndexPrefix(bits: seq<Bit>, n: nat, b: Bit)
    requires n <= |bits| && b in bits[..n]
    ensures b in bits && FirstIndex(bits, b) == FirstIndex(bits[..n], b)
  {
    var i := FirstIndex(bits[..n], b);
    assert bits[i] == b;
  }

  /** Appending a bit to a net at the end of the list adds this bit to what is
      carried and leaves every earlier choice as it is. */
  lemma PickExtend(nets: seq<Net>, name: Name, bits: seq<Bit>, b: Bit, c: Bit)
    ensures Carried(nets + [Net(name, bits + [b])], c) <==> Carried(nets + [Net(name, bits)], c) || c == b
    ensures Carried(nets + [Net(name, bits)], c) ==>
              Pick(nets + [Net(name, bits + [b])], c) == Pick(nets + [Net(name, bits)], c)
    ensures c == b && !Carried(nets + [Net(name, bits)], c) ==>
              Carried(nets + [Net(name, bits + [b])], c) &&
                Pick(nets + [Net(name, bits + [b])], c) == Slice(name, |bits|)
  {
    var before, after := Net(name, bits), Net(name, bits + [b]);
    CarriedAppend(nets, before, c);
    CarriedAppend(nets, after, c);
    if Carried(nets + [after], c) {
      PickAppend(nets, after, c);
      if Carried(nets + [before], c) {
        PickAppend(nets, before, c);
        if !Carried(nets, c) {
          assert after.bits[..|bits|] == bits;
          FirstIndexPrefix(after.bits, |bits|, c);
        }
      } else {
        assert forall i :: 0 <= i < |bits| ==> after.bits[i] in bits;
      }
    }
  }

  /** Looking at one more bit of the net: nothing changes unless the bit is a new
      bit of the port, and then it is recorded at this position. */
  lemma CollectBit(portExpr: seq<Piece>, bits: set<Bit>, bitsVector: seq<Bit>,
                   nets: seq<Net>, name: Name, seen: seq<Bit>, b: Bit, consts: set<Bit>, portBits: seq<Bit>)
    requires Collected(portExpr, bits, bitsVector, nets + [Net(name, seen)], consts, portBits)
    ensures if !b.IsConstant() && b in portBits && b !in bits
            then Collected(portExpr + [Slice(name, |seen|)], bits + {b}, bitsVector + [b],
              nets + [Net(name, seen + [b])], consts, portBits)
            else Collected(portExpr, bits, bitsVector, nets + [Net(name, seen + [b])], consts, portBits)
  {
    var before, after := nets + [Net(name, seen)], nets + [Net(name, seen + [b])];
    forall c
      ensures Carried(after, c) <==> Carried(before, c) || c == b
      ensures Carried(before, c) ==> Pick(after, c) == Pick(before, c)
    {
      PickExtend(nets, name, seen, b, c);
    }
    forall i | 0 <= i < |portExpr|
      ensures Found(after, consts, bitsVector[i]) == [portExpr[i]]
    {
      assert Found(before, consts, bitsVector[i]) == [portExpr[i]];
    }
    if !b.IsConstant() && b in portBits && b !in bits {
      PickExtend(nets, name, seen, b, b);
      assert b !in bitsVector;
      CollectNew(portExpr, bits, bitsVector, before, after, Slice(name, |seen|), b, consts, portBits);
    }
  }

  lemma CollectNew(portExpr: seq<Piece>, bits: set<Bit>, bitsVector: seq<Bit>, before: seq<Net>, after: seq<Net>,
                   p: Piece, b: Bit, consts: set<Bit>, portBits: seq<Bit>)
    requires Collected(portExpr, bits, bitsVector, before, consts, portBits)
    requires !b.IsConstant() && b in portBits && b !in bitsVector
    requires forall c :: Carried(after, c) <==> Carried(before, c) || c == b
    requires forall i :: 0 <= i < |portExpr| ==> Found(after, consts, bitsVector[i]) == [portExpr[i]]
    requires Found(after, consts, b) == [p]
    ensures Collected(portExpr + [p], bits + {b}, bitsVector + [b], after, consts, portBits)
  {
    var bv := bitsVector + [b];
    assert forall c :: c in bv <==> c in bitsVector || c == b;
  }

  /** Collects the bits of the port that the net of this edge carries and that no
      earlier edge carried. */
  method GetPortExpr(net: Net, portExpr: seq<Piece>, bits: set<Bit>, bitsVector: seq<Bit>, portBits: seq<Bit>,
                     ghost nets: seq<Net>, ghost consts: set<Bit>)
    returns (portExpr': seq<Piece>, bits': set<Bit>, bitsVector': seq<Bit>)
    requires Collected(portExpr, bits, bitsVector, nets, consts, portBits)
    ensures Collected(portExpr', bits', bitsVector', nets + [net], consts, portBits)
  {
    portExpr', bits', bitsVector' := portExpr, bits, bitsVector;
    CollectNone(portExpr, bits, bitsVector, nets, Net(net.name, net.bits[..0]), consts, portBits);
    for sourceIndex := 0 to |net.bits|
      invariant Collected(portExpr', bits', bitsVector', nets + [Net(net.name, net.bits[..sourceIndex])], consts,
                portBits)
    {
      var sourceBit := net.bits[sourceIndex];
      ghost var pe, bs, bv := portExpr', bits', bitsVector';
      if !sourceBit.IsConstant() {
        for targetIndex := 0 to |portBits|
          invariant if sourceBit in portBits[..targetIndex] && sourceBit !in bs
                    then portExpr' == pe + [Slice(net.name, sourceIndex)] && bits' == bs + {sourceBit} &&
                      bitsVector' == bv + [sourceBit]
                    else portExpr' == pe && bits' == bs && bitsVector' == bv
        {
          var targetBit := portBits[targetIndex];
          assert portBits[..targetIndex + 1] == portBits[..targetIndex] + [targetBit];
          if !targetBit.IsConstant() {
            if sourceBit == targetBit && sourceBit !in bits' {
              var sourceIndexOrZero := if |net.bits| > 1 then sourceIndex else 0;
              portExpr' := portExpr' + [Slice(net.name, sourceIndexOrZero)];
              bits' := bits' + {sourceBit};
              bitsVector' := bitsVector' + [sourceBit];
            }
          }
        }
        assert portBits[..|portBits|] == portBits;
      }
      assert net.bits[..sourceIndex + 1] == net.bits[..sourceIndex] + [sourceBit];
      CollectBit(pe, bs, bv, nets, net.name, net.bits[..sourceIndex], sourceBit, consts, portBits);
    }
    assert net.bits[..|net.bits|] == net.bits;
  }

  /** A net without a bit of the port leaves the containers as they are. */
  lemma CollectNone(portExpr: seq<Piece>, bits: set<Bit>, bitsVector: seq<Bit>,
                    nets: seq<Net>, net: Net, consts: set<Bit>, portBits: seq<Bit>)
    requires Collected(portExpr, bits, bitsVector, nets, consts, portBits)
    requires forall b :: b in net.bits && !b.IsConstant() ==> b !in portBits
    ensures Collected(portExpr, bits, bitsVector, nets + [net], consts, portBits)
  {
    forall b | b in portBits && !b.IsConstant()
      ensures Carried(nets + [net], b) <==> Carried(nets, b)
      ensures Carried(nets, b) ==> Pick(nets + [net], b) == Pick(nets, b)
    {
      CarriedAppend(nets, net, b);
      if Carried(nets, b) {
        PickAppend(nets, net, b);
      }
    }
    forall i | 0 <= i < |portExpr|
      ensures Found(nets + [net], consts, bitsVector[i]) == [portExpr[i]]
    {
      assert bitsVector[i] in bitsVector;
    }
  }

  /** Orders the collected pieces by the bits of the port, from the most
      significant one downwards. */
  method SortExprVector(predecessors: seq<Piece>, bitVector: seq<Bit>, portBits: seq<Bit>,
                        ghost bits: set<Bit>, ghost nets: seq<Net>, ghost consts: set<Bit>)
    returns (sorted: seq<Piece>)
    requires Collected(predecessors, bits, bitVector, nets, consts, portBits)
    ensures sorted == Parts(nets, consts, portBits)
  {
    sorted := [];
    var idx := |portBits|;
    while idx > 0
      invariant 0 <= idx <= |portBits|
      invariant sorted == Parts(nets, consts, portBits[idx..])
    {
      var b := portBits[idx - 1];
      ghost var base := sorted;
      for index := 0 to |bitVector|
        invariant sorted == base + if b in bitVector[..index] then Found(nets, consts, b) else []
      {
        assert bitVector[..index + 1] == bitVector[..index] + [bitVector[index]];
        if bitVector[index] == b {
          sorted := sorted + [predecessors[index]];
        }
      }
      assert bitVector[..|bitVector|] == bitVector;
      assert portBits[idx - 1..][1..] == portBits[idx..];
      idx := idx - 1;
    }
    assert portBits[0..] == portBits;
  }

  ghost predicate SomeCarried(nets: seq<Net>, bits: seq<Bit>) {
    exists i :: 0 <= i < |bits| && !bits[i].IsConstant() && Carried(nets, bits[i])
  }

  /** A vector of distinct bits that holds all presets and one more bit is longer
      than the presets. */
  lemma CollectedExceeds(bitsVector: seq<Bit>, preset: seq<Bit>, b: Bit)
    requires forall i, j :: 0 <= i < j < |preset| ==> preset[i] != preset[j]
    requires forall p :: p in preset ==> p in bitsVector
    requires b in bitsVector && b !in preset
    ensures |bitsVector| > |preset|
  {
    var wanted := preset + [b];
    DistinctFits(wanted, bitsVector);
  }

  lemma {:induction false} DistinctFits(xs: seq<Bit>, ys: seq<Bit>)
    requires forall i, j :: 0 <= i < j < |xs| ==> xs[i] != xs[j]
    requires forall x :: x in xs ==> x in ys
    ensures |xs| <= |ys|
  {
    if |xs| > 0 {
      assert xs[0] in ys;
      var k :| 0 <= k < |ys| && ys[k] == xs[0];
      var rest := ys[..k] + ys[k + 1..];
      forall x | x in xs[1..]
        ensures x in rest
      {
        var i :| 0 <= i < |xs[1..]| && xs[1..][i] == x;
        assert x == xs[i + 1] && x in ys;
        var j :| 0 <= j < |ys| && ys[j] == x;
        assert rest[if j < k then j else j - 1] == x;
      }
      DistinctFits(xs[1..], rest);
    }
  }

  /** Only the presets are constants, so that more entries mean a bit that was found. */
  lemma CollectedBeyond(portExpr: seq<Piece>, bits: set<Bit>, bitsVector: seq<Bit>, preset: seq<Bit>,
                        nets: seq<Net>, consts: set<Bit>, portBits: seq<Bit>)
    requires Collected(portExpr, bits, bitsVector, nets, consts, portBits)
    requires consts == (set b | b in preset) && |bitsVector| > |preset|
    ensures SomeCarried(nets, portBits)
  {
    if forall b :: b in bitsVector ==> b in preset {
      DistinctFits(bitsVector, preset);
    } else {
      var b :| b in bitsVector && b !in preset;
      var i :| 0 <= i < |portBits| && portBits[i] == b;
      assert Carried(nets, portBits[i]);
    }
  }

  /** An expression can be built for these bits: a net has all of them, or some are found
      and there are enough entries. */
  ghost predicate Built(nets: seq<Net>, consts: set<Bit>, bits: seq<Bit>, enough: bool) {
    ExactMatch(nets, bits) >= 0 || (Parts(nets, consts, bits) != [] && (enough || SomeCarried(nets, bits)))
  }

  /** Every signal that the expression mentions has been declared at this step. */
  predicate UsesDeclared(e: Expr, time: nat, declared: set<(Name, nat)>) {
    forall p :: p in Pieces(e) && p.Slice? ==> (p.name, time) in declared
  }

  /** The nets that share a bit with the port are declared. */
  predicate SharedDeclared(nets: seq<Net>, bits: seq<Bit>, time: nat, declared: set<(Name, nat)>) {
    forall k :: 0 <= k < |nets| && Intersects(nets[k].bits, bits) ==> (nets[k].name, time) in declared
  }

  lemma {:induction false} PartsDeclared(nets: seq<Net>, consts: set<Bit>, bits: seq<Bit>, time: nat,
                                         declared: set<(Name, nat)>)
    requires SharedDeclared(nets, bits, time, declared)
    ensures forall p :: p in Parts(nets, consts, bits) && p.Slice? ==> (p.name, time) in declared
  {
    if |bits| > 0 {
      forall k | 0 <= k < |nets| && Intersects(nets[k].bits, bits[1..])
        ensures (nets[k].name, time) in declared
      {
        var i :| 0 <= i < |nets[k].bits| && !nets[k].bits[i].IsConstant() && nets[k].bits[i] in bits[1..];
        assert nets[k].bits[i] in bits;
        assert Intersects(nets[k].bits, bits);
      }
      PartsDeclared(nets, consts, bits[1..], time, declared);
      if !bits[0].IsConstant() && Carried(nets, bits[0]) {
        var p := Pick(nets, bits[0]);
        var k :| 0 <= k < |nets| && HasSlot(nets[k], p.name, p.index, bits[0]);
        assert Intersects(nets[k].bits, bits);
      }
    }
  }

  lemma ConcatDeclared(parts: seq<Piece>, time: nat, declared: set<(Name, nat)>)
    requires forall p :: p in parts && p.Slice? ==> (p.name, time) in declared
    ensures UsesDeclared(Concat(parts), time, declared)
  {
    forall p | p in Pieces(Concat(parts))
      ensures p in parts
    {
    }
  }

  lemma NoneStopsShared(nets: seq<Net>, time: nat, portBits: seq<Bit>, guarded: bool, declared: set<(Name, nat)>)
    requires NoneStops(nets, time, portBits, guarded, declared, |nets|)
    ensures SharedDeclared(nets, portBits, time, declared)
  {
    forall k | 0 <= k < |nets| && Intersects(nets[k].bits, portBits)
      ensures (nets[k].name, time) in declared
    {
      assert !Stops(nets[k], time, portBits, guarded, declared);
      SharedIsComparable(nets[k].bits, portBits);
    }
  }

  lemma SharedIsComparable(xs: seq<Bit>, ys: seq<Bit>)
    requires Intersects(xs, ys)
    ensures HasNonConstant(xs) && HasNonConstant(ys)
  {
    var i :| 0 <= i < |xs| && !xs[i].IsConstant() && xs[i] in ys;
    var j :| 0 <= j < |ys| && ys[j] == xs[i];
    assert !ys[j].IsConstant();
  }

  /** The loop over the edges ends at net k: it has exactly the bits of the port, or it cannot be
      compared and that is not guarded, or a bit of it is wanted and its signal is missing. */
  ghost predicate Stops(net: Net, time: nat, portBits: seq<Bit>, guarded: bool, declared: set<(Name, nat)>) {
    net.bits == portBits || Incomparable(net, portBits, guarded) ||
    (HasNonConstant(net.bits) && HasNonConstant(portBits) && Intersects(net.bits, portBits) &&
      (net.name, time) !in declared)
  }

  ghost predicate Incomparable(net: Net, portBits: seq<Bit>, guarded: bool) {
    !guarded && net.bits != portBits && (!HasNonConstant(net.bits) || !HasNonConstant(portBits))
  }

  ghost predicate NoneStops(nets: seq<Net>, time: nat, portBits: seq<Bit>, guarded: bool, declared: set<(Name, nat)>,
                            n: nat)
  {
    forall j :: 0 <= j < n && j < |nets| ==> !Stops(nets[j], time, portBits, guarded, declared)
  }

  /** The first net at which the loop ends is one that cannot be compared. */
  ghost predicate EndsEmpty(nets: seq<Net>, time: nat, portBits: seq<Bit>, guarded: bool,
                            declared: set<(Name, nat)>)
  {
    exists k :: 0 <= k < |nets| && NoneStops(nets, time, portBits, guarded, declared, k) &&
                Incomparable(nets[k], portBits, guarded)
  }

  lemma EndsAt(nets: seq<Net>, time: nat, portBits: seq<Bit>, guarded: bool, declared: set<(Name, nat)>, k: nat)
    requires k < |nets| && NoneStops(nets, time, portBits, guarded, declared, k)
    ensures Stops(nets[k], time, portBits, guarded, declared) ==>
              (EndsEmpty(nets, time, portBits, guarded, declared) <==> Incomparable(nets[k], portBits, guarded))
    ensures !Stops(nets[k], time, portBits, guarded, declared) ==>
              NoneStops(nets, time, portBits, guarded, declared, k + 1)
  {
  }

  lemma NeverEnds(nets: seq<Net>, time: nat, portBits: seq<Bit>, guarded: bool, declared: set<(Name, nat)>)
    requires NoneStops(nets, time, portBits, guarded, declared, |nets|)
    ensures !EndsEmpty(nets, time, portBits, guarded, declared)
  {
  }

  /** What the collected pieces amount to when no net has exactly the bits of the port. */
  method Concatenation(portExpr: seq<Piece>, ghost bits: set<Bit>, bitsVector: seq<Bit>, ghost nets: seq<Net>,
                       ghost consts: set<Bit>, portBits: seq<Bit>, preset: seq<Bit>, atLeast: nat, ghost time: nat,
                       ghost declared: set<(Name, nat)>)
    returns (r: Outcome<Expr>)
    requires Collected(portExpr, bits, bitsVector, nets, consts, portBits)
    requires consts == (set b | b in preset) && forall i :: 0 <= i < |preset| ==> preset[i].IsConstant()
    requires forall i, j :: 0 <= i < j < |preset| ==> preset[i] != preset[j]
    requires atLeast <= |preset| + 1 && SharedDeclared(nets, portBits, time, declared)
    requires forall j :: 0 <= j < |nets| ==> nets[j].bits != portBits
    ensures r.Ok? || r.Absent? || r.NoPieces?
    ensures r.Ok? ==> r.value == Reassembled(nets, consts, portBits) && UsesDeclared(r.value, time, declared)
    ensures r.Absent? ==> |preset| < atLeast && !SomeCarried(nets, portBits)
    ensures r.Ok? <==> Built(nets, consts, portBits, |preset| >= atLeast)
  {
    if |portExpr| < atLeast {
      DistinctFits(preset, bitsVector);
      if SomeCarried(nets, portBits) {
        var i :| 0 <= i < |portBits| && !portBits[i].IsConstant() && Carried(nets, portBits[i]);
        CollectedExceeds(bitsVector, preset, portBits[i]);
      }
      return Absent;
    }
    if |preset| < atLeast {
      CollectedBeyond(portExpr, bits, bitsVector, preset, nets, consts, portBits);
    }
    var sorted := SortExprVector(portExpr, bitsVector, portBits, bits, nets, consts);
    if sorted == [] {
      return NoPieces;
    }
    PartsDeclared(nets, consts, portBits, time, declared);
    ConcatDeclared(sorted, time, declared);
    r := Ok(Concat(sorted));
  }

  /** The expression of one port. The first edge whose net has exactly the bits of
      the port ends the search. A net of constants only is an error where the
      intersection test is not guarded, and is passed over where it is. Nothing can be
      concatenated when no bit is found. */
  method PortExpression(nets: seq<Net>, time: nat, portBits: seq<Bit>, consts: set<Bit>, preset: seq<Bit>,
                        guarded: bool, atLeast: nat, declared: set<(Name, nat)>)
    returns (r: Outcome<Expr>)
    requires consts == (set b | b in preset) && forall i :: 0 <= i < |preset| ==> preset[i].IsConstant()
    requires forall i, j :: 0 <= i < j < |preset| ==> preset[i] != preset[j]
    requires atLeast <= |preset| + 1
    ensures r.Ok? ==> r.value == Reassembled(nets, consts, portBits)
    ensures r.Absent? ==> |preset| < atLeast && !SomeCarried(nets, portBits)
    ensures r.Ok? || r.Absent? || r.NoPieces? ==>
              (r.Ok? <==> Built(nets, consts, portBits, |preset| >= atLeast))
    ensures r.NoSignal? ==> exists k :: 0 <= k < |nets| && (nets[k].name, time) !in declared
    ensures r.EmptyBits? ==>
              !guarded && (!HasNonConstant(portBits) || exists k :: 0 <= k < |nets| && !HasNonConstant(nets[k].bits))
    ensures r.EmptyBits? <==> EndsEmpty(nets, time, portBits, guarded, declared)
    ensures r.Ok? ==> UsesDeclared(r.value, time, declared)
  {
    var portExpr: seq<Piece> := seq(|preset|, i requires 0 <= i < |preset| => ConstantPiece(preset[i]));
    var bits: set<Bit> := {};
    var bitsVector := preset;
    assert Collected(portExpr, bits, bitsVector, [], consts, portBits);
    for k := 0 to |nets|
      invariant Collected(portExpr, bits, bitsVector, nets[..k], consts, portBits)
      invariant forall j :: 0 <= j < k ==> nets[j].bits != portBits
      invariant NoneStops(nets, time, portBits, guarded, declared, k)
    {
      var net := nets[k];
      EndsAt(nets, time, portBits, guarded, declared, k);
      assert nets[..k + 1] == nets[..k] + [net];
      if net.bits == portBits {
        if (net.name, time) !in declared {
          return NoSignal;
        }
        return Ok(Whole(net.name, |portBits|));
      }
      var comparable := HasNonConstant(net.bits) && HasNonConstant(portBits);
      if !comparable && !guarded {
        return EmptyBits;
      }
      if comparable && Intersects(net.bits, portBits) {
        if (net.name, time) !in declared {
          return NoSignal;
        }
        portExpr, bits, bitsVector := GetPortExpr(net, portExpr, bits, bitsVector, portBits, nets[..k], consts);
      } else {
        CollectNone(portExpr, bits, bitsVector, nets[..k], net, consts, portBits);
      }
    }
    assert nets[..|nets|] == nets;
    NeverEnds(nets, time, portBits, guarded, declared);
    NoneStopsShared(nets, time, portBits, guarded, declared);
    r := Concatenation(portExpr, bits, bitsVector, nets, consts, portBits, preset, atLeast, time, declared);
  }

  // ----- exactness -----

  lemma {:induction false} PartsExact(nets: seq<Net>, consts: set<Bit>, bits: seq<Bit>)
    ensures |Parts(nets, consts, bits)| <= |bits|
    ensures |Parts(nets, consts, bits)| == |bits| <==> Covered(nets, consts, bits)
    ensures Covered(nets, consts, bits) ==>
              forall i :: 0 <= i < |bits| ==>
                Found(nets, consts, bits[i]) == [Parts(nets, consts, bits)[|bits| - 1 - i]]
  {
    if |bits| > 0 {
      PartsExact(nets, consts, bits[1..]);
      assert Covered(nets, consts, bits) <==>
             Covered(nets, consts, bits[1..]) && |Found(nets, consts, bits[0])| == 1 by {
        if Covered(nets, consts, bits[1..]) && |Found(nets, consts, bits[0])| == 1 {
          forall i | 0 <= i < |bits|
            ensures if bits[i].IsConstant() then bits[i] in consts else Carried(nets, bits[i])
          {
            if i > 0 {
              assert bits[i] == bits[1..][i - 1];
            }
          }
        }
      }
      if Covered(nets, consts, bits) {
        forall i | 0 <= i < |bits|
          ensures Found(nets, consts, bits[i]) == [Parts(nets, consts, bits)[|bits| - 1 - i]]
        {
          if i > 0 {
            assert bits[i] == bits[1..][i - 1];
          }
        }
      }
    }
  }

  /** The rebuilt expression has the width of the port exactly when a net matches
      the port as a whole or every bit is found. */
  lemma WidthExact(nets: seq<Net>, consts: set<Bit>, bits: seq<Bit>)
    ensures |Pieces(Reassembled(nets, consts, bits))| == |bits|
       <==> ExactMatch(nets, bits) >= 0 || Covered(nets, consts, bits)
  {
    PartsExact(nets, consts, bits);
  }

  /** Bit i of the rebuilt expression is bit bits[i] of the port: either the
      constant, or a position of one of the nets that holds this very bit. */
  lemma PieceExact(nets: seq<Net>, consts: set<Bit>, bits: seq<Bit>, i: nat)
    requires i < |bits|
    requires ExactMatch(nets, bits) >= 0 || Covered(nets, consts, bits)
    ensures |Pieces(Reassembled(nets, consts, bits))| == |bits|
    ensures PieceFor(nets, Pieces(Reassembled(nets, consts, bits))[i], bits[i])
  {
    PartsExact(nets, consts, bits);
    var k := ExactMatch(nets, bits);
    if k < 0 {
      ConcatPiece(Parts(nets, consts, bits), i);
      PartFor(nets, consts, bits[i], Parts(nets, consts, bits)[|bits| - 1 - i]);
    } else {
      WholePiece(nets[k], i);
      assert HasSlot(nets[k], nets[k].name, i, bits[i]);
    }
  }

  lemma ConcatPiece(parts: seq<Piece>, i: nat)
    requires i < |parts|
    ensures |Pieces(Concat(parts))| == |parts| && Pieces(Concat(parts))[i] == parts[|parts| - 1 - i]
  {
  }

  lemma WholePiece(net: Net, i: nat)
    requires i < |net.bits|
    ensures |Pieces(Whole(net.name, |net.bits|))| == |net.bits|
    ensures Pieces(Whole(net.name, |net.bits|))[i] == Slice(net.name, i)
  {
  }

  lemma PartFor(nets: seq<Net>, consts: set<Bit>, b: Bit, p: Piece)
    requires Found(nets, consts, b) == [p]
    ensures PieceFor(nets, p, b)
  {
  }

  /** A piece that stands for bit b: the constant, or a position of a net that
      holds this very bit. */
  ghost predicate PieceFor(nets: seq<Net>, p: Piece, b: Bit) {
    Located(nets, p, b) || (b.IsConstant() && p == ConstantPiece(b))
  }

  /** Port reassembly is exact: on nets that carry their bits, the expression has
      at every position the value of the port's bit, whether the bit is repeated,
      constant or shared by several nets. */
  lemma ReassemblyExact(a: Assignment, t: nat, nets: seq<Net>, consts: set<Bit>, bits: seq<Bit>, sigma: nat -> bool)
    requires forall k :: 0 <= k < |nets| ==> Carries(a, t, nets[k], sigma)
    requires ExactMatch(nets, bits) >= 0 || Covered(nets, consts, bits)
    ensures Value(a, t, Reassembled(nets, consts, bits)) == BitsValue(a, sigma, bits)
  {
    WidthExact(nets, consts, bits);
    var ps := Pieces(Reassembled(nets, consts, bits));
    forall i | 0 <= i < |bits|
      ensures PieceValue(a, t, ps[i]) == BitValue(a, sigma, bits[i])
    {
      PieceExact(nets, consts, bits, i);
      PieceForValue(a, t, nets, ps[i], bits[i], sigma);
    }
  }

  lemma PieceForValue(a: Assignment, t: nat, nets: seq<Net>, p: Piece, b: Bit, sigma: nat -> bool)
    requires forall k :: 0 <= k < |nets| ==> Carries(a, t, nets[k], sigma)
    requires PieceFor(nets, p, b)
    ensures PieceValue(a, t, p) == BitValue(a, sigma, b)
  {
    if Located(nets, p, b) {
      var k :| 0 <= k < |nets| && HasSlot(nets[k], p.name, p.index, b);
      assert Carries(a, t, nets[k], sigma);
    }
  }
}
