/** The values of a clocked run are those that the cells of the netlist compute. */
module IftCells {
  import opened Bitvectors
  import opened IftRuns
  import Cells

  /** The cell of the netlist behind a driver. */
  function CellOf(dr: Driver): Cells.Kind
    requires !dr.Input? && !dr.Wired?
  {
    match dr
    case Unary(op, signed, _) => Cells.Unary(op, signed)
    case Binary(op, sa, sb, _, _) => Cells.Binary(op, sa, sb)
    case Mux(_, _, _) => Cells.Mux
    case PMux(_, _, _) => Cells.PMux
    case Dff(_) => Cells.Dff
    case Dffe(_, _, high) => Cells.Dffe(high)
  }

  /** The words at its ports at step t. */
  function Words(n: Netlist, r: Run, s: nat, t: nat): Cells.Values
    requires WellFormed(n) && s < |n|
  {
    assert Ordered(n, s);
    match n[s].driver
    case Unary(_, _, a) => map[Cells.A := Val(n, r, a, t)]
    case Binary(_, _, _, a, b) => map[Cells.A := Val(n, r, a, t), Cells.B := Val(n, r, b, t)]
    case Mux(a, b, sel) => map[Cells.A := Val(n, r, a, t), Cells.B := Val(n, r, b, t), Cells.S := Val(n, r, sel, t)]
    case PMux(a, b, sel) => map[Cells.A := Val(n, r, a, t), Cells.B := Val(n, r, b, t), Cells.S := Val(n, r, sel, t)]
    case Dff(d) => map[Cells.D := Val(n, r, d, t)]
    case Dffe(d, en, _) => map[Cells.D := Val(n, r, d, t), Cells.EN := Val(n, r, en, t)]
    case _ => map[]
  }

  /** A cell has at every step the value that it computes from the words at its ports. */
  lemma CellValue(n: Netlist, r: Run, s: nat, t: nat)
    requires WellFormed(n) && s < |n|
    requires !n[s].driver.Input? && !n[s].driver.Wired? && !n[s].driver.IsRegister()
    requires Cells.Typed(CellOf(n[s].driver), Words(n, r, s, t), n[s].width, 0)
    ensures Val(n, r, s, t) == Cells.Eval(CellOf(n[s].driver), Words(n, r, s, t), n[s].width, [])
  {
    assert Ordered(n, s) && Sized(n, s);
    match n[s].driver
    case Mux(_, _, sel) => OneBitSelect(Val(n, r, sel, t));
    case _ =>
  }

  lemma OneBitSelect(s: Bv)
    requires |s| == 1
    ensures NonZero(s) == s[0]
  {
    if s[0] {
      assert NonZero(s);
    }
  }

  /** A register has after a clock edge the value that it computes from the words before it. */
  lemma RegisterValue(n: Netlist, r: Run, s: nat, t: nat)
    requires WellFormed(n) && s < |n| && n[s].driver.IsRegister()
    requires Cells.Typed(CellOf(n[s].driver), Words(n, r, s, t), n[s].width, |Val(n, r, s, t)|)
    ensures Val(n, r, s, t + 1) == Cells.Eval(CellOf(n[s].driver), Words(n, r, s, t), n[s].width, Val(n, r, s, t))
    ensures Val(n, r, s, 0) == r.init(s)
  {
    assert Ordered(n, s) && Sized(n, s);
  }

  /** A bit of a net is the constant or the bit of the source that it is wired to. */
  lemma WireBitValue(n: Netlist, r: Run, s: nat, t: nat, i: nat)
    requires WellFormed(n) && s < |n| && n[s].driver.Wired? && i < |n[s].driver.bits|
    ensures var b := n[s].driver.bits[i];
            i < |Val(n, r, s, t)| &&
            (b.Fixed? ==> Val(n, r, s, t)[i] == b.value) &&
            (b.From? ==> b.source < |n|) &&
            (b.From? && b.bit < |Val(n, r, b.source, t)| ==> Val(n, r, s, t)[i] == Val(n, r, b.source, t)[b.bit])
  {
    assert Ordered(n, s) && Sized(n, s);
  }
}
