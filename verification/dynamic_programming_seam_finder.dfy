/** `DynamicProgrammingSeamFinder.findHorizontal`: the least-energy
    horizontal seam of a picture, one row index per column, where each
    step moves to the same row or one of its two neighbours. The picture
    and the energy function are abstracted into a total function from
    column and row to an energy. */
module SeamFinding {
  import opened Wrappers
  import opened Lists

  /** The energy of the pixel in column `x`, row `y`. */
  type EnergyFunction = (int, int) -> real

  /** The row that the table's entry for column `x`, row `y` takes its
      predecessor from: the same row, then the row above when strictly
      cheaper, then the row below when strictly cheaper than both. */
  function BestLeft(f: EnergyFunction, height: nat, x: nat, y: nat): (r: nat)
    requires 1 <= x && y < height
    ensures r < height && (r == y || r + 1 == y || r == y + 1)
    decreases x, 0
  {
    var middle := y;
    var up := if y > 0 && Cost(f, height, x - 1, y - 1) < Cost(f, height, x - 1, middle) then y - 1 else middle;
    if y < height - 1 && Cost(f, height, x - 1, y + 1) < Cost(f, height, x - 1, up) then y + 1 else up
  }

  /** `energyCost[x][y]`: the energy of pixel (x, y) plus the cost of the
      predecessor chosen in the column to its left. */
  function Cost(f: EnergyFunction, height: nat, x: nat, y: nat): real
    requires y < height
    decreases x, 1
  {
    if x == 0 then f(0, y) else f(x, y) + Cost(f, height, x - 1, BestLeft(f, height, x, y))
  }

  /** The predecessor is a cheapest reachable cell of the left column, and
      ties go to the same row first, then to the row above. */
  lemma BestLeftIsMin(f: EnergyFunction, height: nat, x: nat, y: nat)
    requires 1 <= x && y < height
    ensures Cost(f, height, x - 1, BestLeft(f, height, x, y)) <= Cost(f, height, x - 1, y)
    ensures y > 0 ==> Cost(f, height, x - 1, BestLeft(f, height, x, y)) <= Cost(f, height, x - 1, y - 1)
    ensures y + 1 < height ==> Cost(f, height, x - 1, BestLeft(f, height, x, y)) <= Cost(f, height, x - 1, y + 1)
    ensures Cost(f, height, x - 1, BestLeft(f, height, x, y)) == Cost(f, height, x - 1, y) ==> BestLeft(f, height, x, y) == y
    ensures BestLeft(f, height, x, y) == y + 1 && y > 0 ==>
      Cost(f, height, x - 1, y + 1) < Cost(f, height, x - 1, y - 1)
  {
  }

  /** Column `x` of a seam is a row, and consecutive rows differ by at most one. */
  ghost predicate IsSeam(s: seq<int>, width: nat, height: nat)
  {
    && |s| == width
    && (forall x :: 0 <= x < |s| ==> 0 <= s[x] < height)
    && (forall x :: 1 <= x < |s| ==> -1 <= s[x] - s[x - 1] <= 1)
  }

  /** The total energy of the pixels the seam passes through, column 0 first. */
  function SeamEnergy(f: EnergyFunction, s: seq<int>): real
  {
    if s == [] then 0.0 else SeamEnergy(f, s[..|s| - 1]) + f(|s| - 1, s[|s| - 1])
  }

  /** Row `end` has the least cost of column `x`. */
  ghost predicate CheapestIn(f: EnergyFunction, height: nat, x: nat, end: nat)
    requires end < height
  {
    forall y :: 0 <= y < height ==> Cost(f, height, x, end) <= Cost(f, height, x, y)
  }

  /** Every row above `end` costs strictly more than `end` in column `x`. */
  ghost predicate NoneCheaperAbove(f: EnergyFunction, height: nat, x: nat, end: nat)
    requires end < height
  {
    forall y :: 0 <= y < end ==> Cost(f, height, x, end) < Cost(f, height, x, y)
  }

  /** The chain of predecessors that ends in column `x`, row `y`, column 0 first. */
  function Trace(f: EnergyFunction, height: nat, x: nat, y: nat): (r: seq<int>)
    requires y < height
    ensures |r| == x + 1 && r[x] == y
  {
    if x == 0 then [y] else Trace(f, height, x - 1, BestLeft(f, height, x, y)) + [y]
  }

  /** Every row of a traced chain is in the picture, and every step is the
      predecessor the table records. */
  lemma {:induction false} TraceSteps(f: EnergyFunction, height: nat, x: nat, y: nat)
    requires y < height
    ensures forall k :: 0 <= k <= x ==> 0 <= Trace(f, height, x, y)[k] < height
    ensures forall k :: 1 <= k <= x ==> Trace(f, height, x, y)[k - 1] == BestLeft(f, height, k, Trace(f, height, x, y)[k])
  {
    if x > 0 {
      var p := BestLeft(f, height, x, y);
      var t := Trace(f, height, x - 1, p);
      TraceSteps(f, height, x - 1, p);
      assert Trace(f, height, x, y) == t + [y];
      assert forall k :: 0 <= k < x ==> Trace(f, height, x, y)[k] == t[k];
    }
  }

  /** A traced chain is a seam. */
  lemma TraceIsSeam(f: EnergyFunction, height: nat, x: nat, y: nat)
    requires y < height
    ensures IsSeam(Trace(f, height, x, y), x + 1, height)
  {
    TraceSteps(f, height, x, y);
    var t := Trace(f, height, x, y);
    forall k | 1 <= k <= x
      ensures -1 <= t[k] - t[k - 1] <= 1
    {
      assert t[k - 1] == BestLeft(f, height, k, t[k]);
    }
  }

  /** The energy of a traced chain is the table's cost at its end. */
  lemma {:induction false} TraceEnergy(f: EnergyFunction, height: nat, x: nat, y: nat)
    requires y < height
    ensures SeamEnergy(f, Trace(f, height, x, y)) == Cost(f, height, x, y)
  {
    if x > 0 {
      var p := BestLeft(f, height, x, y);
      var t := Trace(f, height, x - 1, p);
      TraceEnergy(f, height, x - 1, p);
      assert Trace(f, height, x, y) == t + [y];
      assert (t + [y])[..x] == t;
    }
  }

  /** No seam ending in column `x`, row `y`, costs less than the table entry. */
  lemma {:induction false} CostIsLeast(f: EnergyFunction, height: nat, s: seq<int>)
    requires |s| >= 1 && IsSeam(s, |s|, height)
    ensures Cost(f, height, |s| - 1, s[|s| - 1]) <= SeamEnergy(f, s)
  {
    var x := |s| - 1;
    if x > 0 {
      var s' := s[..x];
      assert IsSeam(s', x, height);
      CostIsLeast(f, height, s');
      BestLeftIsMin(f, height, x, s[x]);
      assert s'[x - 1] == s[x - 1];
    }
  }

  /** The traced seam from a cheapest end of the last column is a least-energy seam. */
  lemma TraceIsLeast(f: EnergyFunction, width: nat, height: nat, end: nat, s: seq<int>)
    requires width >= 1 && end < height && CheapestIn(f, height, width - 1, end)
    requires IsSeam(s, width, height)
    ensures SeamEnergy(f, Trace(f, height, width - 1, end)) <= SeamEnergy(f, s)
  {
    TraceEnergy(f, height, width - 1, end);
    CostIsLeast(f, height, s);
  }

  /** Column `x` of the cost table holds the costs. */
  ghost predicate CostColumn(energyCost: array2<real>, f: EnergyFunction, height: nat, x: nat)
    reads energyCost
    requires x < energyCost.Length0 && energyCost.Length1 == height
  {
    forall y :: 0 <= y < height ==> energyCost[x, y] == Cost(f, height, x, y)
  }

  /** Column `x` of the predecessor table holds the chosen rows. */
  ghost predicate PredecessorColumn(predecessors: array2<int>, f: EnergyFunction, height: nat, x: nat)
    reads predecessors
    requires 1 <= x < predecessors.Length0 && predecessors.Length1 == height
  {
    forall y :: 0 <= y < height ==> predecessors[x, y] == BestLeft(f, height, x, y)
  }

  /** One column `x >= 1` of the table fill, from the column to its left. */
  method FillColumn(energyCost: array2<real>, predecessors: array2<int>, f: EnergyFunction, height: nat, x: nat)
    requires 1 <= x < energyCost.Length0 == predecessors.Length0
    requires energyCost.Length1 == predecessors.Length1 == height
    requires CostColumn(energyCost, f, height, x - 1)
    modifies energyCost, predecessors
    ensures forall x', y :: 0 <= x' < energyCost.Length0 && x' != x && 0 <= y < height ==>
      energyCost[x', y] == old(energyCost[x', y]) && predecessors[x', y] == old(predecessors[x', y])
    ensures CostColumn(energyCost, f, height, x) && PredecessorColumn(predecessors, f, height, x)
  {
    for y := 0 to height
      invariant forall x', y' :: 0 <= x' < energyCost.Length0 && x' != x && 0 <= y' < height ==>
        energyCost[x', y'] == old(energyCost[x', y']) && predecessors[x', y'] == old(predecessors[x', y'])
      invariant forall y' :: 0 <= y' < y ==> energyCost[x, y'] == Cost(f, height, x, y')
      invariant forall y' :: 0 <= y' < y ==> predecessors[x, y'] == BestLeft(f, height, x, y')
    {
      assert energyCost[x - 1, y] == Cost(f, height, x - 1, y);
      assert y > 0 ==> energyCost[x - 1, y - 1] == Cost(f, height, x - 1, y - 1);
      assert y < height - 1 ==> energyCost[x - 1, y + 1] == Cost(f, height, x - 1, y + 1);
      var minEnergy := energyCost[x - 1, y];
      var predecessor := y;
      if y > 0 && energyCost[x - 1, y - 1] < minEnergy {
        minEnergy := energyCost[x - 1, y - 1];
        predecessor := y - 1;
      }
      if y < height - 1 && energyCost[x - 1, y + 1] < minEnergy {
        minEnergy := energyCost[x - 1, y + 1];
        predecessor := y + 1;
      }
      assert predecessor == BestLeft(f, height, x, y);
      assert f(x, y) + minEnergy == Cost(f, height, x, y);
      energyCost[x, y] := f(x, y) + minEnergy;
      predecessors[x, y] := predecessor;
    }
  }

  /** The table fill: column 0 holds the energies, every later cell its
      energy plus its chosen predecessor's cost, and the predecessor table
      the chosen rows. */
  method FillTables(width: nat, height: nat, f: EnergyFunction) returns (energyCost: array2<real>, predecessors: array2<int>)
    requires width >= 1
    ensures fresh(energyCost) && fresh(predecessors)
    ensures energyCost.Length0 == predecessors.Length0 == width
    ensures energyCost.Length1 == predecessors.Length1 == height
    ensures forall x :: 0 <= x < width ==> CostColumn(energyCost, f, height, x)
    ensures forall x :: 1 <= x < width ==> PredecessorColumn(predecessors, f, height, x)
  {
    energyCost := new real[width, height]((x, y) => 0.0);
    predecessors := new int[width, height]((x, y) => 0);

    for y := 0 to height
      invariant forall y' :: 0 <= y' < y ==> energyCost[0, y'] == Cost(f, height, 0, y')
    {
      energyCost[0, y] := f(0, y);
    }

    for x := 1 to width
      invariant forall x' :: 0 <= x' < x ==> CostColumn(energyCost, f, height, x')
      invariant forall x' :: 1 <= x' < x ==> PredecessorColumn(predecessors, f, height, x')
    {
      label before:
      FillColumn(energyCost, predecessors, f, height, x);
      forall x' | 0 <= x' < x
        ensures CostColumn(energyCost, f, height, x')
      {
        assert old@before(CostColumn(energyCost, f, height, x'));
        forall y | 0 <= y < height
          ensures energyCost[x', y] == Cost(f, height, x', y)
        {
          assert energyCost[x', y] == old@before(energyCost[x', y]);
        }
      }
      forall x' | 1 <= x' < x
        ensures PredecessorColumn(predecessors, f, height, x')
      {
        assert old@before(PredecessorColumn(predecessors, f, height, x'));
        forall y | 0 <= y < height
          ensures predecessors[x', y] == BestLeft(f, height, x', y)
        {
          assert predecessors[x', y] == old@before(predecessors[x', y]);
        }
      }
    }
  }

  /** The lowest row of least cost in the last column of a filled table. */
  method CheapestEnd(energyCost: array2<real>, width: nat, height: nat, f: EnergyFunction) returns (end: nat)
    requires width >= 1 && height >= 1
    requires energyCost.Length0 == width && energyCost.Length1 == height
    requires CostColumn(energyCost, f, height, width - 1)
    ensures end < height
    ensures CheapestIn(f, height, width - 1, end) && NoneCheaperAbove(f, height, width - 1, end)
  {
    var last := width - 1;
    end := 0;
    var minSeamEnergy := energyCost[last, 0];
    for y := 1 to height
      invariant 0 <= end < y
      invariant minSeamEnergy == Cost(f, height, last, end)
      invariant forall y' :: 0 <= y' < y ==> minSeamEnergy <= Cost(f, height, last, y')
      invariant NoneCheaperAbove(f, height, last, end)
    {
      if energyCost[last, y] < minSeamEnergy {
        minSeamEnergy := energyCost[last, y];
        end := y;
      }
    }
  }

  /** The trace-back: from `end` in the last column, each predecessor in
      turn, collected last column first and then reversed. */
  method TraceBack(predecessors: array2<int>, width: nat, height: nat, f: EnergyFunction, end: nat) returns (seam: seq<int>)
    requires width >= 1 && end < height
    requires predecessors.Length0 == width && predecessors.Length1 == height
    requires forall x :: 1 <= x < width ==> PredecessorColumn(predecessors, f, height, x)
    ensures seam == Trace(f, height, width - 1, end)
  {
    ghost var t := Trace(f, height, width - 1, end);
    TraceSteps(f, height, width - 1, end);
    var reversed: seq<int> := [];
    var currentY := end;
    var x := width - 1;
    while x >= 0
      invariant -1 <= x < width
      invariant |reversed| == width - 1 - x
      invariant forall k :: 0 <= k < |reversed| ==> reversed[k] == t[width - 1 - k]
      invariant x >= 0 ==> currentY == t[x]
    {
      reversed := reversed + [currentY];
      if x >= 1 {
        assert PredecessorColumn(predecessors, f, height, x);
        assert predecessors[x, currentY] == BestLeft(f, height, x, t[x]) == t[x - 1];
      }
      currentY := predecessors[x, currentY];
      x := x - 1;
    }
    seam := Reverse(reversed);
  }

  /** `findHorizontal`: fills the tables, picks the lowest row of least cost
      in the last column and traces the predecessors back. A picture with
      no column or no row makes an array read fail. */
  method FindHorizontal(width: nat, height: nat, f: EnergyFunction) returns (r: Result<seq<int>>)
    ensures r.Failure? <==> width == 0 || height == 0
    ensures r.Failure? ==> r.error == IndexOutOfBoundsException
    ensures r.Success? ==> IsSeam(r.value, width, height)
    ensures r.Success? ==> forall x :: 1 <= x < width ==> r.value[x - 1] == BestLeft(f, height, x, r.value[x])
    ensures r.Success? ==> CheapestIn(f, height, width - 1, r.value[width - 1])
    ensures r.Success? ==> NoneCheaperAbove(f, height, width - 1, r.value[width - 1])
    ensures r.Success? ==> SeamEnergy(f, r.value) == Cost(f, height, width - 1, r.value[width - 1])
    ensures r.Success? ==> forall s :: IsSeam(s, width, height) ==> SeamEnergy(f, r.value) <= SeamEnergy(f, s)
  {
    if width == 0 {
      return Failure(IndexOutOfBoundsException);
    }
    var energyCost, predecessors := FillTables(width, height, f);
    if height == 0 {
      return Failure(IndexOutOfBoundsException);
    }
    var seam := PickAndTrace(energyCost, predecessors, width, height, f);
    return Success(seam);
  }

  /** The part of `findHorizontal` after the tables are filled: the lowest
      row of least cost in the last column, traced back to column 0. */
  method PickAndTrace(energyCost: array2<real>, predecessors: array2<int>, width: nat, height: nat, f: EnergyFunction)
    returns (seam: seq<int>)
    requires width >= 1 && height >= 1
    requires energyCost.Length0 == width && energyCost.Length1 == height
    requires predecessors.Length0 == width && predecessors.Length1 == height
    requires CostColumn(energyCost, f, height, width - 1)
    requires forall x :: 1 <= x < width ==> PredecessorColumn(predecessors, f, height, x)
    ensures IsSeam(seam, width, height)
    ensures forall x :: 1 <= x < width ==> seam[x - 1] == BestLeft(f, height, x, seam[x])
    ensures CheapestIn(f, height, width - 1, seam[width - 1])
    ensures NoneCheaperAbove(f, height, width - 1, seam[width - 1])
    ensures SeamEnergy(f, seam) == Cost(f, height, width - 1, seam[width - 1])
    ensures forall s :: IsSeam(s, width, height) ==> SeamEnergy(f, seam) <= SeamEnergy(f, s)
  {
    var end := CheapestEnd(energyCost, width, height, f);
    seam := TraceBack(predecessors, width, height, f, end);
    TraceSteps(f, height, width - 1, end);
    TraceIsSeam(f, height, width - 1, end);
    TraceEnergy(f, height, width - 1, end);
    forall s | IsSeam(s, width, height)
      ensures SeamEnergy(f, seam) <= SeamEnergy(f, s)
    {
      TraceIsLeast(f, width, height, end, s);
    }
  }
}
