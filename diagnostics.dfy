/** The closing diagnostic: the area with the fewest points, and optionally
    every pixel of that area's colour. */
module Diagnostics {
  import opened Colors
  import opened Grids
  import opened Areas

  datatype Option<T> = None | Some(value: T)

  /** The slot with the fewest points, the first such slot on ties; None for an empty arena. */
  method MinBy(areas: seq<Area>) returns (r: Option<nat>)
    ensures r.None? <==> |areas| == 0
    ensures r.Some? ==> r.value < |areas|
    ensures r.Some? ==> forall j :: 0 <= j < |areas| ==> areas[r.value].points <= areas[j].points
    ensures r.Some? ==> forall j :: 0 <= j < r.value ==> areas[j].points > areas[r.value].points
  {
    if |areas| == 0 {
      return None;
    }
    var best := 0;
    for i := 1 to |areas|
      invariant best < i
      invariant forall j :: 0 <= j < i ==> areas[best].points <= areas[j].points
      invariant forall j :: 0 <= j < best ==> areas[j].points > areas[best].points
    {
      if areas[i].points < areas[best].points {
        best := i;
      }
    }
    return Some(best);
  }

  /** The coordinates of the cells of colour `c`, in the order of `cs`. */
  function Matching(cs: seq<Cell>, c: Color): seq<(nat, nat)>
  {
    if cs == [] then []
    else
      var last := cs[|cs| - 1];
      Matching(cs[..|cs| - 1], c) + (if last.color == c then [(last.x, last.y)] else [])
  }

  lemma MatchingStep(cs: seq<Cell>, cell: Cell, c: Color)
    ensures Matching(cs + [cell], c) == Matching(cs, c) + (if cell.color == c then [(cell.x, cell.y)] else [])
  {
    assert (cs + [cell])[..|cs|] == cs;
  }

  /** A coordinate is listed exactly when a cell of colour `c` at that coordinate occurs. */
  lemma {:induction false} MatchingExact(cs: seq<Cell>, c: Color, x: nat, y: nat)
    ensures (x, y) in Matching(cs, c) <==> Cell(x, y, c) in cs
  {
    if cs != [] {
      var init := cs[..|cs| - 1];
      MatchingExact(init, c, x, y);
      assert cs == init + [cs[|cs| - 1]];
    }
  }

  /** The listed coordinates keep the row-major order of the cells: a later
      entry lies strictly after an earlier one. */
  lemma {:induction false} MatchingOrdered(cs: seq<Cell>, c: Color)
    requires RowMajor(cs)
    ensures forall i, j :: 0 <= i < j < |Matching(cs, c)| ==>
      Before(Matching(cs, c)[i].0, Matching(cs, c)[i].1, Matching(cs, c)[j].0, Matching(cs, c)[j].1)
  {
    if cs != [] {
      var init := cs[..|cs| - 1];
      var last := cs[|cs| - 1];
      assert RowMajor(init);
      MatchingOrdered(init, c);
      var m := Matching(init, c);
      forall i | 0 <= i < |m| ensures Before(m[i].0, m[i].1, last.x, last.y) {
        MatchingExact(init, c, m[i].0, m[i].1);
        var k :| 0 <= k < |init| && init[k] == Cell(m[i].0, m[i].1, c);
        assert cs[k] == init[k];
      }
    }
  }

  /** Appends the pixels of colour `c` in row y, left to right. */
  method LocateRow(g: Grid, c: Color, y: nat, found: seq<(nat, nat)>) returns (locs: seq<(nat, nat)>)
    requires g.Valid() && y < g.height && found == Matching(Rows(g, y), c)
    ensures locs == Matching(Rows(g, y + 1), c)
  {
    locs := found;
    assert Scanned(g, y, 0) == Rows(g, y);
    for x := 0 to g.width
      invariant locs == Matching(Scanned(g, y, x), c)
    {
      MatchingStep(Scanned(g, y, x), Cell(x, y, At(g, x, y)), c);
      ScannedStep(g, y, x);
      if At(g, x, y) == c {
        locs := locs + [(x, y)];
      }
    }
    ScannedRowEnd(g, y);
  }

  /** Every pixel of colour `c`, in row-major order. */
  method Locate(g: Grid, c: Color) returns (locs: seq<(nat, nat)>)
    requires g.Valid()
    ensures locs == Matching(Cells(g), c)
  {
    locs := [];
    for y := 0 to g.height
      invariant locs == Matching(Rows(g, y), c)
    {
      locs := LocateRow(g, c, y, locs);
    }
  }

  /** The located pixels are exactly the pixels of colour `c`, in strict row-major order. */
  lemma LocatedPixels(g: Grid, c: Color)
    requires g.Valid()
    ensures forall x: nat, y: nat :: (x, y) in Matching(Cells(g), c) <==> x < g.width && y < g.height && At(g, x, y) == c
    ensures forall i, j :: 0 <= i < j < |Matching(Cells(g), c)| ==>
      Before(Matching(Cells(g), c)[i].0, Matching(Cells(g), c)[i].1, Matching(Cells(g), c)[j].0, Matching(Cells(g), c)[j].1)
  {
    CellsShape(g);
    MatchingOrdered(Cells(g), c);
    forall x: nat, y: nat ensures (x, y) in Matching(Cells(g), c) <==> x < g.width && y < g.height && At(g, x, y) == c {
      MatchingExact(Cells(g), c, x, y);
      assert IsPixel(g, Cell(x, y, c)) <==> x < g.width && y < g.height && At(g, x, y) == c;
    }
  }
}
