/** What the registry scan computes, stated as folds over the visited cells. */
module ScanSpec {
  import opened Colors
  import opened Grids
  import opened Boundary

  /** The distinct colours of `cs` in order of first occurrence: slot i of the
      registry is the i-th colour the scan has not seen before. */
  function Palette(cs: seq<Cell>): seq<Color>
  {
    if cs == [] then []
    else
      var p := Palette(cs[..|cs| - 1]);
      var c := cs[|cs| - 1].color;
      if c in p then p else p + [c]
  }

  /** Number of cells of colour `col`. */
  function Count(cs: seq<Cell>, col: Color): nat
  {
    if cs == [] then 0
    else Count(cs[..|cs| - 1], col) + (if cs[|cs| - 1].color == col then 1 else 0)
  }

  /** Sum of the x coordinates of the cells of colour `col`. */
  function SumX(cs: seq<Cell>, col: Color): nat
  {
    if cs == [] then 0
    else SumX(cs[..|cs| - 1], col) + (if cs[|cs| - 1].color == col then cs[|cs| - 1].x else 0)
  }

  /** Sum of the y coordinates of the cells of colour `col`. */
  function SumY(cs: seq<Cell>, col: Color): nat
  {
    if cs == [] then 0
    else SumY(cs[..|cs| - 1], col) + (if cs[|cs| - 1].color == col then cs[|cs| - 1].y else 0)
  }

  /** Whether some cell of colour `col` passes the boundary test. */
  predicate TouchesEdge(cs: seq<Cell>, col: Color, rule: EdgeRule, width: nat, height: nat)
  {
    if cs == [] then false
    else
      var c := cs[|cs| - 1];
      TouchesEdge(cs[..|cs| - 1], col, rule, width, height) ||
      (c.color == col && OnBoundary(rule, width, height, c.x, c.y))
  }

  /** The colours occurring in `cs`. */
  function ColorsOf(cs: seq<Cell>): set<Color>
  {
    set k | 0 <= k < |cs| :: cs[k].color
  }

  predicate Distinct<T(==)>(s: seq<T>) {
    forall i, j :: 0 <= i < j < |s| ==> s[i] != s[j]
  }

  /** One step of the scan: how each fold changes when a cell is appended. */
  lemma Step(cs: seq<Cell>, c: Cell)
    ensures Palette(cs + [c]) == if c.color in Palette(cs) then Palette(cs) else Palette(cs) + [c.color]
    ensures forall col :: Count(cs + [c], col) == Count(cs, col) + (if c.color == col then 1 else 0)
    ensures forall col :: SumX(cs + [c], col) == SumX(cs, col) + (if c.color == col then c.x else 0)
    ensures forall col :: SumY(cs + [c], col) == SumY(cs, col) + (if c.color == col then c.y else 0)
    ensures forall col, rule, w, h ::
      TouchesEdge(cs + [c], col, rule, w, h) ==
        (TouchesEdge(cs, col, rule, w, h) || (c.color == col && OnBoundary(rule, w, h, c.x, c.y)))
  {
    assert (cs + [c])[..|cs|] == cs;
  }

  /** The palette after one more cell: the colour is appended when it is new.
      This and CountStep each give one clause of Step on its own, so that proofs
      needing only that clause do not bring Step's quantified facts into scope. */
  lemma PaletteStep(cs: seq<Cell>, c: Cell)
    ensures Palette(cs + [c]) == if c.color in Palette(cs) then Palette(cs) else Palette(cs) + [c.color]
  {
    assert (cs + [c])[..|cs|] == cs;
  }

  /** The count of colour `col` after one more cell. */
  lemma CountStep(cs: seq<Cell>, c: Cell, col: Color)
    ensures Count(cs + [c], col) == Count(cs, col) + (if c.color == col then 1 else 0)
  {
    assert (cs + [c])[..|cs|] == cs;
  }

  /** The palette lists every colour of `cs` exactly once. */
  lemma {:induction false} PaletteIsColors(cs: seq<Cell>)
    ensures Distinct(Palette(cs))
    ensures forall col :: col in Palette(cs) <==> col in ColorsOf(cs)
  {
    if cs != [] {
      var init := cs[..|cs| - 1];
      PaletteIsColors(init);
      Step(init, cs[|cs| - 1]);
      assert init + [cs[|cs| - 1]] == cs;
      forall col ensures col in ColorsOf(cs) <==> col in ColorsOf(init) || col == cs[|cs| - 1].color {
        if col in ColorsOf(cs) {
          var k :| 0 <= k < |cs| && cs[k].color == col;
          if k < |cs| - 1 { assert init[k] == cs[k]; }
        }
        if col in ColorsOf(init) {
          var k :| 0 <= k < |init| && init[k].color == col;
          assert cs[k] == init[k];
        }
      }
    }
  }

  /** The final palette index equals the number of distinct colours. */
  lemma PaletteSize(cs: seq<Cell>)
    ensures |Palette(cs)| == |ColorsOf(cs)|
  {
    PaletteIsColors(cs);
    DistinctCard(Palette(cs));
    assert (set i | 0 <= i < |Palette(cs)| :: Palette(cs)[i]) == ColorsOf(cs);
  }

  /** A sequence without repetitions has as many elements as its set. */
  lemma {:induction false} DistinctCard<T>(s: seq<T>)
    requires Distinct(s)
    ensures |set i | 0 <= i < |s| :: s[i]| == |s|
  {
    if s != [] {
      var init := s[..|s| - 1];
      DistinctCard(init);
      var a := set i | 0 <= i < |init| :: init[i];
      var b := set i | 0 <= i < |s| :: s[i];
      assert b == a + {s[|s| - 1]};
      assert s[|s| - 1] !in a;
    }
  }

  /** Scanning further only appends to the palette: earlier indices never change. */
  lemma {:induction false} PalettePrefix(cs: seq<Cell>, k: nat)
    requires k <= |cs|
    ensures Palette(cs[..k]) <= Palette(cs)
  {
    if k < |cs| {
      var init := cs[..|cs| - 1];
      assert init[..k] == cs[..k];
      PalettePrefix(init, k);
      PaletteStep(init, cs[|cs| - 1]);
      assert init + [cs[|cs| - 1]] == cs;
    } else {
      assert cs[..k] == cs;
    }
  }

  /** First-encounter order: the colour first seen at position k gets the index
      equal to the number of distinct colours seen before position k. */
  lemma FirstEncounterIndex(cs: seq<Cell>, k: nat)
    requires k < |cs|
    requires cs[k].color !in ColorsOf(cs[..k])
    ensures |Palette(cs[..k])| < |Palette(cs)|
    ensures Palette(cs)[|Palette(cs[..k])|] == cs[k].color
  {
    PaletteIsColors(cs[..k]);
    Step(cs[..k], cs[k]);
    assert cs[..k] + [cs[k]] == cs[..k + 1];
    PalettePrefix(cs, k + 1);
  }

  /** The position of the first occurrence of `c` in `p`, or |p| when `c` does not occur. */
  function IndexOf(p: seq<Color>, c: Color): (i: nat)
    ensures i <= |p| && c !in p[..i]
    ensures i < |p| <==> c in p
    ensures i < |p| ==> p[i] == c
  {
    if p == [] then 0
    else if p[0] == c then 0
    else
      var j := IndexOf(p[1..], c);
      assert p[..j + 1] == [p[0]] + p[1..][..j];
      assert c in p[1..] ==> c in p;
      assert c in p && c != p[0] ==> c in p[1..];
      j + 1
  }

  /** In a sequence without repetitions, the slot holding a value is that value's index. */
  lemma IndexOfDistinct(p: seq<Color>, i: nat)
    requires Distinct(p) && i < |p|
    ensures IndexOf(p, p[i]) == i
  {
  }

  /** A slot of the palette of a prefix keeps its index in the palette of the whole sequence. */
  lemma SlotKept(cs: seq<Cell>, full: seq<Cell>, i: nat)
    requires cs <= full && i < |Palette(cs)|
    ensures IndexOf(Palette(full), Palette(cs)[i]) == i
  {
    assert full[..|cs|] == cs;
    PalettePrefix(full, |cs|);
    PaletteIsColors(full);
    IndexOfDistinct(Palette(full), i);
  }

  /** The remap colour of pixel (x, y): the palette colour of the index its
      colour received when the scan first met it. */
  function RemapOf(g: Grid, x: nat, y: nat): Color
    requires g.Valid() && x < g.width && y < g.height
  {
    RemapColor(IndexOf(Palette(Cells(g)), At(g, x, y)))
  }

  /** A colour not yet in the palette has contributed nothing to any fold. */
  lemma {:induction false} AbsentColor(cs: seq<Cell>, col: Color, rule: EdgeRule, w: nat, h: nat)
    requires col !in Palette(cs)
    ensures Count(cs, col) == 0 && SumX(cs, col) == 0 && SumY(cs, col) == 0
    ensures !TouchesEdge(cs, col, rule, w, h)
  {
    if cs != [] {
      var init := cs[..|cs| - 1];
      Step(init, cs[|cs| - 1]);
      assert init + [cs[|cs| - 1]] == cs;
      AbsentColor(init, col, rule, w, h);
    }
  }

  /** Every palette colour owns at least one cell. */
  lemma {:induction false} PresentColor(cs: seq<Cell>, col: Color)
    requires col in Palette(cs)
    ensures Count(cs, col) >= 1
  {
    var init := cs[..|cs| - 1];
    Step(init, cs[|cs| - 1]);
    assert init + [cs[|cs| - 1]] == cs;
    if col in Palette(init) {
      PresentColor(init, col);
    }
  }

  /** Count agrees with a direct count of the positions holding the colour. */
  lemma {:induction false} CountIsCardinality(cs: seq<Cell>, col: Color)
    ensures Count(cs, col) == |set k | 0 <= k < |cs| && cs[k].color == col|
  {
    if cs != [] {
      var n := |cs| - 1;
      var init := cs[..n];
      CountIsCardinality(init, col);
      var a := set k | 0 <= k < n && init[k].color == col;
      var b := set k | 0 <= k < |cs| && cs[k].color == col;
      if cs[n].color == col {
        assert b == a + {n};
      } else {
        assert b == a;
      }
    }
  }

  /** TouchesEdge holds exactly when some cell of the colour passes the boundary test. */
  lemma {:induction false} TouchesEdgeExists(cs: seq<Cell>, col: Color, rule: EdgeRule, w: nat, h: nat)
    ensures TouchesEdge(cs, col, rule, w, h) <==>
      exists k :: 0 <= k < |cs| && cs[k].color == col && OnBoundary(rule, w, h, cs[k].x, cs[k].y)
  {
    if cs != [] {
      var n := |cs| - 1;
      var init := cs[..n];
      TouchesEdgeExists(init, col, rule, w, h);
      if exists k :: 0 <= k < |cs| && cs[k].color == col && OnBoundary(rule, w, h, cs[k].x, cs[k].y) {
        var k :| 0 <= k < |cs| && cs[k].color == col && OnBoundary(rule, w, h, cs[k].x, cs[k].y);
        if k < n { assert init[k] == cs[k]; }
      }
      if TouchesEdge(init, col, rule, w, h) {
        var k :| 0 <= k < n && init[k].color == col && OnBoundary(rule, w, h, init[k].x, init[k].y);
        assert cs[k] == init[k];
      }
    }
  }

  /** Sum of Count over a list of colours. */
  function TotalCount(cs: seq<Cell>, cols: seq<Color>): nat
  {
    if cols == [] then 0 else TotalCount(cs, cols[..|cols| - 1]) + Count(cs, cols[|cols| - 1])
  }

  /** Appending one cell raises the total over a repetition-free list by one
      exactly when the list holds the cell's colour. */
  lemma {:induction false} TotalCountStep(cs: seq<Cell>, c: Cell, cols: seq<Color>)
    requires Distinct(cols)
    ensures TotalCount(cs + [c], cols) == TotalCount(cs, cols) + (if c.color in cols then 1 else 0)
  {
    if cols != [] {
      var init := cols[..|cols| - 1];
      CountStep(cs, c, cols[|cols| - 1]);
      assert forall i, j :: 0 <= i < j < |init| ==> init[i] == cols[i] && init[j] == cols[j];
      TotalCountStep(cs, c, init);
      assert cols == init + [cols[|cols| - 1]];
      assert c.color in cols <==> c.color in init || c.color == cols[|cols| - 1];
      assert cols[|cols| - 1] !in init;
    }
  }

  /** Appending a colour to the list adds that colour's count to the total. */
  lemma TotalCountAppend(cs: seq<Cell>, cols: seq<Color>, col: Color)
    ensures TotalCount(cs, cols + [col]) == TotalCount(cs, cols) + Count(cs, col)
  {
    assert (cols + [col])[..|cols|] == cols;
  }

  /** Count conservation: the areas' point counts add up to the number of cells. */
  lemma {:induction false} CountsAddUp(cs: seq<Cell>)
    ensures TotalCount(cs, Palette(cs)) == |cs|
  {
    if cs != [] {
      var init := cs[..|cs| - 1];
      var c := cs[|cs| - 1];
      assert init + [c] == cs;
      CountsAddUp(init);
      PaletteIsColors(init);
      Step(init, c);
      TotalCountStep(init, c, Palette(init));
      if c.color !in Palette(init) {
        TotalCountAppend(cs, Palette(init), c.color);
        AbsentColor(init, c.color, AsWritten, 0, 0);
      }
    }
  }

  lemma MulSucc(m: int, n: nat)
    ensures m * (n + 1) == m * n + m
  {
  }

  /** Each x coordinate sum is at most the count times the largest column,
      which places the centroid's x inside the image. */
  lemma {:induction false} SumXBounded(cs: seq<Cell>, col: Color, width: nat)
    requires forall k :: 0 <= k < |cs| ==> cs[k].x < width
    ensures SumX(cs, col) <= (width - 1) * Count(cs, col)
  {
    if cs != [] {
      var init := cs[..|cs| - 1];
      assert forall k :: 0 <= k < |init| ==> init[k] == cs[k];
      SumXBounded(init, col, width);
      if cs[|cs| - 1].color == col {
        MulSucc(width - 1, Count(init, col));
      }
    }
  }

  /** The same bound for the y coordinate sums and the largest row. */
  lemma {:induction false} SumYBounded(cs: seq<Cell>, col: Color, height: nat)
    requires forall k :: 0 <= k < |cs| ==> cs[k].y < height
    ensures SumY(cs, col) <= (height - 1) * Count(cs, col)
  {
    if cs != [] {
      var init := cs[..|cs| - 1];
      assert forall k :: 0 <= k < |init| ==> init[k] == cs[k];
      SumYBounded(init, col, height);
      if cs[|cs| - 1].color == col {
        MulSucc(height - 1, Count(init, col));
      }
    }
  }
}
