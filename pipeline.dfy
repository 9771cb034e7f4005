/** The whole preprocessing run on a decoded grid: the registry scan, the
    palette-overflow check, the adjacency pass, the projection of every area
    and the min-by-points diagnostic. */
module Pipeline {
  import opened Colors
  import opened Grids
  import opened Boundary
  import opened ScanSpec
  import opened AdjacencySpec
  import opened Areas
  import opened Passes
  import opened Projection
  import opened Diagnostics

  /** The number of palette indices two bytes can encode. */
  const PaletteLimit: nat := 256 * 256

  /** The diagnostic: the fewest points of any area, that area's colour, and,
      when asked for, the coordinates of its pixels. */
  datatype MinReport = MinReport(points: nat, baseColor: Color, locations: Option<seq<(nat, nat)>>)

  /** How a run ends. `PaletteOverflow` is the error raised after the scan,
      before anything is written. `Written` carries the remap plane and the
      area records; its `min` is None when the final diagnostic fails on an
      empty dictionary, which happens only after both outputs were written. */
  datatype Outcome =
    | PaletteOverflow
    | Written(remap: array2<Color>, data: seq<AreaReduced>, min: Option<MinReport>)

  /** Record `r` describes the i-th colour of the grid in first-encounter order:
      its colour and palette colour as channel arrays, its pixel count, the mean
      of its pixel coordinates, its edge flag, and one entry per colour whose
      pixels share an edge with its own. */
  ghost predicate Describes(g: Grid, rule: EdgeRule, i: nat, r: AreaReduced)
    requires g.Valid() && i < |Palette(Cells(g))|
  {
    var cs := Cells(g);
    var col := Palette(cs)[i];
    Count(cs, col) > 0 &&
    r.baseColor == EncodeColor(col) && r.remapColor == EncodeColor(RemapColor(i)) &&
    r.points == Count(cs, col) &&
    r.x == SumX(cs, col) as real / Count(cs, col) as real &&
    r.y == SumY(cs, col) as real / Count(cs, col) as real &&
    r.isEdge == TouchesEdge(cs, col, rule, g.width, g.height) &&
    Distinct(r.neighbors) &&
    (forall d :: Touch(g, col, d) ==> EncodeColor(d) in r.neighbors) &&
    (forall k :: 0 <= k < |r.neighbors| ==> exists d :: Touch(g, col, d) && r.neighbors[k] == EncodeColor(d))
  }

  /** The diagnostic names a colour of the grid with the fewest pixels and, when
      asked for, lists exactly that colour's pixels in row-major order. */
  ghost predicate MinReported(g: Grid, m: MinReport, listMinAreaLocs: bool)
    requires g.Valid()
  {
    var cs := Cells(g);
    m.baseColor in Palette(cs) && m.points == Count(cs, m.baseColor) &&
    (forall c :: c in Palette(cs) ==> m.points <= Count(cs, c)) &&
    (listMinAreaLocs ==> m.locations == Some(Matching(cs, m.baseColor))) &&
    (!listMinAreaLocs ==> m.locations == None)
  }

  /** Sum of the point counts of the records. */
  function TotalPoints(data: seq<AreaReduced>): nat
  {
    if data == [] then 0 else TotalPoints(data[..|data| - 1]) + data[|data| - 1].points
  }

  /** Every pixel colour belongs to the palette of the whole grid. */
  lemma PixelInPalette(g: Grid, x: nat, y: nat)
    requires g.Valid() && x < g.width && y < g.height
    ensures At(g, x, y) in Palette(Cells(g))
  {
    CellsShape(g);
    PaletteIsColors(Cells(g));
    var c := Cell(x, y, At(g, x, y));
    assert IsPixel(g, c);
    var k :| 0 <= k < |Cells(g)| && Cells(g)[k] == c;
    assert At(g, x, y) in ColorsOf(Cells(g));
  }

  /** Below the palette limit the remap plane is a faithful relabelling: two
      pixels get the same remap colour exactly when they have the same colour,
      and the index read back from a remap colour names the pixel's colour. */
  lemma RemapPlaneExact(g: Grid, x1: nat, y1: nat, x2: nat, y2: nat)
    requires g.Valid() && x1 < g.width && y1 < g.height && x2 < g.width && y2 < g.height
    requires |Palette(Cells(g))| <= PaletteLimit
    ensures RemapOf(g, x1, y1) == RemapOf(g, x2, y2) <==> At(g, x1, y1) == At(g, x2, y2)
    ensures PaletteIndex(RemapOf(g, x1, y1)) < |Palette(Cells(g))|
    ensures Palette(Cells(g))[PaletteIndex(RemapOf(g, x1, y1))] == At(g, x1, y1)
  {
    var p := Palette(Cells(g));
    PixelInPalette(g, x1, y1);
    PixelInPalette(g, x2, y2);
    var i, j := IndexOf(p, At(g, x1, y1)), IndexOf(p, At(g, x2, y2));
    RemapRoundTrip(i);
    if At(g, x1, y1) != At(g, x2, y2) {
      RemapInjective(i, j);
    }
  }

  /** The centroid of every record lies inside the image. */
  lemma CentroidInImage(g: Grid, rule: EdgeRule, i: nat, r: AreaReduced)
    requires g.Valid() && i < |Palette(Cells(g))| && Describes(g, rule, i, r)
    ensures 0.0 <= r.x <= (g.width - 1) as real && 0.0 <= r.y <= (g.height - 1) as real
  {
    var cs := Cells(g);
    var col := Palette(cs)[i];
    CellsShape(g);
    forall k | 0 <= k < |cs| ensures cs[k].x < g.width && cs[k].y < g.height {
      assert cs[k] in cs;
    }
    SumXBounded(cs, col, g.width);
    SumYBounded(cs, col, g.height);
    QuotientBounded(SumX(cs, col), Count(cs, col), g.width - 1);
    QuotientBounded(SumY(cs, col), Count(cs, col), g.height - 1);
  }

  /** What the finished scan guarantees the later stages: every pixel colour has
      an area, every area owns a pixel and has no neighbours yet, the base colours
      are distinct, and there are as many areas as distinct colours. */
  lemma ScanFacts(g: Grid, rule: EdgeRule, m: map<Color, nat>, a: seq<Area>)
    requires g.Valid() && ScanStateOf(m, a, Cells(g), rule, g.width, g.height)
    ensures AllMapped(g, m)
    ensures forall i :: 0 <= i < |a| ==> a[i].points > 0 && a[i].neighbors == {}
    ensures Distinct(BaseColors(a))
    ensures |a| == |ColorsOf(Cells(g))|
    ensures |a| == 0 <==> g.width * g.height == 0
  {
    var cs := Cells(g);
    PaletteIsColors(cs);
    PaletteSize(cs);
    CellsShape(g);
    forall x: nat, y: nat | x < g.width && y < g.height ensures At(g, x, y) in m {
      PixelInPalette(g, x, y);
      var i := IndexOf(Palette(cs), At(g, x, y));
      assert a[i].baseColor == At(g, x, y);
    }
    forall i | 0 <= i < |a| ensures a[i].points > 0 {
      assert Palette(cs)[i] == a[i].baseColor;
      PresentColor(cs, a[i].baseColor);
    }
    if |cs| > 0 {
      assert cs[0].color in ColorsOf(cs);
    }
  }

  /** The arena after the adjacency pass still satisfies everything the projection needs. */
  lemma ProjectionReady(g: Grid, rule: EdgeRule, m: map<Color, nat>, a0: seq<Area>, a: seq<Area>)
    requires g.Valid() && ScanStateOf(m, a0, Cells(g), rule, g.width, g.height)
    requires Consistent(m, a) && SameFields(a, a0)
    ensures forall i :: 0 <= i < |a| ==> a[i].points > 0 && NeighborsInRange(a, i)
    ensures Distinct(BaseColors(a))
  {
    ScanFacts(g, rule, m, a0);
    forall i | 0 <= i < |a| ensures a[i].points == a0[i].points && a[i].baseColor == a0[i].baseColor {
      assert a[i].(neighbors := {}) == a0[i].(neighbors := {});
    }
    assert BaseColors(a) == BaseColors(a0);
  }

  /** Slot i of the arena after both passes holds the statistics of the i-th colour. */
  lemma SlotStatistics(g: Grid, rule: EdgeRule, m: map<Color, nat>, a0: seq<Area>, a: seq<Area>, i: nat)
    requires g.Valid() && ScanStateOf(m, a0, Cells(g), rule, g.width, g.height)
    requires SameFields(a, a0) && i < |a|
    ensures i < |Palette(Cells(g))| && a[i].baseColor == Palette(Cells(g))[i] && a[i].remapColor == RemapColor(i)
    ensures a[i].points == Count(Cells(g), a[i].baseColor)
    ensures a[i].sumX == SumX(Cells(g), a[i].baseColor) && a[i].sumY == SumY(Cells(g), a[i].baseColor)
    ensures a[i].isEdge == TouchesEdge(Cells(g), a[i].baseColor, rule, g.width, g.height)
  {
    assert a[i].(neighbors := {}) == a0[i].(neighbors := {});
    assert Summarises(a0[i], Cells(g), rule, g.width, g.height);
  }

  /** The neighbours of slot i after the adjacency pass are the slots of exactly
      the colours that touch the i-th colour. */
  lemma SlotNeighbors(g: Grid, rule: EdgeRule, m: map<Color, nat>, a0: seq<Area>, a: seq<Area>, i: nat, n: nat)
    requires g.Valid() && ScanStateOf(m, a0, Cells(g), rule, g.width, g.height)
    requires Linked(a, a0, Links(g, Cells(g))) && i < |a| && n < |a|
    ensures n in a[i].neighbors <==> Touch(g, Palette(Cells(g))[i], Palette(Cells(g))[n])
  {
    ScanFacts(g, rule, m, a0);
    LinksAreTouches(g, Palette(Cells(g))[i], Palette(Cells(g))[n]);
  }

  /** After both passes the neighbour relation of the arena is symmetric and
      no area neighbours itself. */
  lemma NeighborsSymmetric(g: Grid, rule: EdgeRule, m: map<Color, nat>, a0: seq<Area>, a: seq<Area>)
    requires g.Valid() && ScanStateOf(m, a0, Cells(g), rule, g.width, g.height)
    requires Consistent(m, a) && Linked(a, a0, Links(g, Cells(g)))
    ensures SymmetricNeighbors(a)
  {
    var p := Palette(Cells(g));
    forall i, j | 0 <= i < |a| && 0 <= j < |a| && j in a[i].neighbors ensures i in a[j].neighbors {
      SlotNeighbors(g, rule, m, a0, a, i, j);
      TouchSymmetric(g, p[i], p[j]);
      SlotNeighbors(g, rule, m, a0, a, j, i);
    }
    forall i | 0 <= i < |a| ensures i !in a[i].neighbors {
      SlotNeighbors(g, rule, m, a0, a, i, i);
    }
  }

  /** Projecting slot i after both passes yields a record describing the i-th colour. */
  lemma Reported(g: Grid, rule: EdgeRule, m: map<Color, nat>, a0: seq<Area>, a: seq<Area>, i: nat, r: AreaReduced)
    requires g.Valid() && ScanStateOf(m, a0, Cells(g), rule, g.width, g.height)
    requires Consistent(m, a) && Linked(a, a0, Links(g, Cells(g)))
    requires i < |a| && a[i].points > 0 && NeighborsInRange(a, i) && Projects(r, a, i)
    ensures i < |Palette(Cells(g))| && Describes(g, rule, i, r)
  {
    var cs := Cells(g);
    var p := Palette(cs);
    SlotStatistics(g, rule, m, a0, a, i);
    var col := p[i];
    forall d | Touch(g, col, d) ensures EncodeColor(d) in r.neighbors {
      var x1: nat, y1: nat, x2: nat, y2: nat :|
        Orthogonal(g, x1, y1, x2, y2) && At(g, x1, y1) == col && At(g, x2, y2) == d;
      PixelInPalette(g, x2, y2);
      var n := IndexOf(p, d);
      SlotStatistics(g, rule, m, a0, a, n);
      SlotNeighbors(g, rule, m, a0, a, i, n);
    }
    forall k | 0 <= k < |r.neighbors| ensures exists d :: Touch(g, col, d) && r.neighbors[k] == EncodeColor(d) {
      var n :| n in a[i].neighbors && r.neighbors[k] == EncodeColor(a[n].baseColor);
      SlotStatistics(g, rule, m, a0, a, n);
      SlotNeighbors(g, rule, m, a0, a, i, n);
    }
  }

  /** The slot MinBy picks after both passes carries the fewest pixels of any colour. */
  lemma Fewest(g: Grid, rule: EdgeRule, m: map<Color, nat>, a0: seq<Area>, a: seq<Area>, best: nat)
    requires g.Valid() && ScanStateOf(m, a0, Cells(g), rule, g.width, g.height)
    requires SameFields(a, a0) && best < |a|
    requires forall j :: 0 <= j < |a| ==> a[best].points <= a[j].points
    ensures a[best].baseColor in Palette(Cells(g)) && a[best].points == Count(Cells(g), a[best].baseColor)
    ensures forall c :: c in Palette(Cells(g)) ==> a[best].points <= Count(Cells(g), c)
  {
    SlotStatistics(g, rule, m, a0, a, best);
    forall c | c in Palette(Cells(g)) ensures a[best].points <= Count(Cells(g), c) {
      var j := IndexOf(Palette(Cells(g)), c);
      SlotStatistics(g, rule, m, a0, a, j);
    }
  }

  /** The records' point counts add up to the number of pixels. */
  lemma {:induction false} TotalPointsIs(data: seq<AreaReduced>, cs: seq<Cell>, cols: seq<Color>)
    requires |data| == |cols|
    requires forall i :: 0 <= i < |data| ==> data[i].points == Count(cs, cols[i])
    ensures TotalPoints(data) == TotalCount(cs, cols)
  {
    if data != [] {
      var n := |data| - 1;
      TotalPointsIs(data[..n], cs, cols[..n]);
    }
  }

  /** All records produced after both passes describe their colours, and their
      point counts add up to the number of pixels. */
  lemma AllReported(g: Grid, rule: EdgeRule, m: map<Color, nat>, a0: seq<Area>, a: seq<Area>, data: seq<AreaReduced>)
    requires g.Valid() && ScanStateOf(m, a0, Cells(g), rule, g.width, g.height)
    requires Consistent(m, a) && Linked(a, a0, Links(g, Cells(g)))
    requires forall i :: 0 <= i < |a| ==> a[i].points > 0 && NeighborsInRange(a, i)
    requires |data| == |a| && forall i :: 0 <= i < |a| ==> Projects(data[i], a, i)
    ensures |data| == |Palette(Cells(g))|
    ensures forall i :: 0 <= i < |data| ==> Describes(g, rule, i, data[i])
    ensures TotalPoints(data) == g.width * g.height
  {
    forall i | 0 <= i < |data| ensures Describes(g, rule, i, data[i]) && data[i].points == Count(Cells(g), Palette(Cells(g))[i]) {
      Reported(g, rule, m, a0, a, i, data[i]);
    }
    CountsAddUp(Cells(g));
    CellsShape(g);
    TotalPointsIs(data, Cells(g), Palette(Cells(g)));
  }

  /** The closing diagnostic over the arena after both passes. */
  method Diagnose(g: Grid, rule: EdgeRule, areas: seq<Area>, listMinAreaLocs: bool, ghost m: map<Color, nat>, ghost a0: seq<Area>)
    returns (min: Option<MinReport>)
    requires g.Valid() && ScanStateOf(m, a0, Cells(g), rule, g.width, g.height) && SameFields(areas, a0)
    ensures min.None? <==> |areas| == 0
    ensures min.Some? ==> MinReported(g, min.value, listMinAreaLocs)
  {
    var best := MinBy(areas);
    if best.None? {
      return None;
    }
    var area := areas[best.value];
    Fewest(g, rule, m, a0, areas, best.value);
    var locations: Option<seq<(nat, nat)>> := None;
    if listMinAreaLocs {
      var locs := Locate(g, area.baseColor);
      locations := Some(locs);
    }
    min := Some(MinReport(area.points, area.baseColor, locations));
  }

  /** The records' neighbour lists form a symmetric relation without loops: the
      colour of record j is listed by record i exactly when the colour of record i
      is listed by record j, and no record lists its own colour. */
  ghost predicate SymmetricRecords(data: seq<AreaReduced>) {
    (forall i, j :: 0 <= i < |data| && 0 <= j < |data| ==>
      (data[j].baseColor in data[i].neighbors <==> data[i].baseColor in data[j].neighbors)) &&
    (forall i :: 0 <= i < |data| ==> data[i].baseColor !in data[i].neighbors)
  }

  /** A record describing the i-th colour lists the j-th colour exactly when the two colours touch. */
  lemma ListedIffTouch(g: Grid, rule: EdgeRule, i: nat, j: nat, r: AreaReduced)
    requires g.Valid() && i < |Palette(Cells(g))| && j < |Palette(Cells(g))| && Describes(g, rule, i, r)
    ensures EncodeColor(Palette(Cells(g))[j]) in r.neighbors <==> Touch(g, Palette(Cells(g))[i], Palette(Cells(g))[j])
  {
    var p := Palette(Cells(g));
    if EncodeColor(p[j]) in r.neighbors {
      var k :| 0 <= k < |r.neighbors| && r.neighbors[k] == EncodeColor(p[j]);
      var d :| Touch(g, p[i], d) && r.neighbors[k] == EncodeColor(d);
      if d != p[j] {
        EncodeInjective(d, p[j]);
      }
    }
  }

  /** Records that describe the colours of the grid slot by slot list each other symmetrically and never themselves. */
  lemma RecordsSymmetric(g: Grid, rule: EdgeRule, data: seq<AreaReduced>)
    requires g.Valid() && |data| == |Palette(Cells(g))|
    requires forall i :: 0 <= i < |data| ==> Describes(g, rule, i, data[i])
    ensures SymmetricRecords(data)
  {
    var p := Palette(Cells(g));
    forall i, j | 0 <= i < |data| && 0 <= j < |data|
      ensures data[j].baseColor in data[i].neighbors <==> data[i].baseColor in data[j].neighbors
    {
      ListedIffTouch(g, rule, i, j, data[i]);
      ListedIffTouch(g, rule, j, i, data[j]);
      if Touch(g, p[i], p[j]) { TouchSymmetric(g, p[i], p[j]); }
      if Touch(g, p[j], p[i]) { TouchSymmetric(g, p[j], p[i]); }
    }
    forall i | 0 <= i < |data| ensures data[i].baseColor !in data[i].neighbors {
      ListedIffTouch(g, rule, i, i, data[i]);
    }
  }

  /** What the run writes out besides the remap plane: one record per colour
      in first-encounter order, each describing its colour, point counts adding
      up to the number of pixels, and the closing diagnostic, absent exactly for
      an empty image. */
  ghost predicate Reports(g: Grid, rule: EdgeRule, listMinAreaLocs: bool, data: seq<AreaReduced>, min: Option<MinReport>)
    requires g.Valid()
  {
    |data| == |Palette(Cells(g))| &&
    (forall i :: 0 <= i < |data| ==> Describes(g, rule, i, data[i])) &&
    TotalPoints(data) == g.width * g.height &&
    SymmetricRecords(data) &&
    (min.None? <==> g.width * g.height == 0) &&
    (min.Some? ==> MinReported(g, min.value, listMinAreaLocs))
  }

  /** The stages after the overflow check: adjacency, projection and the closing diagnostic. */
  method AnalyseAreas(g: Grid, rule: EdgeRule, reg: AreaRegistry, listMinAreaLocs: bool)
    returns (data: seq<AreaReduced>, min: Option<MinReport>)
    requires g.Valid() && ScanStateOf(reg.areaMap, reg.areas, Cells(g), rule, g.width, g.height)
    modifies reg
    ensures SymmetricNeighbors(reg.areas)
    ensures Reports(g, rule, listMinAreaLocs, data, min)
  {
    ScanFacts(g, rule, reg.areaMap, reg.areas);
    ghost var a0 := reg.areas;
    BuildAdjacency(g, reg);
    ProjectionReady(g, rule, reg.areaMap, a0, reg.areas);
    data := ProjectAll(reg.areas);
    AllReported(g, rule, reg.areaMap, a0, reg.areas, data);
    RecordsSymmetric(g, rule, data);
    NeighborsSymmetric(g, rule, reg.areaMap, a0, reg.areas);
    min := Diagnose(g, rule, reg.areas, listMinAreaLocs, reg.areaMap, a0);
  }

  /** The run: scan, overflow check, adjacency, projection, diagnostic. */
  method Process(g: Grid, rule: EdgeRule, listMinAreaLocs: bool) returns (res: Outcome)
    requires g.Valid()
    ensures res.PaletteOverflow? <==> |ColorsOf(Cells(g))| > PaletteLimit
    ensures res.Written? ==> fresh(res.remap) && res.remap.Length0 == g.width && res.remap.Length1 == g.height
    ensures res.Written? ==>
      forall x: nat, y: nat :: x < g.width && y < g.height ==> res.remap[x, y] == RemapOf(g, x, y)
    ensures res.Written? ==> Reports(g, rule, listMinAreaLocs, res.data, res.min)
  {
    var reg, remap := Scan(g, rule);
    PaletteSize(Cells(g));
    if |reg.areas| > PaletteLimit {
      return PaletteOverflow;
    }
    var data, min := AnalyseAreas(g, rule, reg, listMinAreaLocs);
    res := Written(remap, data, min);
  }
}
