/** The two row-major passes over the grid: the registry scan, which builds the
    areas and writes the remap plane, and the adjacency pass, which fills in the
    neighbour sets. */
module Passes {
  import opened Colors
  import opened Grids
  import opened Boundary
  import opened ScanSpec
  import opened AdjacencySpec
  import opened Areas

  /** The statistics of area `a` are those of its colour's cells among `cs`. */
  ghost predicate Summarises(a: Area, cs: seq<Cell>, rule: EdgeRule, width: nat, height: nat) {
    a.points == Count(cs, a.baseColor) &&
    a.sumX == SumX(cs, a.baseColor) &&
    a.sumY == SumY(cs, a.baseColor) &&
    a.isEdge == TouchesEdge(cs, a.baseColor, rule, width, height)
  }

  /** Every area of the arena summarises its colour's cells among `cs` and has no neighbours yet. */
  ghost predicate Summaries(a: seq<Area>, cs: seq<Cell>, rule: EdgeRule, width: nat, height: nat) {
    forall i :: 0 <= i < |a| ==> Summarises(a[i], cs, rule, width, height) && a[i].neighbors == {}
  }

  /** The registry holds one area per colour of `cs`, in first-encounter order,
      each summarising its colour's cells and without neighbours yet. */
  ghost predicate ScanStateOf(m: map<Color, nat>, a: seq<Area>, cs: seq<Cell>, rule: EdgeRule, width: nat, height: nat) {
    Consistent(m, a) && BaseColors(a) == Palette(cs) && Summaries(a, cs, rule, width, height)
  }

  ghost predicate ScanState(reg: AreaRegistry, cs: seq<Cell>, rule: EdgeRule, width: nat, height: nat)
    reads reg
  {
    ScanStateOf(reg.areaMap, reg.areas, cs, rule, width, height)
  }

  /** Looking up the next cell's colour: the arena afterwards (the old one, or
      the old one with a fresh area appended) lists the palette of the longer
      prefix, and every area still summarises the shorter one. */
  lemma {:induction false} LookupStep(a: seq<Area>, a': seq<Area>, s: seq<Cell>, cell: Cell, rule: EdgeRule, w: nat, h: nat)
    requires BaseColors(a) == Palette(s)
    requires Summaries(a, s, rule, w, h)
    requires cell.color in Palette(s) ==> a' == a
    requires cell.color !in Palette(s) ==> a' == a + [NewArea(cell.color, |a|)]
    ensures BaseColors(a') == Palette(s + [cell])
    ensures Summaries(a', s, rule, w, h)
  {
    Step(s, cell);
    if cell.color !in Palette(s) {
      AbsentColor(s, cell.color, rule, w, h);
      assert forall j :: 0 <= j < |a| ==> a'[j] == a[j];
    }
  }

  /** Accounting the cell to its own area, the only one of its colour, makes
      every area summarise the longer prefix. */
  lemma {:induction false} AccountStep(a: seq<Area>, i: nat, s: seq<Cell>, cell: Cell, rule: EdgeRule, w: nat, h: nat)
    requires i < |a| && a[i].baseColor == cell.color
    requires forall j :: 0 <= j < |a| && j != i ==> a[j].baseColor != cell.color
    requires Summaries(a, s, rule, w, h)
    ensures Summaries(a[i := Accounted(a[i], cell.x, cell.y, OnBoundary(rule, w, h, cell.x, cell.y))], s + [cell], rule, w, h)
  {
    Step(s, cell);
  }

  /** One scan step on values: looking the cell's colour up (m, a -> m1, a1, slot i)
      and accounting the cell to slot i keeps the state in step with the visited cells. */
  lemma {:induction false} ScanStep(m: map<Color, nat>, a: seq<Area>, m1: map<Color, nat>, a1: seq<Area>, i: nat,
                                    s: seq<Cell>, cell: Cell, rule: EdgeRule, w: nat, h: nat)
    requires ScanStateOf(m, a, s, rule, w, h)
    requires Consistent(m1, a1) && i < |a1| && a1[i].baseColor == cell.color && m1[cell.color] == i
    requires cell.color in m ==> a1 == a && m1 == m
    requires cell.color !in m ==> i == |a| && a1 == a + [NewArea(cell.color, i)] && m1 == m[cell.color := i]
    ensures ScanStateOf(m1, a1[i := Accounted(a1[i], cell.x, cell.y, OnBoundary(rule, w, h, cell.x, cell.y))],
                        s + [cell], rule, w, h)
  {
    assert cell.color in m <==> cell.color in Palette(s);
    LookupStep(a, a1, s, cell, rule, w, h);
    OnlySlot(m1, a1, i);
    AccountStep(a1, i, s, cell, rule, w, h);
    AccountedConsistent(m1, a1, i, cell.x, cell.y, OnBoundary(rule, w, h, cell.x, cell.y));
  }

  /** The registry as a value: the colour -> slot dictionary and the arena. */
  datatype Registry = Registry(areaMap: map<Color, nat>, areas: seq<Area>)

  /** The dictionary lookup on values: an existing colour leaves the registry as
      it is; a new colour gets the next palette index and a fresh area. */
  function Lookup(r: Registry, c: Color): (r': Registry)
    ensures r'.areaMap.Keys == r.areaMap.Keys + {c}
    ensures forall k :: k in r.areaMap ==> r'.areaMap[k] == r.areaMap[k]
    ensures r.areas <= r'.areas && |r'.areas| == |r.areas| + (if c in r.areaMap then 0 else 1)
    ensures c !in r.areaMap ==> r'.areaMap[c] == |r.areas| && r'.areas[|r.areas|] == NewArea(c, |r.areas|)
  {
    if c in r.areaMap then r else Registry(r.areaMap[c := |r.areas|], r.areas + [NewArea(c, |r.areas|)])
  }

  /** The lookup keeps the registry consistent and files the colour under a slot holding it. */
  lemma LookupConsistent(r: Registry, c: Color)
    requires Consistent(r.areaMap, r.areas)
    ensures Consistent(Lookup(r, c).areaMap, Lookup(r, c).areas)
    ensures c in Lookup(r, c).areaMap && Lookup(r, c).areaMap[c] < |Lookup(r, c).areas|
    ensures Lookup(r, c).areas[Lookup(r, c).areaMap[c]].baseColor == c
  {
    if c !in r.areaMap {
      var r1 := Lookup(r, c);
      assert forall k :: 0 <= k < |r.areas| ==> r1.areas[k] == r.areas[k];
    }
  }

  /** The registry after visiting one more cell: the cell's colour is looked up,
      then the cell is accounted to the area of its colour. */
  function Visit(r: Registry, cell: Cell, rule: EdgeRule, w: nat, h: nat): (r': Registry)
    ensures r'.areaMap.Keys == r.areaMap.Keys + {cell.color}
    ensures |r'.areas| == |r.areas| + (if cell.color in r.areaMap then 0 else 1)
    ensures forall k :: 0 <= k < |r.areas| && !(cell.color in r.areaMap && k == r.areaMap[cell.color]) ==>
      r'.areas[k] == r.areas[k]
  {
    var r1 := Lookup(r, cell.color);
    if cell.color in r1.areaMap && r1.areaMap[cell.color] < |r1.areas| then
      var i := r1.areaMap[cell.color];
      Registry(r1.areaMap, r1.areas[i := Accounted(r1.areas[i], cell.x, cell.y, OnBoundary(rule, w, h, cell.x, cell.y))])
    else r1
  }

  /** The registry after visiting the cells `cs` in order, starting from the empty one. */
  function ScanOf(cs: seq<Cell>, rule: EdgeRule, w: nat, h: nat): (r: Registry)
    ensures r.areaMap.Keys == ColorsOf(cs)
    ensures |r.areas| == |Palette(cs)|
  {
    if cs == [] then Registry(map[], [])
    else
      var init := cs[..|cs| - 1];
      assert cs == init + [cs[|cs| - 1]];
      PaletteIsColors(init);
      PaletteStep(init, cs[|cs| - 1]);
      Visit(ScanOf(init, rule, w, h), cs[|cs| - 1], rule, w, h)
  }

  /** Visiting one more cell keeps the registry in step with the visited cells. */
  lemma VisitStep(r: Registry, s: seq<Cell>, cell: Cell, rule: EdgeRule, w: nat, h: nat)
    requires ScanStateOf(r.areaMap, r.areas, s, rule, w, h)
    ensures ScanStateOf(Visit(r, cell, rule, w, h).areaMap, Visit(r, cell, rule, w, h).areas, s + [cell], rule, w, h)
  {
    LookupConsistent(r, cell.color);
    var r1 := Lookup(r, cell.color);
    ScanStep(r.areaMap, r.areas, r1.areaMap, r1.areas, r1.areaMap[cell.color], s, cell, rule, w, h);
  }

  /** The registry built by visiting `cs` holds one area per colour of `cs`, in
      first-encounter order, each summarising its colour's cells. */
  lemma {:induction false} ScanOfState(cs: seq<Cell>, rule: EdgeRule, w: nat, h: nat)
    ensures ScanStateOf(ScanOf(cs, rule, w, h).areaMap, ScanOf(cs, rule, w, h).areas, cs, rule, w, h)
  {
    if cs != [] {
      var s, cell := cs[..|cs| - 1], cs[|cs| - 1];
      assert cs == s + [cell];
      ScanOfState(s, rule, w, h);
      VisitStep(ScanOf(s, rule, w, h), s, cell, rule, w, h);
    }
  }

  /** Following the cells one further: the fold over the longer prefix is one more visit. */
  lemma ScanOfStep(g: Grid, rule: EdgeRule, x: nat, y: nat)
    requires g.Valid() && x < g.width && y < g.height
    ensures ScanOf(Scanned(g, y, x + 1), rule, g.width, g.height) ==
      Visit(ScanOf(Scanned(g, y, x), rule, g.width, g.height), Cell(x, y, At(g, x, y)), rule, g.width, g.height)
  {
    ScannedStep(g, y, x);
    var s := Scanned(g, y, x);
    assert (s + [Cell(x, y, At(g, x, y))])[..|s|] == s;
  }

  /** Once pixel (x, y) has been visited, the slot holding its colour carries
      the pixel's remap colour. */
  lemma PixelRemap(g: Grid, rule: EdgeRule, i: nat, x: nat, y: nat)
    requires g.Valid() && x < g.width && y < g.height
    requires i < |ScanOf(Scanned(g, y, x + 1), rule, g.width, g.height).areas|
    requires ScanOf(Scanned(g, y, x + 1), rule, g.width, g.height).areas[i].baseColor == At(g, x, y)
    ensures ScanOf(Scanned(g, y, x + 1), rule, g.width, g.height).areas[i].remapColor == RemapOf(g, x, y)
  {
    var a := ScanOf(Scanned(g, y, x + 1), rule, g.width, g.height).areas;
    ScanOfState(Scanned(g, y, x + 1), rule, g.width, g.height);
    assert BaseColors(a)[i] == a[i].baseColor;
    ScannedPrefix(g, y, x + 1);
    SlotKept(Scanned(g, y, x + 1), Cells(g), i);
  }

  /** The registry object holds the registry built by visiting `cs`. */
  ghost predicate Holds(reg: AreaRegistry, cs: seq<Cell>, rule: EdgeRule, w: nat, h: nat)
    reads reg
  {
    Registry(reg.areaMap, reg.areas) == ScanOf(cs, rule, w, h)
  }

  /** Visiting one more cell: the registry follows the visited cells one further,
      and the result is the remap colour of the cell's area. */
  method ScanPixel(g: Grid, rule: EdgeRule, reg: AreaRegistry, x: nat, y: nat) returns (remapColor: Color)
    requires g.Valid() && x < g.width && y < g.height
    requires Holds(reg, Scanned(g, y, x), rule, g.width, g.height)
    modifies reg
    ensures Holds(reg, Scanned(g, y, x + 1), rule, g.width, g.height)
    ensures remapColor == RemapOf(g, x, y)
  {
    ScanOfState(Scanned(g, y, x), rule, g.width, g.height);
    ScanOfStep(g, rule, x, y);
    var c := g.rows[y][x];
    var i := reg.LookupOrCreate(c);
    remapColor := reg.areas[i].remapColor;
    reg.AddPoint(i, x, y, OnBoundary(rule, g.width, g.height, x, y));
    PixelRemap(g, rule, i, x, y);
  }

  /** The remap pixels before (x, y) in row-major order are written. */
  ghost predicate PaintedBefore(g: Grid, remap: array2<Color>, x: nat, y: nat)
    requires g.Valid() && remap.Length0 == g.width && remap.Length1 == g.height
    reads remap
  {
    forall x': nat, y': nat :: x' < g.width && y' < g.height && (y' < y || (y' == y && x' < x)) ==>
      remap[x', y'] == RemapOf(g, x', y')
  }

  /** Writes the remap pixel (x, y), the next one in row-major order. */
  method Paint(g: Grid, remap: array2<Color>, x: nat, y: nat, c: Color)
    requires g.Valid() && x < g.width && y < g.height
    requires remap.Length0 == g.width && remap.Length1 == g.height
    requires c == RemapOf(g, x, y) && PaintedBefore(g, remap, x, y)
    modifies remap
    ensures PaintedBefore(g, remap, x + 1, y)
    ensures remap[x, y] == c
    ensures forall x': nat, y': nat :: x' < g.width && y' < g.height && (x', y') != (x, y) ==>
      remap[x', y'] == old(remap[x', y'])
  {
    remap[x, y] := c;
  }

  /** Visits pixel (x, y): the registry follows the visited cells one further
      and the pixel's remap colour is written. */
  method ScanCell(g: Grid, rule: EdgeRule, reg: AreaRegistry, remap: array2<Color>, x: nat, y: nat)
    requires g.Valid() && x < g.width && y < g.height
    requires remap.Length0 == g.width && remap.Length1 == g.height
    requires Holds(reg, Scanned(g, y, x), rule, g.width, g.height) && PaintedBefore(g, remap, x, y)
    modifies reg, remap
    ensures Holds(reg, Scanned(g, y, x + 1), rule, g.width, g.height) && PaintedBefore(g, remap, x + 1, y)
    ensures forall x': nat, y': nat :: x' < g.width && y' < g.height && (x', y') != (x, y) ==>
      remap[x', y'] == old(remap[x', y'])
  {
    var remapColor := ScanPixel(g, rule, reg, x, y);
    Paint(g, remap, x, y, remapColor);
  }

  /** Scans row y left to right: the registry now holds the cells up to the end
      of row y and the remap pixels up to the end of row y are written. */
  method ScanRow(g: Grid, rule: EdgeRule, reg: AreaRegistry, remap: array2<Color>, y: nat)
    requires g.Valid() && y < g.height
    requires remap.Length0 == g.width && remap.Length1 == g.height
    requires Holds(reg, Scanned(g, y, 0), rule, g.width, g.height) && PaintedBefore(g, remap, 0, y)
    modifies reg, remap
    ensures Holds(reg, Scanned(g, y, g.width), rule, g.width, g.height) && PaintedBefore(g, remap, g.width, y)
    ensures forall x': nat, y': nat :: x' < g.width && y' < g.height && y' != y ==>
      remap[x', y'] == old(remap[x', y'])
  {
    for x := 0 to g.width
      invariant Holds(reg, Scanned(g, y, x), rule, g.width, g.height)
      invariant PaintedBefore(g, remap, x, y)
      invariant forall x': nat, y': nat :: x' < g.width && y' < g.height && (y' != y || x' >= x) ==>
        remap[x', y'] == old(remap[x', y'])
    {
      ScanCell(g, rule, reg, remap, x, y);
    }
  }

  /** The registry scan: one area per distinct colour, indexed in row-major
      first-encounter order, with each area's point count, coordinate sums and
      edge flag those of its colour's pixels, and every remap pixel set to the
      palette colour of its pixel's area. */
  method Scan(g: Grid, rule: EdgeRule) returns (reg: AreaRegistry, remap: array2<Color>)
    requires g.Valid()
    ensures fresh(reg) && fresh(remap)
    ensures Holds(reg, Cells(g), rule, g.width, g.height)
    ensures ScanState(reg, Cells(g), rule, g.width, g.height)
    ensures remap.Length0 == g.width && remap.Length1 == g.height
    ensures forall x: nat, y: nat :: x < g.width && y < g.height ==> remap[x, y] == RemapOf(g, x, y)
  {
    reg := new AreaRegistry();
    remap := new Color[g.width, g.height];
    ScanRows(g, rule, reg, remap);
    ScanOfState(Cells(g), rule, g.width, g.height);
  }

  /** The row loop of the scan, from the empty registry to the whole grid. */
  method ScanRows(g: Grid, rule: EdgeRule, reg: AreaRegistry, remap: array2<Color>)
    requires g.Valid() && remap.Length0 == g.width && remap.Length1 == g.height
    requires reg.areaMap == map[] && reg.areas == []
    modifies reg, remap
    ensures Holds(reg, Cells(g), rule, g.width, g.height)
    ensures forall x: nat, y: nat :: x < g.width && y < g.height ==> remap[x, y] == RemapOf(g, x, y)
  {
    for y := 0 to g.height
      invariant Holds(reg, Rows(g, y), rule, g.width, g.height)
      invariant PaintedBefore(g, remap, 0, y)
    {
      ScannedRowStart(g, y);
      ScanRow(g, rule, reg, remap, y);
      ScannedRowEnd(g, y);
    }
  }

  /** Every pixel colour of the grid is a key of the dictionary. */
  ghost predicate AllMapped(g: Grid, m: map<Color, nat>)
    requires g.Valid()
  {
    forall x: nat, y: nat :: x < g.width && y < g.height ==> At(g, x, y) in m
  }

  /** Apart from their neighbour sets the areas of `a` are those of `a0`. */
  ghost predicate SameFields(a: seq<Area>, a0: seq<Area>) {
    |a| == |a0| && forall k :: 0 <= k < |a| ==> a[k].(neighbors := {}) == a0[k].(neighbors := {})
  }

  /** Area k of `a` neighbours area j exactly when it did in `a0` or the colour
      pair of k and j is in `links`. */
  ghost predicate NeighborsFrom(a: seq<Area>, a0: seq<Area>, links: set<(Color, Color)>)
    requires |a| == |a0|
  {
    forall k, j :: 0 <= k < |a| && 0 <= j < |a| ==>
      (j in a[k].neighbors <==> j in a0[k].neighbors || (a0[k].baseColor, a0[j].baseColor) in links)
  }

  /** The areas of `a` are those of `a0` with the neighbour pairs of `links` added. */
  ghost predicate Linked(a: seq<Area>, a0: seq<Area>, links: set<(Color, Color)>) {
    SameFields(a, a0) && NeighborsFrom(a, a0, links)
  }

  /** The adjacency pass has visited the cells `cs`: the registry is consistent and
      its neighbour sets record the pairs discovered so far on top of those of `a0`. */
  ghost predicate AdjState(g: Grid, reg: AreaRegistry, a0: seq<Area>, cs: seq<Cell>)
    requires g.Valid()
    reads reg
  {
    Consistent(reg.areaMap, reg.areas) && Linked(reg.areas, a0, Links(g, cs))
  }

  /** Slots k and j of the joined arena neighbour each other exactly when they did
      before or their colours are c and d, in either order. */
  lemma JoinPair(m: map<Color, nat>, a: seq<Area>, c: Color, d: Color, k: nat, j: nat)
    requires Consistent(m, a) && c in m && d in m && k < |a| && j < |a|
    ensures j in Joined(a, m[c], m[d])[k].neighbors <==>
      j in a[k].neighbors || (a[k].baseColor, a[j].baseColor) in {(c, d), (d, c)}
  {
    // a slot holds colour c exactly when it is c's slot
    assert a[k].baseColor == c <==> k == m[c];
    assert a[k].baseColor == d <==> k == m[d];
    assert a[j].baseColor == c <==> j == m[c];
    assert a[j].baseColor == d <==> j == m[d];
  }

  lemma JoinFields(m: map<Color, nat>, a: seq<Area>, a0: seq<Area>, c: Color, d: Color)
    requires Consistent(m, a) && SameFields(a, a0) && c in m && d in m
    ensures SameFields(Joined(a, m[c], m[d]), a0)
  {
    var r := Joined(a, m[c], m[d]);
    forall k | 0 <= k < |a| ensures r[k].(neighbors := {}) == a0[k].(neighbors := {}) {
      assert a[k].(neighbors := {}) == a0[k].(neighbors := {});
    }
  }

  lemma JoinNeighbors(m: map<Color, nat>, a: seq<Area>, a0: seq<Area>, links: set<(Color, Color)>, c: Color, d: Color)
    requires Consistent(m, a) && Linked(a, a0, links) && c in m && d in m
    ensures NeighborsFrom(Joined(a, m[c], m[d]), a0, links + {(c, d), (d, c)})
  {
    var r := Joined(a, m[c], m[d]);
    forall k, j | 0 <= k < |a| && 0 <= j < |a|
      ensures j in r[k].neighbors <==> j in a0[k].neighbors || (a0[k].baseColor, a0[j].baseColor) in links + {(c, d), (d, c)}
    {
      JoinPair(m, a, c, d, k, j);
      assert a[k].(neighbors := {}).baseColor == a0[k].(neighbors := {}).baseColor;
      assert a[j].(neighbors := {}).baseColor == a0[j].(neighbors := {}).baseColor;
    }
    assert |r| == |a0|;
    assert NeighborsFrom(r, a0, links + {(c, d), (d, c)});
  }

  /** Connecting the areas of colours c and d records the pair in both orders. */
  lemma JoinStep(m: map<Color, nat>, a: seq<Area>, a0: seq<Area>, links: set<(Color, Color)>, c: Color, d: Color)
    requires Consistent(m, a) && Linked(a, a0, links) && c in m && d in m
    ensures Consistent(m, Joined(a, m[c], m[d]))
    ensures Linked(Joined(a, m[c], m[d]), a0, links + {(c, d), (d, c)})
  {
    JoinedConsistent(m, a, m[c], m[d]);
    JoinFields(m, a, a0, c, d);
    JoinNeighbors(m, a, a0, links, c, d);
  }

  /** Connects the areas of colours c and d, recording the pair in both orders. */
  method Join(reg: AreaRegistry, c: Color, d: Color, ghost a0: seq<Area>, ghost links: set<(Color, Color)>,
              ghost added: set<(Color, Color)>)
    requires Consistent(reg.areaMap, reg.areas) && Linked(reg.areas, a0, links)
    requires c in reg.areaMap && d in reg.areaMap && added == {(c, d), (d, c)}
    modifies reg
    ensures reg.areaMap == old(reg.areaMap)
    ensures Consistent(reg.areaMap, reg.areas) && Linked(reg.areas, a0, links + added)
  {
    JoinStep(reg.areaMap, reg.areas, a0, links, c, d);
    reg.Connect(reg.areaMap[c], reg.areaMap[d]);
  }

  /** A comparison that finds equal colours adds no pair. This is kept as a
      lemma so that the early returns of ConnectBelow and ConnectRight restate
      Linked without the set identity being rediscovered in a large context. */
  lemma LinkedNone(a: seq<Area>, a0: seq<Area>, links: set<(Color, Color)>)
    requires Linked(a, a0, links)
    ensures Linked(a, a0, links + {})
  {
    assert links + {} == links;
  }

  /** Visiting (x, y) adds the pairs below it and to its right. */
  lemma PixelLinks(g: Grid, y: nat, x: nat)
    requires g.Valid() && x < g.width && y < g.height
    ensures Links(g, Scanned(g, y, x + 1)) == Links(g, Scanned(g, y, x)) + PairsBelow(g, x, y) + PairsRight(g, x, y)
  {
    LinksStep(g, Scanned(g, y, x), Cell(x, y, At(g, x, y)));
    ScannedStep(g, y, x);
  }

  /** The pixel (x, y) against the one below it: their areas are connected when the colours differ. */
  method ConnectBelow(g: Grid, reg: AreaRegistry, x: nat, y: nat, ghost a0: seq<Area>, ghost links: set<(Color, Color)>)
    requires g.Valid() && x < g.width && y < g.height && AllMapped(g, reg.areaMap)
    requires Consistent(reg.areaMap, reg.areas) && Linked(reg.areas, a0, links)
    modifies reg
    ensures reg.areaMap == old(reg.areaMap)
    ensures Consistent(reg.areaMap, reg.areas) && Linked(reg.areas, a0, links + PairsBelow(g, x, y))
  {
    if y < g.height - 1 {
      var c1, c2 := At(g, x, y), At(g, x, y + 1);
      if c1 != c2 {
        Join(reg, c1, c2, a0, links, PairsBelow(g, x, y));
        return;
      }
    }
    LinkedNone(reg.areas, a0, links);
  }

  /** The pixel (x, y) against the one to its right: their areas are connected when the colours differ. */
  method ConnectRight(g: Grid, reg: AreaRegistry, x: nat, y: nat, ghost a0: seq<Area>, ghost links: set<(Color, Color)>)
    requires g.Valid() && x < g.width && y < g.height && AllMapped(g, reg.areaMap)
    requires Consistent(reg.areaMap, reg.areas) && Linked(reg.areas, a0, links)
    modifies reg
    ensures reg.areaMap == old(reg.areaMap)
    ensures Consistent(reg.areaMap, reg.areas) && Linked(reg.areas, a0, links + PairsRight(g, x, y))
  {
    if x < g.width - 1 {
      var c1, c3 := At(g, x, y), At(g, x + 1, y);
      if c1 != c3 {
        Join(reg, c1, c3, a0, links, PairsRight(g, x, y));
        return;
      }
    }
    LinkedNone(reg.areas, a0, links);
  }

  /** One adjacency step at (x, y): the pixel against the one below it and the one to
      its right, connecting the two areas when the colours differ. */
  method ConnectPixel(g: Grid, reg: AreaRegistry, x: nat, y: nat, ghost a0: seq<Area>)
    requires g.Valid() && x < g.width && y < g.height && AllMapped(g, reg.areaMap)
    requires AdjState(g, reg, a0, Scanned(g, y, x))
    modifies reg
    ensures reg.areaMap == old(reg.areaMap)
    ensures AdjState(g, reg, a0, Scanned(g, y, x + 1))
  {
    ghost var links := Links(g, Scanned(g, y, x));
    ConnectBelow(g, reg, x, y, a0, links);
    ConnectRight(g, reg, x, y, a0, links + PairsBelow(g, x, y));
    PixelLinks(g, y, x);
  }

  /** The adjacency steps of row y, left to right. */
  method ConnectRow(g: Grid, reg: AreaRegistry, y: nat, ghost a0: seq<Area>)
    requires g.Valid() && y < g.height && AllMapped(g, reg.areaMap)
    requires AdjState(g, reg, a0, Rows(g, y))
    modifies reg
    ensures reg.areaMap == old(reg.areaMap)
    ensures AdjState(g, reg, a0, Rows(g, y + 1))
  {
    assert Scanned(g, y, 0) == Rows(g, y);
    for x := 0 to g.width
      invariant reg.areaMap == old(reg.areaMap)
      invariant AdjState(g, reg, a0, Scanned(g, y, x))
    {
      ConnectPixel(g, reg, x, y, a0);
    }
    ScannedRowEnd(g, y);
  }

  /** The adjacency pass: afterwards area k neighbours area j exactly when it did
      before or some pixel of k's colour shares an edge with a pixel of j's colour. */
  method BuildAdjacency(g: Grid, reg: AreaRegistry)
    requires g.Valid() && reg.Valid() && AllMapped(g, reg.areaMap)
    modifies reg
    ensures reg.Valid() && reg.areaMap == old(reg.areaMap)
    ensures Linked(reg.areas, old(reg.areas), Links(g, Cells(g)))
  {
    ghost var a0 := reg.areas;
    assert forall k :: 0 <= k < |a0| ==> a0[k].(neighbors := {}) == a0[k].(neighbors := {});
    for y := 0 to g.height
      invariant reg.areaMap == old(reg.areaMap)
      invariant AdjState(g, reg, a0, Rows(g, y))
    {
      ConnectRow(g, reg, y, a0);
    }
  }
}
