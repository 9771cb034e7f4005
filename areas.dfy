/** Areas and the colour-keyed registry that owns them. Areas live in an arena
    indexed by palette index, so an area's neighbours are a set of indices. */
module Areas {
  import opened Colors

  /** One area: its key colour, its palette colour, its point count, the running
      coordinate sums (the centroid before division), the edge flag and its neighbours. */
  datatype Area = Area(baseColor: Color, remapColor: Color, points: nat, sumX: nat, sumY: nat,
                       isEdge: bool, neighbors: set<nat>)

  /** A freshly discovered area with palette index `idx`. */
  function NewArea(c: Color, idx: nat): (a: Area)
    ensures a.baseColor == c && a.remapColor == RemapColor(idx)
    ensures a.points == 0 && a.sumX == 0 && a.sumY == 0 && !a.isEdge && a.neighbors == {}
  {
    Area(c, RemapColor(idx), 0, 0, 0, false, {})
  }

  /** Area `a` after one more pixel at (x, y): one more point, the coordinates
      added to the sums, the edge flag raised when the pixel is on the boundary. */
  function Accounted(a: Area, x: nat, y: nat, onBoundary: bool): (b: Area)
    ensures b.baseColor == a.baseColor && b.remapColor == a.remapColor && b.neighbors == a.neighbors
    ensures b.points == a.points + 1 && b.sumX == a.sumX + x && b.sumY == a.sumY + y
    ensures b.isEdge == (a.isEdge || onBoundary)
  {
    a.(points := a.points + 1, sumX := a.sumX + x, sumY := a.sumY + y, isEdge := a.isEdge || onBoundary)
  }

  /** The key colours of the arena, slot by slot. */
  function BaseColors(areas: seq<Area>): (cs: seq<Color>)
    ensures |cs| == |areas| && forall i :: 0 <= i < |areas| ==> cs[i] == areas[i].baseColor
  {
    seq(|areas|, i requires 0 <= i < |areas| => areas[i].baseColor)
  }

  /** The finalised centroid: the exact mean of the area's pixel coordinates.
      Every area of the registry owns at least one pixel, so the count is positive. */
  function Centroid(a: Area): (c: (real, real))
    requires a.points > 0
    ensures c.0 * a.points as real == a.sumX as real && c.1 * a.points as real == a.sumY as real
  {
    (a.sumX as real / a.points as real, a.sumY as real / a.points as real)
  }

  lemma QuotientBounded(s: nat, p: nat, m: int)
    requires p > 0 && s <= m * p
    ensures 0.0 <= s as real / p as real <= m as real
  {
    assert s as real <= m as real * p as real;
  }

  /** An area whose sums are bounded by its count times the largest column and
      row has its centroid inside the image. */
  lemma CentroidWithin(a: Area, width: nat, height: nat)
    requires a.points > 0
    requires a.sumX <= (width - 1) * a.points && a.sumY <= (height - 1) * a.points
    ensures 0.0 <= Centroid(a).0 <= (width - 1) as real
    ensures 0.0 <= Centroid(a).1 <= (height - 1) as real
  {
    QuotientBounded(a.sumX, a.points, width - 1);
    QuotientBounded(a.sumY, a.points, height - 1);
  }

  /** The dictionary and the arena describe the same areas: each key names the
      slot holding its area, each slot is named by its own key, slot i carries
      the palette colour of index i, and neighbour indices name slots. */
  ghost predicate Consistent(areaMap: map<Color, nat>, areas: seq<Area>) {
    (forall c :: c in areaMap ==> areaMap[c] < |areas| && areas[areaMap[c]].baseColor == c) &&
    (forall i :: 0 <= i < |areas| ==> areas[i].baseColor in areaMap && areaMap[areas[i].baseColor] == i) &&
    (forall i :: 0 <= i < |areas| ==> areas[i].remapColor == RemapColor(i)) &&
    (forall i, j :: 0 <= i < |areas| && j in areas[i].neighbors ==> j < |areas|)
  }

  /** Accounting a pixel to a slot changes neither keys, palette colours nor neighbours. */
  lemma AccountedConsistent(m: map<Color, nat>, a: seq<Area>, i: nat, x: nat, y: nat, onBoundary: bool)
    requires Consistent(m, a) && i < |a|
    ensures Consistent(m, a[i := Accounted(a[i], x, y, onBoundary)])
    ensures BaseColors(a[i := Accounted(a[i], x, y, onBoundary)]) == BaseColors(a)
  {
    var a' := a[i := Accounted(a[i], x, y, onBoundary)];
    assert forall j :: 0 <= j < |a| ==> a'[j].baseColor == a[j].baseColor;
  }

  /** In a consistent registry a colour occupies one slot only. */
  lemma OnlySlot(m: map<Color, nat>, a: seq<Area>, i: nat)
    requires Consistent(m, a) && i < |a|
    ensures forall j :: 0 <= j < |a| && j != i ==> a[j].baseColor != a[i].baseColor
  {
  }

  /** The arena after areas i and j have been made neighbours of each other:
      i gains j, j gains i, and nothing else changes. */
  function Joined(areas: seq<Area>, i: nat, j: nat): (r: seq<Area>)
    requires i < |areas| && j < |areas|
    ensures |r| == |areas|
    ensures forall k :: 0 <= k < |areas| ==>
      r[k] == areas[k].(neighbors := areas[k].neighbors + (if k == i then {j} else {}) + (if k == j then {i} else {}))
  {
    var ai := areas[i];
    var a1 := areas[i := ai.(neighbors := ai.neighbors + {j})];
    var aj := a1[j];
    a1[j := aj.(neighbors := aj.neighbors + {i})]
  }

  /** Joining two slots keeps the dictionary and the arena consistent. */
  lemma JoinedConsistent(m: map<Color, nat>, a: seq<Area>, i: nat, j: nat)
    requires Consistent(m, a) && i < |a| && j < |a|
    ensures Consistent(m, Joined(a, i, j))
  {
    var r := Joined(a, i, j);
    assert forall k :: 0 <= k < |a| ==> r[k].baseColor == a[k].baseColor && r[k].remapColor == a[k].remapColor;
  }

  /** The neighbour relation of the arena is symmetric and no area neighbours itself. */
  ghost predicate SymmetricNeighbors(a: seq<Area>) {
    (forall i, j :: 0 <= i < |a| && 0 <= j < |a| && j in a[i].neighbors ==> i in a[j].neighbors) &&
    (forall i :: 0 <= i < |a| ==> i !in a[i].neighbors)
  }

  /** Joining two distinct slots keeps the neighbour relation symmetric and irreflexive. */
  lemma JoinedSymmetric(a: seq<Area>, i: nat, j: nat)
    requires i < |a| && j < |a| && i != j && SymmetricNeighbors(a)
    ensures SymmetricNeighbors(Joined(a, i, j))
  {
  }

  /** The colour -> area dictionary of the scan, with the areas held in an arena. */
  class AreaRegistry {
    var areaMap: map<Color, nat>
    var areas: seq<Area>

    ghost predicate Valid()
      reads this
    {
      Consistent(areaMap, areas)
    }

    /** The neighbour relation is symmetric and no area neighbours itself. */
    ghost predicate Symmetric()
      reads this
    {
      SymmetricNeighbors(areas)
    }

    constructor ()
      ensures Valid() && Symmetric()
      ensures areaMap == map[] && areas == []
    {
      areaMap := map[];
      areas := [];
    }

    /** The dictionary lookup of the scan: an existing colour yields its area;
        a new colour gets the next palette index (the arena size) and a fresh area. */
    method LookupOrCreate(c: Color) returns (i: nat)
      requires Valid()
      modifies this
      ensures Valid()
      ensures i < |areas| && areas[i].baseColor == c && areaMap[c] == i
      ensures c in old(areaMap) ==> i == old(areaMap[c]) && areas == old(areas) && areaMap == old(areaMap)
      ensures c !in old(areaMap) ==>
        i == |old(areas)| && areas == old(areas) + [NewArea(c, i)] && areaMap == old(areaMap)[c := i]
    {
      if c in areaMap {
        i := areaMap[c];
      } else {
        i := |areas|;
        areas := areas + [NewArea(c, i)];
        areaMap := areaMap[c := i];
      }
    }

    /** Accounts one pixel at (x, y) to area i: one more point, the coordinates
        added to the sums, and the edge flag raised when the pixel is on the boundary. */
    method AddPoint(i: nat, x: nat, y: nat, onBoundary: bool)
      requires Valid() && i < |areas|
      modifies this
      ensures Valid() && areaMap == old(areaMap) && |areas| == |old(areas)|
      ensures areas == old(areas)[i := Accounted(old(areas[i]), x, y, onBoundary)]
    {
      areas := areas[i := Accounted(areas[i], x, y, onBoundary)];
    }

    /** Records that areas i and j border each other, in both neighbour sets. */
    method Connect(i: nat, j: nat)
      requires Valid() && i < |areas| && j < |areas|
      modifies this
      ensures Valid() && areaMap == old(areaMap)
      ensures areas == Joined(old(areas), i, j)
      ensures i != j && old(Symmetric()) ==> Symmetric()
    {
      ghost var a := areas;
      var ai := areas[i];
      areas := areas[i := ai.(neighbors := ai.neighbors + {j})];
      var aj := areas[j];
      areas := areas[j := aj.(neighbors := aj.neighbors + {i})];
      JoinedConsistent(areaMap, a, i, j);
      if i != j && SymmetricNeighbors(a) {
        JoinedSymmetric(a, i, j);
      }
    }
  }
}
