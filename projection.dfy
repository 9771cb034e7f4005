/** The serialisable projection of an area: colours as channel arrays, the
    finalised centroid, and the neighbours as a list of base colours. */
module Projection {
  import opened Colors
  import opened ScanSpec
  import opened Areas

  /** The record written out per area. */
  datatype AreaReduced = AreaReduced(baseColor: seq<int>, remapColor: seq<int>, points: nat, x: real, y: real,
                                     neighbors: seq<seq<int>>, isEdge: bool)

  /** Neighbour indices of slot i name slots of the arena. */
  predicate NeighborsInRange(areas: seq<Area>, i: nat)
    requires i < |areas|
  {
    forall n :: n in areas[i].neighbors ==> n < |areas|
  }

  /** Record `r` projects slot i of the arena: the colours encoded channel by
      channel, points, edge flag and centroid copied, and one entry per
      neighbour, holding that neighbour's base colour. */
  predicate Projects(r: AreaReduced, areas: seq<Area>, i: nat)
    requires i < |areas| && areas[i].points > 0 && NeighborsInRange(areas, i)
  {
    var a := areas[i];
    r.baseColor == EncodeColor(a.baseColor) && r.remapColor == EncodeColor(a.remapColor) &&
    r.points == a.points && (r.x, r.y) == Centroid(a) && r.isEdge == a.isEdge &&
    |r.neighbors| == |a.neighbors| && Distinct(r.neighbors) &&
    (forall n :: n in a.neighbors ==> EncodeColor(areas[n].baseColor) in r.neighbors) &&
    (forall k :: 0 <= k < |r.neighbors| ==>
      exists n :: n in a.neighbors && r.neighbors[k] == EncodeColor(areas[n].baseColor))
  }

  /** Visiting distinct slots of an arena with distinct base colours yields distinct encodings. */
  lemma {:induction false} DistinctEncodings(areas: seq<Area>, visited: seq<nat>, encoded: seq<seq<int>>)
    requires Distinct(BaseColors(areas)) && Distinct(visited)
    requires forall k :: 0 <= k < |visited| ==> visited[k] < |areas|
    requires |encoded| == |visited|
    requires forall k :: 0 <= k < |visited| ==> encoded[k] == EncodeColor(areas[visited[k]].baseColor)
    ensures Distinct(encoded)
  {
    forall p, q | 0 <= p < q < |encoded| ensures encoded[p] != encoded[q] {
      assert BaseColors(areas)[visited[p]] != BaseColors(areas)[visited[q]];
      EncodeInjective(areas[visited[p]].baseColor, areas[visited[q]].baseColor);
    }
  }

  /** The record of slot i; the neighbour set is drained one element at a time,
      in an order the model leaves open. */
  method Reduce(areas: seq<Area>, i: nat) returns (r: AreaReduced)
    requires i < |areas| && areas[i].points > 0 && NeighborsInRange(areas, i)
    requires Distinct(BaseColors(areas))
    ensures Projects(r, areas, i)
  {
    var area := areas[i];
    var neighbors: seq<seq<int>> := [];
    var rest := area.neighbors;
    ghost var visited: seq<nat> := [];
    while rest != {}
      invariant rest <= area.neighbors
      invariant forall n :: n in area.neighbors ==> (n in rest <==> n !in visited)
      invariant forall k :: 0 <= k < |visited| ==> visited[k] in area.neighbors
      invariant Distinct(visited)
      invariant |visited| + |rest| == |area.neighbors|
      invariant |neighbors| == |visited|
      invariant forall k :: 0 <= k < |visited| ==> neighbors[k] == EncodeColor(areas[visited[k]].baseColor)
      decreases |rest|
    {
      var n :| n in rest;
      neighbors := neighbors + [EncodeColor(areas[n].baseColor)];
      visited := visited + [n];
      rest := rest - {n};
    }
    DistinctEncodings(areas, visited, neighbors);
    forall n | n in area.neighbors ensures EncodeColor(areas[n].baseColor) in neighbors {
      var k :| 0 <= k < |visited| && visited[k] == n;
      assert neighbors[k] == EncodeColor(areas[n].baseColor);
    }
    var centroid := Centroid(area);
    r := AreaReduced(EncodeColor(area.baseColor), EncodeColor(area.remapColor), area.points,
                     centroid.0, centroid.1, neighbors, area.isEdge);
  }

  /** The records of all areas, slot by slot (palette order). */
  method ProjectAll(areas: seq<Area>) returns (data: seq<AreaReduced>)
    requires forall i :: 0 <= i < |areas| ==> areas[i].points > 0 && NeighborsInRange(areas, i)
    requires Distinct(BaseColors(areas))
    ensures |data| == |areas|
    ensures forall i :: 0 <= i < |areas| ==> Projects(data[i], areas, i)
  {
    data := [];
    for i := 0 to |areas|
      invariant |data| == i
      invariant forall j :: 0 <= j < i ==> Projects(data[j], areas, j)
    {
      var r := Reduce(areas, i);
      data := data + [r];
    }
  }
}
