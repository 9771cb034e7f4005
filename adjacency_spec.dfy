/** What the adjacency pass computes: the ordered colour pairs of orthogonally
    touching, differently coloured pixels. */
module AdjacencySpec {
  import opened Colors
  import opened Grids

  /** The pairs of pixel (x, y) and the pixel below it, in both orders, when their colours differ. */
  function PairsBelow(g: Grid, x: nat, y: nat): (ps: set<(Color, Color)>)
    requires g.Valid() && x < g.width && y < g.height
    ensures ps != {} <==> y + 1 < g.height && At(g, x, y) != At(g, x, y + 1)
    ensures forall a, b :: (a, b) in ps ==> a != b && (b, a) in ps && {a, b} == {At(g, x, y), At(g, x, y + 1)}
  {
    if y < g.height - 1 && At(g, x, y) != At(g, x, y + 1) then {(At(g, x, y), At(g, x, y + 1)), (At(g, x, y + 1), At(g, x, y))} else {}
  }

  /** The pairs of pixel (x, y) and the pixel to its right, in both orders, when their colours differ. */
  function PairsRight(g: Grid, x: nat, y: nat): (ps: set<(Color, Color)>)
    requires g.Valid() && x < g.width && y < g.height
    ensures ps != {} <==> x + 1 < g.width && At(g, x, y) != At(g, x + 1, y)
    ensures forall a, b :: (a, b) in ps ==> a != b && (b, a) in ps && {a, b} == {At(g, x, y), At(g, x + 1, y)}
  {
    if x < g.width - 1 && At(g, x, y) != At(g, x + 1, y) then {(At(g, x, y), At(g, x + 1, y)), (At(g, x + 1, y), At(g, x, y))} else {}
  }

  /** The pairs one pass step contributes at (x, y). */
  function PairsAt(g: Grid, x: nat, y: nat): set<(Color, Color)>
    requires g.Valid()
  {
    if x < g.width && y < g.height then PairsBelow(g, x, y) + PairsRight(g, x, y) else {}
  }

  /** The pairs discovered after visiting the cells `cs`. */
  function Links(g: Grid, cs: seq<Cell>): set<(Color, Color)>
    requires g.Valid()
  {
    if cs == [] then {} else Links(g, cs[..|cs| - 1]) + PairsAt(g, cs[|cs| - 1].x, cs[|cs| - 1].y)
  }

  /** Pixels (x1, y1) and (x2, y2) of the grid share an edge: one is directly
      below or directly to the right of the other. */
  predicate Orthogonal(g: Grid, x1: nat, y1: nat, x2: nat, y2: nat) {
    x1 < g.width && y1 < g.height && x2 < g.width && y2 < g.height &&
    ((x1 == x2 && (y2 == y1 + 1 || y1 == y2 + 1)) || (y1 == y2 && (x2 == x1 + 1 || x1 == x2 + 1)))
  }

  /** Areas a and b touch: some two orthogonally adjacent pixels have colours a and b. */
  ghost predicate Touch(g: Grid, a: Color, b: Color)
    requires g.Valid()
  {
    a != b &&
    exists x1: nat, y1: nat, x2: nat, y2: nat ::
      Orthogonal(g, x1, y1, x2, y2) && At(g, x1, y1) == a && At(g, x2, y2) == b
  }

  lemma LinksStep(g: Grid, cs: seq<Cell>, c: Cell)
    requires g.Valid()
    ensures Links(g, cs + [c]) == Links(g, cs) + PairsAt(g, c.x, c.y)
  {
    assert (cs + [c])[..|cs|] == cs;
  }

  /** Every pair a visited cell contributes is discovered. */
  lemma {:induction false} LinksCover(g: Grid, cs: seq<Cell>, k: nat)
    requires g.Valid() && k < |cs|
    ensures PairsAt(g, cs[k].x, cs[k].y) <= Links(g, cs)
  {
    var n := |cs| - 1;
    if k < n {
      LinksCover(g, cs[..n], k);
      assert cs[..n][k] == cs[k];
    }
  }

  /** Every discovered pair was contributed by some visited cell, the k-th. */
  lemma {:induction false} LinksWitness(g: Grid, cs: seq<Cell>, p: (Color, Color)) returns (k: nat)
    requires g.Valid() && p in Links(g, cs)
    ensures k < |cs| && p in PairsAt(g, cs[k].x, cs[k].y)
  {
    var n := |cs| - 1;
    if p in PairsAt(g, cs[n].x, cs[n].y) {
      k := n;
    } else {
      k := LinksWitness(g, cs[..n], p);
      assert cs[..n][k] == cs[k];
    }
  }

  /** Every pair is discovered together with its reverse, and never pairs a colour with itself. */
  lemma {:induction false} LinksSymmetricIrreflexive(g: Grid, cs: seq<Cell>)
    requires g.Valid()
    ensures forall a, b :: (a, b) in Links(g, cs) ==> (b, a) in Links(g, cs) && a != b
  {
    if cs != [] {
      LinksSymmetricIrreflexive(g, cs[..|cs| - 1]);
    }
  }

  /** The pairs contributed at (x, y) are the touching pairs rooted there. */
  lemma PairsAtTouch(g: Grid, x: nat, y: nat, a: Color, b: Color)
    requires g.Valid() && x < g.width && y < g.height
    ensures (a, b) in PairsAt(g, x, y) <==>
      a != b &&
      ((y + 1 < g.height && ((At(g, x, y) == a && At(g, x, y + 1) == b) || (At(g, x, y) == b && At(g, x, y + 1) == a))) ||
       (x + 1 < g.width && ((At(g, x, y) == a && At(g, x + 1, y) == b) || (At(g, x, y) == b && At(g, x + 1, y) == a))))
  {
  }

  /** A discovered pair is a touching pair. */
  lemma LinksOnlyTouches(g: Grid, a: Color, b: Color)
    requires g.Valid() && (a, b) in Links(g, Cells(g))
    ensures Touch(g, a, b)
  {
    var cs := Cells(g);
    CellsShape(g);
    var k := LinksWitness(g, cs, (a, b));
    var x, y := cs[k].x, cs[k].y;
    assert cs[k] in cs;
    PairsAtTouch(g, x, y, a, b);
    if y + 1 < g.height && At(g, x, y) == a && At(g, x, y + 1) == b {
      assert Orthogonal(g, x, y, x, y + 1);
    } else if y + 1 < g.height && At(g, x, y) == b && At(g, x, y + 1) == a {
      assert Orthogonal(g, x, y + 1, x, y);
    } else if At(g, x, y) == a {
      assert Orthogonal(g, x, y, x + 1, y);
    } else {
      assert Orthogonal(g, x + 1, y, x, y);
    }
  }

  /** Two orthogonally adjacent pixels of different colours contribute their
      pair at the upper or left one of them. */
  lemma AdjacentRecorded(g: Grid, x1: nat, y1: nat, x2: nat, y2: nat) returns (x: nat, y: nat)
    requires g.Valid() && Orthogonal(g, x1, y1, x2, y2) && At(g, x1, y1) != At(g, x2, y2)
    ensures (x, y) == (x1, y1) || (x, y) == (x2, y2)
    ensures x < g.width && y < g.height && (At(g, x1, y1), At(g, x2, y2)) in PairsAt(g, x, y)
  {
    if x1 <= x2 && y1 <= y2 {
      x, y := x1, y1;
    } else {
      x, y := x2, y2;
    }
  }

  /** Every touching pair is discovered. */
  lemma TouchesAreLinked(g: Grid, a: Color, b: Color)
    requires g.Valid() && Touch(g, a, b)
    ensures (a, b) in Links(g, Cells(g))
  {
    var x1: nat, y1: nat, x2: nat, y2: nat :|
      Orthogonal(g, x1, y1, x2, y2) && At(g, x1, y1) == a && At(g, x2, y2) == b;
    var x, y := AdjacentRecorded(g, x1, y1, x2, y2);
    var cs := Cells(g);
    CellsShape(g);
    assert IsPixel(g, Cell(x, y, At(g, x, y)));
    var k :| 0 <= k < |cs| && cs[k] == Cell(x, y, At(g, x, y));
    LinksCover(g, cs, k);
  }

  /** After the whole pass, the discovered pairs are exactly the touching colour pairs. */
  lemma LinksAreTouches(g: Grid, a: Color, b: Color)
    requires g.Valid()
    ensures (a, b) in Links(g, Cells(g)) <==> Touch(g, a, b)
  {
    if (a, b) in Links(g, Cells(g)) {
      LinksOnlyTouches(g, a, b);
    }
    if Touch(g, a, b) {
      TouchesAreLinked(g, a, b);
    }
  }

  /** Touching is symmetric: the same two pixels, read the other way round. */
  lemma TouchSymmetric(g: Grid, a: Color, b: Color)
    requires g.Valid() && Touch(g, a, b)
    ensures Touch(g, b, a)
  {
    var x1: nat, y1: nat, x2: nat, y2: nat :|
      Orthogonal(g, x1, y1, x2, y2) && At(g, x1, y1) == a && At(g, x2, y2) == b;
    assert Orthogonal(g, x2, y2, x1, y1);
  }
}
