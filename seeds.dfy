/**
 * Budgeted quadtree seed placement.
 *
 * A rectangle of the edge map whose cells all share the red channel of its top-left cell
 * receives one seed at its integer midpoint. Any other rectangle is cut at its middle column
 * and middle row into four quadrants, which leave that column and that row out, and each
 * quadrant is treated the same way, in the order top-left, top-right, bottom-left,
 * bottom-right. The seeds share one budget: once it is used up, no further quadrant is visited,
 * so a placement with room for n more seeds appends the first n seeds of the unbudgeted order.
 */
module SeedPlacement {
  import opened Pixels

  /** The half-open rectangle [startX, endX) x [startY, endY) of the edge map. */
  datatype Region = Region(startX: nat, startY: nat, endX: nat, endY: nat)
  {
    predicate WellFormed()
    {
      startX <= endX && startY <= endY
    }

    predicate IsEmpty()
    {
      startX >= endX || startY >= endY
    }

    predicate Contains(x: int, y: int)
    {
      startX <= x < endX && startY <= y < endY
    }

    /** The closed rectangle [startX, endX] x [startY, endY]: the region and its far edges. */
    predicate Encloses(p: Point)
    {
      startX <= p.x <= endX && startY <= p.y <= endY
    }

    /** Width plus height: the measure that every subdivision decreases. */
    function Size(): int
    {
      (endX - startX) + (endY - startY)
    }

    /** The integer midpoint ((startX + endX) / 2, (startY + endY) / 2). */
    function Middle(): Point
    {
      Point((startX + endX) / 2, (startY + endY) / 2)
    }
  }

  /** The region is well formed and lies within the edge map. */
  predicate FitsIn(rg: Region, edges: array2<Rgb>)
  {
    rg.WellFormed() && rg.endX <= edges.Length1 && rg.endY <= edges.Length0
  }

  // ---------------------------------------------------------------------------
  // The red channel of the edge map: all that the placement looks at

  /** Red values row by row; red[y][x] is the red channel of the cell in row y, column x. */
  type RedMap = seq<seq<byte>>

  /** `red` holds, cell by cell, the red channel of the edge map. */
  ghost predicate RedOf(red: RedMap, edges: array2<Rgb>)
    reads edges
  {
    |red| == edges.Length0 &&
    (forall y :: 0 <= y < |red| ==> |red[y]| == edges.Length1) &&
    forall y, x :: 0 <= y < edges.Length0 && 0 <= x < edges.Length1 ==> red[y][x] == edges[y, x].r
  }

  /** The red channel of an edge map. */
  ghost function RedChannel(edges: array2<Rgb>): (red: RedMap)
    reads edges
    ensures RedOf(red, edges)
  {
    seq(edges.Length0, y requires 0 <= y < edges.Length0 reads edges =>
      seq(edges.Length1, x requires 0 <= x < edges.Length1 reads edges => edges[y, x].r))
  }

  /** The red value at column x, row y; 0 for a cell outside the map, which no scan reads. */
  function Cell(red: RedMap, x: int, y: int): byte
  {
    if 0 <= y < |red| && 0 <= x < |red[y]| then red[y][x] else 0
  }

  /** Every cell of the region has the red value of the region's top-left cell (vacuous when empty). */
  predicate Homogeneous(red: RedMap, rg: Region)
  {
    forall y, x :: rg.startY <= y < rg.endY && rg.startX <= x < rg.endX ==>
      Cell(red, x, y) == Cell(red, rg.startX, rg.startY)
  }

  /**
   * The four quadrants of a non-empty region, in visiting order: top-left, top-right,
   * bottom-left, bottom-right. Each is well formed, inside the region, and strictly narrower
   * and shorter than it.
   */
  function Quadrants(rg: Region): (qs: seq<Region>)
    requires rg.WellFormed() && !rg.IsEmpty()
    ensures |qs| == 4
    ensures forall i :: 0 <= i < 4 ==>
              qs[i].WellFormed() &&
              rg.startX <= qs[i].startX && qs[i].endX <= rg.endX &&
              rg.startY <= qs[i].startY && qs[i].endY <= rg.endY
    ensures forall i :: 0 <= i < 4 ==>
              qs[i].endX - qs[i].startX < rg.endX - rg.startX &&
              qs[i].endY - qs[i].startY < rg.endY - rg.startY
  {
    var m := rg.Middle();
    [Region(rg.startX, rg.startY, m.x, m.y),
     Region(m.x + 1, rg.startY, rg.endX, m.y),
     Region(rg.startX, m.y + 1, m.x, rg.endY),
     Region(m.x + 1, m.y + 1, rg.endX, rg.endY)]
  }

  /**
   * The layout of the quadrants: the first lies left of and above the middle cell, the second
   * right of and above it, the third left of and below it, the fourth right of and below it.
   * Hence they are pairwise disjoint and miss the middle column and row; together they cover
   * every other cell of the region.
   */
  lemma QuadrantLayout(rg: Region)
    requires rg.WellFormed() && !rg.IsEmpty()
    ensures var qs, m := Quadrants(rg), rg.Middle();
            (forall x, y :: qs[0].Contains(x, y) <==> rg.Contains(x, y) && x < m.x && y < m.y) &&
            (forall x, y :: qs[1].Contains(x, y) <==> rg.Contains(x, y) && x > m.x && y < m.y) &&
            (forall x, y :: qs[2].Contains(x, y) <==> rg.Contains(x, y) && x < m.x && y > m.y) &&
            (forall x, y :: qs[3].Contains(x, y) <==> rg.Contains(x, y) && x > m.x && y > m.y)
    ensures var qs := Quadrants(rg);
            forall i, j, x, y :: 0 <= i < j < 4 && qs[i].Contains(x, y) ==> !qs[j].Contains(x, y)
  {
  }

  // ---------------------------------------------------------------------------
  // What a step places

  /**
   * The seeds of a region in placement order, with no budget: the midpoint of a homogeneous
   * region, otherwise the seeds of its quadrants one after another. Never empty.
   */
  function Seeds(red: RedMap, rg: Region): (s: seq<Point>)
    requires rg.WellFormed()
    ensures |s| >= 1
    decreases rg.Size(), 1, 0
  {
    if Homogeneous(red, rg) then [rg.Middle()]
    else Subdivided(red, rg, 0)
  }

  /** The seeds of the quadrants i, i+1, ..., 3 of a non-empty region, in that order. */
  function Subdivided(red: RedMap, rg: Region, i: nat): (s: seq<Point>)
    requires rg.WellFormed() && !rg.IsEmpty() && i <= 4
    ensures |s| >= 4 - i
    decreases rg.Size(), 0, 4 - i
  {
    if i == 4 then []
    else Seeds(red, Quadrants(rg)[i]) + Subdivided(red, rg, i + 1)
  }

  /**
   * What a budget of `room` places keeps of the unbudgeted order `s`: its first `room`
   * seeds, or all of them when they fit.
   */
  function Budgeted(s: seq<Point>, room: nat): (t: seq<Point>)
    ensures |t| == if |s| <= room then |s| else room
    ensures t == s[..|t|]
  {
    if |s| <= room then s else s[..room]
  }

  /** While the seeds so far fit with room to spare, the budget passes on to what follows. */
  lemma BudgetedAppend(a: seq<Point>, b: seq<Point>, room: nat)
    requires |a| < room
    ensures Budgeted(a + b, room) == a + Budgeted(b, room - |a|)
  {
    if |b| > room - |a| {
      assert (a + b)[..room] == a + b[..room - |a|];
    }
  }

  /** Once the seeds so far fill the budget, nothing that follows is placed. */
  lemma BudgetedFull(a: seq<Point>, b: seq<Point>, room: nat)
    requires |a| >= room
    ensures Budgeted(a + b, room) == Budgeted(a, room)
  {
    assert (a + b)[..room] == a[..room];
  }

  /** A larger budget places the same first seeds, and possibly more after them. */
  lemma BudgetMonotone(s: seq<Point>, small: nat, large: nat)
    requires small <= large
    ensures Budgeted(s, small) == Budgeted(s, large)[..|Budgeted(s, small)|]
  {
  }

  /** Unfolds one quadrant of a subdivision. */
  lemma SubdividedStep(red: RedMap, rg: Region, i: nat, q: Region)
    requires rg.WellFormed() && !rg.IsEmpty() && i < 4
    requires q == Quadrants(rg)[i]
    ensures q.WellFormed()
    ensures Subdivided(red, rg, i) == Seeds(red, q) + Subdivided(red, rg, i + 1)
  {
  }

  // ---------------------------------------------------------------------------
  // The placer

  /**
   * Scans the region row by row for a cell whose red channel differs from the top-left
   * cell's, stopping at the first one. The top-left cell is read only when the region is not
   * empty; an empty region has nothing to differ and counts as homogeneous.
   */
  method ScanRegion(edges: array2<Rgb>, rg: Region, ghost red: RedMap) returns (homogeneous: bool)
    requires FitsIn(rg, edges) && RedOf(red, edges)
    ensures homogeneous <==> Homogeneous(red, rg)
  {
    var firstColor := if !rg.IsEmpty() then edges[rg.startY, rg.startX].r else 0;
    var row := rg.startY;
    while row < rg.endY
      invariant rg.startY <= row <= rg.endY
      invariant forall y, x :: rg.startY <= y < row && rg.startX <= x < rg.endX ==> edges[y, x].r == firstColor
    {
      var col := rg.startX;
      while col < rg.endX
        invariant rg.startX <= col <= rg.endX
        invariant forall x :: rg.startX <= x < col ==> edges[row, x].r == firstColor
      {
        if edges[row, col].r != firstColor {
          assert Cell(red, col, row) != Cell(red, rg.startX, rg.startY);
          return false;
        }
        col := col + 1;
      }
      row := row + 1;
    }
    return true;
  }

  lemma AppendAssociative<T>(a: seq<T>, b: seq<T>, c: seq<T>)
    ensures a + (b + c) == (a + b) + c
  {
  }

  /** The seed list and its budget, shared by every step of one placement. */
  class SeedPlacer {
    const maxSeeds: nat
    const seeds: array<Point>
    var seedsFound: nat
    /** The seeds placed so far, in placement order. */
    ghost var found: seq<Point>

    ghost predicate Valid()
      reads this, seeds
    {
      seeds.Length == maxSeeds && seedsFound <= maxSeeds && found == seeds[..seedsFound]
    }

    constructor (maxSeeds: nat)
      ensures Valid() && fresh(seeds)
      ensures this.maxSeeds == maxSeeds && seedsFound == 0 && found == []
    {
      this.maxSeeds := maxSeeds;
      seeds := new Point[maxSeeds];
      seedsFound := 0;
      found := [];
    }

    /**
     * One step over [startX, endX) x [startY, endY): if every cell shares the red channel of
     * the top-left cell, appends the midpoint; otherwise visits the four quadrants, in order,
     * while budget is left, and places no seed of its own. Either way it appends the first
     * seeds of the region's placement order, as many as the budget has room for.
     */
    method FindSeedsStep(edges: array2<Rgb>, startX: nat, startY: nat, endX: nat, endY: nat, ghost red: RedMap)
      requires Valid() && seedsFound < maxSeeds
      requires FitsIn(Region(startX, startY, endX, endY), edges) && RedOf(red, edges)
      modifies this, seeds
      ensures Valid()
      ensures old(seedsFound) < seedsFound <= maxSeeds
      ensures found == old(found) + Budgeted(Seeds(red, Region(startX, startY, endX, endY)), old(maxSeeds - seedsFound))
      decreases (endX - startX) + (endY - startY), 1
    {
      var rg := Region(startX, startY, endX, endY);
      var middleX := (startX + endX) / 2;
      var middleY := (startY + endY) / 2;

      var homogeneous := ScanRegion(edges, rg, red);
      if !homogeneous {
        VisitQuadrants(edges, rg, red);
        return;
      }

      seeds[seedsFound] := Point(middleX, middleY);
      seedsFound := seedsFound + 1;
      found := found + [Point(middleX, middleY)];
    }

    /**
     * The quadrant loop of a step over a region that is not homogeneous: the four quadrants
     * are visited in order, and the loop stops as soon as the budget is used up.
     */
    method VisitQuadrants(edges: array2<Rgb>, rg: Region, ghost red: RedMap)
      requires Valid() && seedsFound < maxSeeds
      requires FitsIn(rg, edges) && !rg.IsEmpty() && RedOf(red, edges)
      modifies this, seeds
      ensures Valid()
      ensures old(seedsFound) < seedsFound <= maxSeeds
      ensures found == old(found) + Budgeted(Subdivided(red, rg, 0), old(maxSeeds - seedsFound))
      decreases rg.Size(), 0
    {
      ghost var room := maxSeeds - seedsFound;
      ghost var found0 := found;
      var boundaries := Quadrants(rg);
      // `visited` holds every seed of the quadrants before i, `done` what the budget kept of them.
      ghost var visited: seq<Point> := [];
      ghost var done: seq<Point> := [];
      var i := 0;
      while i < 4
        invariant 0 <= i <= 4
        invariant Valid() && RedOf(red, edges)
        invariant found == found0 + done && seedsFound == |found0| + |done|
        invariant done == Budgeted(visited, room)
        invariant Subdivided(red, rg, 0) == visited + Subdivided(red, rg, i)
      {
        if seedsFound == maxSeeds {
          break;
        }
        var q := boundaries[i];
        ghost var left := maxSeeds - seedsFound;
        SubdividedStep(red, rg, i, q);
        FindSeedsStep(edges, q.startX, q.startY, q.endX, q.endY, red);
        ghost var placed := Budgeted(Seeds(red, q), left);
        BudgetedAppend(visited, Seeds(red, q), room);
        AppendAssociative(found0, done, placed);
        AppendAssociative(visited, Seeds(red, q), Subdivided(red, rg, i + 1));
        visited, done := visited + Seeds(red, q), done + placed;
        i := i + 1;
      }
      if i < 4 {
        BudgetedFull(visited, Subdivided(red, rg, i), room);
      }
    }

    /** Places seeds over the whole edge map, starting from its full extent. */
    method FindSeeds(edges: array2<Rgb>)
      requires Valid() && seedsFound < maxSeeds
      modifies this, seeds
      ensures Valid()
      ensures old(seedsFound) < seedsFound <= maxSeeds
      ensures found == old(found) + Budgeted(Seeds(RedChannel(edges), Region(0, 0, edges.Length1, edges.Length0)), old(maxSeeds - seedsFound))
    {
      FindSeedsStep(edges, 0, 0, edges.Length1, edges.Length0, RedChannel(edges));
    }
  }

  // ---------------------------------------------------------------------------
  // Properties of the placement

  /** A homogeneous region receives exactly one seed, its midpoint, which lies inside it when it is not empty. */
  lemma HomogeneousRegionOneSeed(red: RedMap, rg: Region)
    requires rg.WellFormed() && Homogeneous(red, rg)
    ensures Seeds(red, rg) == [rg.Middle()]
    ensures !rg.IsEmpty() ==> rg.Contains(rg.Middle().x, rg.Middle().y)
  {
  }

  /** An empty region is homogeneous and still receives a seed, at a point that is not inside it. */
  lemma EmptyRegionStillSeeded(red: RedMap, rg: Region)
    requires rg.WellFormed() && rg.IsEmpty()
    ensures Seeds(red, rg) == [rg.Middle()]
    ensures !rg.Contains(rg.Middle().x, rg.Middle().y)
  {
  }

  /** Every seed of a region lies in the closed rectangle of that region. */
  lemma {:induction false} SeedsEnclosed(red: RedMap, rg: Region)
    requires rg.WellFormed()
    ensures forall p :: p in Seeds(red, rg) ==> rg.Encloses(p)
    decreases rg.Size(), 1, 0
  {
    if !Homogeneous(red, rg) {
      SubdividedEnclosed(red, rg, 0);
    }
  }

  /** Every seed of the quadrants i..3 lies in the closed rectangle of the parent region. */
  lemma {:induction false} SubdividedEnclosed(red: RedMap, rg: Region, i: nat)
    requires rg.WellFormed() && !rg.IsEmpty() && i <= 4
    ensures forall p :: p in Subdivided(red, rg, i) ==> rg.Encloses(p)
    decreases rg.Size(), 0, 4 - i
  {
    if i < 4 {
      SeedsEnclosed(red, Quadrants(rg)[i]);
      SubdividedEnclosed(red, rg, i + 1);
    }
  }

  /**
   * Every seed of a whole placement over a width x height map, whatever the budget, lies in
   * [0, width] x [0, height], the far edges included.
   */
  lemma PlacementEnclosed(red: RedMap, width: nat, height: nat, room: nat)
    ensures forall p :: p in Budgeted(Seeds(red, Region(0, 0, width, height)), room) ==>
              p.x <= width && p.y <= height
  {
    var all := Seeds(red, Region(0, 0, width, height));
    SeedsEnclosed(red, Region(0, 0, width, height));
    forall p | p in Budgeted(all, room)
      ensures p in all
    {
      var k :| 0 <= k < |Budgeted(all, room)| && Budgeted(all, room)[k] == p;
      assert all[k] == p;
    }
  }

  /**
   * The far edges are reached: on a 2x1 edge map whose two cells differ, the step places four
   * seeds, one per (empty) quadrant, and three of them lie outside the map.
   */
  lemma SeedsLeaveTheMap(red: RedMap)
    requires |red| == 1 && |red[0]| == 2 && red[0][0] != red[0][1]
    ensures Seeds(red, Region(0, 0, 2, 1)) == [Point(0, 0), Point(2, 0), Point(0, 1), Point(2, 1)]
  {
    var rg := Region(0, 0, 2, 1);
    assert !Homogeneous(red, rg) by {
      assert Cell(red, 1, 0) != Cell(red, 0, 0);
    }
    var qs := Quadrants(rg);
    assert qs == [Region(0, 0, 1, 0), Region(2, 0, 2, 0), Region(0, 1, 1, 1), Region(2, 1, 2, 1)];
    assert Subdivided(red, rg, 3) == [Point(2, 1)];
    assert Subdivided(red, rg, 2) == [Point(0, 1), Point(2, 1)];
    assert Subdivided(red, rg, 1) == [Point(2, 0), Point(0, 1), Point(2, 1)];
  }

  /** An edge map whose cells all share one red value receives exactly one seed, at (width/2, height/2). */
  lemma UniformMapOneSeed(red: RedMap, width: nat)
    requires forall y :: 0 <= y < |red| ==> |red[y]| == width
    requires forall y, x :: 0 <= y < |red| && 0 <= x < width ==> red[y][x] == red[0][0]
    ensures Seeds(red, Region(0, 0, width, |red|)) == [Point(width / 2, |red| / 2)]
  {
  }

  /**
   * Seeds below the map: on a 16x2 edge map whose only odd cell is column 1 of row 0, the
   * bottom quadrants are empty and their seeds (4, 2) and (12, 2) lie on row 2.
   */
  lemma SeedsBelowTheMap(red: RedMap)
    requires |red| == 2 && |red[0]| == 16 && |red[1]| == 16
    requires red[0][1] != red[0][0]
    requires forall x :: 2 <= x < 16 ==> red[0][x] == red[0][0]
    ensures Seeds(red, Region(0, 0, 16, 2)) ==
              [Point(2, 0), Point(6, 0), Point(2, 1), Point(6, 1), Point(12, 0), Point(4, 2), Point(12, 2)]
  {
    var rg := Region(0, 0, 16, 2);
    assert !Homogeneous(red, rg) by {
      assert Cell(red, 1, 0) != Cell(red, 0, 0);
    }
    TopLeftOfSixteenByTwo(red);
    RestOfSixteenByTwo(red);
    SubdividedStep(red, rg, 0, Region(0, 0, 8, 1));
  }

  /** The other three quadrants of that map: a homogeneous strip of row 0 and two empty ones. */
  lemma RestOfSixteenByTwo(red: RedMap)
    requires |red| == 2 && |red[0]| == 16
    requires forall x :: 2 <= x < 16 ==> red[0][x] == red[0][0]
    ensures Subdivided(red, Region(0, 0, 16, 2), 1) == [Point(12, 0), Point(4, 2), Point(12, 2)]
  {
    var rg := Region(0, 0, 16, 2);
    assert Homogeneous(red, Region(9, 0, 16, 1));
    assert Quadrants(rg) == [Region(0, 0, 8, 1), Region(9, 0, 16, 1), Region(0, 2, 8, 2), Region(9, 2, 16, 2)];
    assert Subdivided(red, rg, 2) == [Point(4, 2), Point(12, 2)];
  }

  /** The top-left quadrant of that map splits into four empty quadrants, one seed each. */
  lemma TopLeftOfSixteenByTwo(red: RedMap)
    requires |red| == 2 && |red[0]| == 16 && red[0][1] != red[0][0]
    ensures Seeds(red, Region(0, 0, 8, 1)) == [Point(2, 0), Point(6, 0), Point(2, 1), Point(6, 1)]
  {
    var top := Region(0, 0, 8, 1);
    assert !Homogeneous(red, top) by {
      assert Cell(red, 1, 0) != Cell(red, 0, 0);
    }
    assert Quadrants(top) == [Region(0, 0, 4, 0), Region(5, 0, 8, 0), Region(0, 1, 4, 1), Region(5, 1, 8, 1)];
    assert Subdivided(red, top, 2) == [Point(2, 1), Point(6, 1)];
  }
}
