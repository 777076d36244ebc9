/**
 * Nearest-seed stylization.
 *
 * Every output pixel takes the colour that the source image has at the seed nearest to it,
 * nearness being the squared Euclidean distance in 32-bit arithmetic. Seeds are tried in
 * placement order and a later seed replaces the current one only when it is strictly nearer,
 * so of several equally near seeds the first one wins.
 */
module Stylization {
  import opened Pixels
  import SeedPlacement

  /** INT32_MAX, the starting "distance" before any seed has been tried. */
  const Int32Max: int := 0x7fff_ffff

  /**
   * The largest side for which every squared distance between two pixels of the image fits
   * in a 32-bit int: 2 * 32767 * 32767 < Int32Max.
   */
  const MaxSide: nat := 32768

  /** The squared Euclidean distance between a seed and the pixel in column col, row row. */
  function SquaredDistance(p: Point, col: int, row: int): (d: nat)
    ensures d == 0 <==> p.x == col && p.y == row
  {
    var dx, dy := col - p.x, row - p.y;
    assert dx * dx >= 0 && dy * dy >= 0;
    assert dx * dx == 0 ==> dx == 0;
    assert dy * dy == 0 ==> dy == 0;
    dx * dx + dy * dy
  }

  /**
   * The index of the first of the seeds nearest to (col, row), found the way the source scans:
   * the last seed replaces the best of the earlier ones only when it is strictly nearer.
   * NearestIsNearest states what the index means.
   */
  function Nearest(ss: seq<Point>, col: int, row: int): (k: nat)
    requires |ss| >= 1
    ensures k < |ss|
  {
    if |ss| == 1 then 0
    else
      var k := Nearest(ss[..|ss| - 1], col, row);
      if SquaredDistance(ss[|ss| - 1], col, row) < SquaredDistance(ss[k], col, row) then |ss| - 1 else k
  }

  /**
   * Nearest picks a nearest seed, and the first one: no seed is nearer, and every seed before
   * it is strictly farther.
   */
  lemma {:induction false} NearestIsNearest(ss: seq<Point>, col: int, row: int)
    requires |ss| >= 1
    ensures forall j :: 0 <= j < |ss| ==>
              SquaredDistance(ss[Nearest(ss, col, row)], col, row) <= SquaredDistance(ss[j], col, row)
    ensures forall j :: 0 <= j < Nearest(ss, col, row) ==>
              SquaredDistance(ss[Nearest(ss, col, row)], col, row) < SquaredDistance(ss[j], col, row)
  {
    if |ss| > 1 {
      var init := ss[..|ss| - 1];
      NearestIsNearest(init, col, row);
      assert forall j :: 0 <= j < |init| ==> init[j] == ss[j];
    }
  }

  /** Trying one more seed: it takes over exactly when it is strictly nearer than the best so far. */
  lemma NearestStep(ss: seq<Point>, i: nat, col: int, row: int)
    requires i < |ss|
    ensures i == 0 ==> Nearest(ss[..i + 1], col, row) == 0
    ensures i > 0 ==>
              (Nearest(ss[..i + 1], col, row) ==
               if SquaredDistance(ss[i], col, row) < SquaredDistance(ss[Nearest(ss[..i], col, row)], col, row)
               then i else Nearest(ss[..i], col, row))
  {
    assert ss[..i + 1][..i] == ss[..i];
  }

  /** Every seed names a pixel of a width x height image. */
  predicate SeedsInBounds(ss: seq<Point>, width: nat, height: nat)
  {
    forall j :: 0 <= j < |ss| ==> ss[j].x < width && ss[j].y < height
  }

  /**
   * The seed whose source colour the pixel in column col, row row takes: the first of the
   * seeds nearest to it. ChosenIsNearest states that no seed is nearer.
   */
  function Chosen(ss: seq<Point>, col: int, row: int): (p: Point)
    requires |ss| >= 1
    ensures p in ss
  {
    ss[Nearest(ss, col, row)]
  }

  /** The chosen seed is one of the seeds, and no seed is nearer to the pixel than it is. */
  lemma ChosenIsNearest(ss: seq<Point>, col: int, row: int)
    requires |ss| >= 1
    ensures forall q :: q in ss ==> SquaredDistance(Chosen(ss, col, row), col, row) <= SquaredDistance(q, col, row)
  {
    NearestIsNearest(ss, col, row);
  }

  /** With both sides at most MaxSide, a squared distance inside the image stays below Int32Max. */
  lemma DistanceFitsInt32(p: Point, col: nat, row: nat, width: nat, height: nat)
    requires width <= MaxSide && height <= MaxSide
    requires p.x < width && p.y < height && col < width && row < height
    ensures SquaredDistance(p, col, row) < Int32Max
  {
    SquareBound(col - p.x, MaxSide - 1);
    SquareBound(row - p.y, MaxSide - 1);
  }

  /**
   * The seed nearest to the pixel in column col, row row, found by trying the first seedsFound
   * seeds in order and keeping a seed only when it is strictly nearer than the best so far,
   * starting from seeds[0] at distance Int32Max.
   */
  method NearestSeed(seeds: array<Point>, seedsFound: nat, col: nat, row: nat, width: nat, height: nat)
    returns (closestSeed: Point)
    requires width <= MaxSide && height <= MaxSide && col < width && row < height
    requires 1 <= seedsFound <= seeds.Length
    requires SeedsInBounds(seeds[..seedsFound], width, height)
    ensures closestSeed == Chosen(seeds[..seedsFound], col, row)
  {
    ghost var ss := seeds[..seedsFound];
    closestSeed := seeds[0];
    var closestDist := Int32Max;
    ghost var closest := 0;
    var i := 0;
    while i < seedsFound
      invariant 0 <= i <= seedsFound
      invariant i == 0 ==> closestSeed == seeds[0] && closestDist == Int32Max
      invariant i > 0 ==> closest == Nearest(ss[..i], col, row)
      invariant i > 0 ==> closestSeed == ss[closest] && closestDist == SquaredDistance(closestSeed, col, row)
    {
      var seed := seeds[i];
      var dx := col - seed.x;
      var dy := row - seed.y;
      var dist := dx * dx + dy * dy;
      assert dist == SquaredDistance(seed, col, row);
      if i == 0 {
        DistanceFitsInt32(seed, col, row, width, height);
      }
      NearestStep(ss, i, col, row);
      if dist < closestDist {
        closestSeed := seed;
        closestDist := dist;
        closest := i;
      }
      i := i + 1;
    }
    assert ss[..seedsFound] == ss;
  }

  /**
   * Paints every pixel of `out` with the source colour at the seed nearest to it among the
   * first seedsFound seeds.
   */
  method Stylize(source: array2<Rgb>, out: array2<Rgb>, seeds: array<Point>, seedsFound: nat)
    requires source != out
    requires out.Length0 == source.Length0 && out.Length1 == source.Length1
    requires source.Length0 <= MaxSide && source.Length1 <= MaxSide
    requires 1 <= seedsFound <= seeds.Length
    requires SeedsInBounds(seeds[..seedsFound], source.Length1, source.Length0)
    modifies out
    ensures forall r, c :: 0 <= r < out.Length0 && 0 <= c < out.Length1 ==>
              out[r, c] == source[Chosen(seeds[..seedsFound], c, r).y, Chosen(seeds[..seedsFound], c, r).x]
  {
    var height, width := source.Length0, source.Length1;
    ghost var ss := seeds[..seedsFound];
    var row := 0;
    while row < height
      invariant 0 <= row <= height
      invariant forall r, c :: 0 <= r < row && 0 <= c < width ==> out[r, c] == source[Chosen(ss, c, r).y, Chosen(ss, c, r).x]
    {
      var col := 0;
      while col < width
        invariant 0 <= col <= width
        invariant forall r, c :: 0 <= r < row && 0 <= c < width ==> out[r, c] == source[Chosen(ss, c, r).y, Chosen(ss, c, r).x]
        invariant forall c :: 0 <= c < col ==> out[row, c] == source[Chosen(ss, c, row).y, Chosen(ss, c, row).x]
      {
        var closestSeed := NearestSeed(seeds, seedsFound, col, row, width, height);
        out[row, col] := source[closestSeed.y, closestSeed.x];
        col := col + 1;
      }
      row := row + 1;
    }
  }

  // ---------------------------------------------------------------------------
  // Properties of the stylization

  /** A pixel that is itself a seed takes its own colour: the seed chosen for it is itself. */
  lemma SeedPixelKeepsColour(ss: seq<Point>, j: nat)
    requires j < |ss|
    ensures Chosen(ss, ss[j].x, ss[j].y) == ss[j]
  {
    var p := Chosen(ss, ss[j].x, ss[j].y);
    ChosenIsNearest(ss, ss[j].x, ss[j].y);
    assert SquaredDistance(p, ss[j].x, ss[j].y) <= SquaredDistance(ss[j], ss[j].x, ss[j].y) == 0;
  }

  /** With a single seed every pixel takes the colour at that seed. */
  lemma SingleSeedFlat(p: Point, col: int, row: int)
    ensures Chosen([p], col, row) == p
  {
  }

  /** A seed that repeats an earlier one is never the one chosen by index. */
  lemma DuplicateSeedNeverChosen(ss: seq<Point>, i: nat, j: nat, col: int, row: int)
    requires i < j < |ss| && ss[i] == ss[j]
    ensures Nearest(ss, col, row) != j
  {
    NearestIsNearest(ss, col, row);
  }

  /**
   * Every output colour is a source colour at some seed; in particular a source image of one
   * colour is painted in that colour everywhere.
   */
  lemma OutputFromSeedColours(source: array2<Rgb>, ss: seq<Point>, col: int, row: int)
    requires |ss| >= 1 && SeedsInBounds(ss, source.Length1, source.Length0)
    ensures exists j :: 0 <= j < |ss| && source[Chosen(ss, col, row).y, Chosen(ss, col, row).x] == source[ss[j].y, ss[j].x]
  {
    var k := Nearest(ss, col, row);
    assert source[Chosen(ss, col, row).y, Chosen(ss, col, row).x] == source[ss[k].y, ss[k].x];
  }

  /** A source image of one colour yields an output of that colour. */
  lemma UniformSourceStaysUniform(source: array2<Rgb>, ss: seq<Point>, colour: Rgb, col: int, row: int)
    requires |ss| >= 1 && SeedsInBounds(ss, source.Length1, source.Length0)
    requires forall r, c :: 0 <= r < source.Length0 && 0 <= c < source.Length1 ==> source[r, c] == colour
    ensures source[Chosen(ss, col, row).y, Chosen(ss, col, row).x] == colour
  {
    var k := Nearest(ss, col, row);
    assert Chosen(ss, col, row) == ss[k];
  }

  /**
   * A placement can make the stylizer read outside the image: on the 16x2 edge map of
   * SeedPlacement.SeedsBelowTheMap, the seed chosen for the pixel in column 4, row 1 is
   * (4, 2), on row 2 of a 2-row image, so its colour would be read from a row that does not
   * exist.
   */
  lemma StylizeReadsOffTheMap(red: SeedPlacement.RedMap)
    requires |red| == 2 && |red[0]| == 16 && |red[1]| == 16
    requires red[0][1] != red[0][0]
    requires forall x :: 2 <= x < 16 ==> red[0][x] == red[0][0]
    ensures var ss := [Point(2, 0), Point(6, 0), Point(2, 1), Point(6, 1), Point(12, 0), Point(4, 2), Point(12, 2)];
            SeedPlacement.Seeds(red, SeedPlacement.Region(0, 0, 16, 2)) == ss &&
            Chosen(ss, 4, 1) == Point(4, 2) && !SeedsInBounds(ss, 16, 2)
  {
    SeedPlacement.SeedsBelowTheMap(red);
    OffMapSeedChosen();
  }

  /** Among those seven seeds, (4, 2) is the only one at distance 1 from column 4, row 1. */
  lemma OffMapSeedChosen()
    ensures var ss := [Point(2, 0), Point(6, 0), Point(2, 1), Point(6, 1), Point(12, 0), Point(4, 2), Point(12, 2)];
            Chosen(ss, 4, 1) == Point(4, 2)
  {
    var ss := [Point(2, 0), Point(6, 0), Point(2, 1), Point(6, 1), Point(12, 0), Point(4, 2), Point(12, 2)];
    ChosenIsNearest(ss, 4, 1);
    assert SquaredDistance(Chosen(ss, 4, 1), 4, 1) <= SquaredDistance(ss[5], 4, 1) == 1;
  }
}
