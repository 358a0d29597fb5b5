/**
 * The neighbourhood search: the geohashes of the cells around a point.
 *
 * A rectangular grid of offsets (multiples of half a cell's height and half a
 * cell's width) is walked; the offsets inside the search circle are mirrored
 * into the four quadrants, moved onto the map around the point, encoded at the
 * requested precision, and the distinct encodings other than the point's own
 * are returned in ascending order.
 *
 * `GridPoints` and `Encodings` build, as functions, the lists the source
 * builds step by step; `NearbySet` is the set of geohashes the search returns.
 * The conversion from metres to degrees is a parameter (`Convert`).
 */
module Nearby {
  import opened Outcome
  import opened Codec
  import opened Order
  import opened Seqs

  /** Cell widths in metres, for precisions 1 to 12. */
  const GridWidth: seq<real> :=
    [5009400.0, 1252300.0, 156500.0, 39100.0, 4900.0, 1200.0, 152.9, 38.2, 4.8, 1.2, 0.149, 0.0370]

  /** Cell heights in metres, for precisions 1 to 12. */
  const GridHeight: seq<real> :=
    [4992600.0, 624100.0, 156000.0, 19500.0, 4900.0, 609.4, 152.4, 19.0, 4.8, 0.595, 0.149, 0.0199]

  /**
   * `convert_to_latlon(y, x, latitude, longitude)`: the point `y` metres north
   * and `x` metres east of (latitude, longitude).
   */
  type Convert = (real, real, real, real) -> Coord

  /* ---------------------------------------------------------------------- */
  /* The circle test                                                        */
  /* ---------------------------------------------------------------------- */

  /**
   * `in_circle_check`: the squared distance to the centre is at most the
   * squared radius. The centre itself always passes, whatever the radius, and
   * a point that passes is within the radius along each axis.
   */
  function InCircle(latitude: real, longitude: real, centreLat: real, centreLon: real, radius: real): (inside: bool)
    ensures latitude == centreLat && longitude == centreLon ==> inside
    ensures inside ==> (latitude - centreLat) * (latitude - centreLat) <= radius * radius
    ensures inside ==> (longitude - centreLon) * (longitude - centreLon) <= radius * radius
  {
    var xDiff := longitude - centreLon;
    var yDiff := latitude - centreLat;
    assert xDiff * xDiff >= 0.0 && yDiff * yDiff >= 0.0 && radius * radius >= 0.0;
    xDiff * xDiff + yDiff * yDiff <= radius * radius
  }

  /** An offset within the circle about the origin stays within it when mirrored in either axis. */
  lemma InCircleMirror(x: real, y: real, radius: real)
    requires InCircle(x, y, 0.0, 0.0, radius)
    ensures InCircle(-x, y, 0.0, 0.0, radius)
    ensures InCircle(x, -y, 0.0, 0.0, radius)
    ensures InCircle(-x, -y, 0.0, 0.0, radius)
  {
    assert (-x) * (-x) == x * x;
    assert (-y) * (-y) == y * y;
  }

  /* ---------------------------------------------------------------------- */
  /* Table lookup and step counts                                           */
  /* ---------------------------------------------------------------------- */

  /**
   * The entry `table[precision - 1]` reads in a 12-entry Python list: indices
   * -12 to -1 count from the end, and anything else raises `IndexError` (None).
   */
  function TableIndex(precision: int): (k: Option<nat>)
    ensures k.Some? <==> -11 <= precision <= 12
    ensures k.Some? ==> k.value < 12 && k.value == (precision - 1) % 12
  {
    if 1 <= precision <= 12 then Some(precision - 1)
    else if -11 <= precision <= 0 then Some(precision + 11)
    else None
  }

  predicate AllPositive(s: seq<real>) {
    forall k | 0 <= k < |s| :: s[k] > 0.0
  }

  /** `math.ceil`: the least integer not below `x`. */
  function Ceil(x: real): (n: int)
    ensures x <= n as real < x + 1.0
  {
    -((-x).Floor)
  }

  /** `len(range(moves))`. */
  function Count(moves: int): nat {
    if moves < 0 then 0 else moves
  }

  /* ---------------------------------------------------------------------- */
  /* The grid of points                                                     */
  /* ---------------------------------------------------------------------- */

  /** The search around one point: its position, the radius and the two step lengths. */
  datatype Grid = Grid(latitude: real, longitude: real, radius: real, height: real, width: real)

  /** One `(x_cen, y_cen)` pair of the quadrant loop. */
  datatype Offset = Offset(xCen: real, yCen: real)

  /**
   * The four `(x_cen, y_cen)` pairs listed for the offsets `temp_lat` and
   * `temp_lon`, in the source's order.
   */
  function Offsets(tempLat: real, tempLon: real): seq<Offset> {
    [Offset(tempLat, tempLon), Offset(-tempLat, tempLon), Offset(tempLat, -tempLon), Offset(-tempLat, -tempLon)]
  }

  /**
   * The point for one pair, `convert_to_latlon(y_cen, x_cen, ...)`: the
   * pair's second component, a multiple of the width step, is the northward
   * offset, and its first, a multiple of the height step, the eastward one.
   */
  function Place(convert: Convert, latitude: real, longitude: real, pair: Offset): Coord {
    convert(pair.yCen, pair.xCen, latitude, longitude)
  }

  /** The points of a list of pairs, in order. */
  function Moved(convert: Convert, latitude: real, longitude: real, pairs: seq<Offset>): (ps: seq<Coord>)
    ensures |ps| == |pairs|
  {
    if |pairs| == 0 then []
    else Moved(convert, latitude, longitude, pairs[..|pairs| - 1]) + [Place(convert, latitude, longitude, pairs[|pairs| - 1])]
  }

  /** `n` steps of length `step`, in metres: `height * i` and `width * j`. */
  function StepsOf(step: real, n: nat): real {
    step * n as real
  }

  /** Whether the grid offset (i, j), `i` height steps and `j` width steps, lies in the circle. */
  predicate InCircleAt(g: Grid, i: nat, j: nat) {
    InCircle(StepsOf(g.height, i), StepsOf(g.width, j), 0.0, 0.0, g.radius)
  }

  /** The four pairs of the grid offset (i, j). */
  function PairsAt(g: Grid, i: nat, j: nat): seq<Offset> {
    Offsets(StepsOf(g.height, i), StepsOf(g.width, j))
  }

  /** The pairs the grid offset (i, j) contributes: its four mirrored forms when it lies in the circle, none otherwise. */
  function Candidates(g: Grid, i: nat, j: nat): seq<Offset> {
    if InCircleAt(g, i, j) then PairsAt(g, i, j) else []
  }

  /** What each grid offset (i, j) contributes. */
  type Cells = (nat, nat) -> seq<Offset>

  function CandidatesOf(g: Grid): Cells {
    (i: nat, j: nat) => Candidates(g, i, j)
  }

  /** The pairs of row `i` for its first `m` columns. */
  function Row(cells: Cells, i: nat, m: nat): seq<Offset> {
    if m == 0 then []
    else Row(cells, i, m - 1) + cells(i, m - 1)
  }

  /** The pairs of the first `n` rows, each of `cols` columns. */
  function Rows(cells: Cells, n: nat, cols: nat): seq<Offset> {
    if n == 0 then []
    else Rows(cells, n - 1, cols) + Row(cells, n - 1, cols)
  }

  /** The search grid for table entry `k`: steps of half a cell. */
  function SearchGrid(latitude: real, longitude: real, radius: real, k: nat): (g: Grid)
    requires k < 12
    ensures g.height > 0.0 && g.width > 0.0
  {
    assert AllPositive(GridHeight) && AllPositive(GridWidth);
    Grid(latitude, longitude, radius, GridHeight[k] / 2.0, GridWidth[k] / 2.0)
  }

  /** The pairs the search visits for table entry `k`, in order. */
  function GridPairs(latitude: real, longitude: real, radius: real, k: nat): seq<Offset>
    requires k < 12
  {
    var g := SearchGrid(latitude, longitude, radius, k);
    Rows(CandidatesOf(g), Count(Ceil(radius / g.height)), Count(Ceil(radius / g.width)))
  }

  /** The list of points the search visits for table entry `k`. */
  function GridPoints(convert: Convert, latitude: real, longitude: real, radius: real, k: nat): seq<Coord>
    requires k < 12
  {
    Moved(convert, latitude, longitude, GridPairs(latitude, longitude, radius, k))
  }

  /** The encodings of a list of points that differ from `original`, in order, repeats kept. */
  function Encodings(points: seq<Coord>, length: nat, original: string): seq<string> {
    if |points| == 0 then []
    else
      var p := points[|points| - 1];
      var h := Geohash(p.lat, p.lon, length);
      Encodings(points[..|points| - 1], length, original) + (if h != original then [h] else [])
  }

  /** The geohashes the search returns, as a set; empty where the table lookup fails. */
  function NearbySet(convert: Convert, latitude: real, longitude: real, radius: real, precision: int): set<string> {
    match TableIndex(precision)
    case None => {}
    case Some(k) =>
      var length := HashLength(precision);
      Elements(Encodings(GridPoints(convert, latitude, longitude, radius, k), length, Geohash(latitude, longitude, length)))
  }

  /* ---------------------------------------------------------------------- */
  /* Properties                                                             */
  /* ---------------------------------------------------------------------- */

  lemma MovedSnoc(convert: Convert, latitude: real, longitude: real, pairs: seq<Offset>, pair: Offset)
    ensures Moved(convert, latitude, longitude, pairs + [pair])
         == Moved(convert, latitude, longitude, pairs) + [Place(convert, latitude, longitude, pair)]
  {
    assert (pairs + [pair])[..|pairs|] == pairs;
  }

  lemma {:induction false} MovedMember(convert: Convert, latitude: real, longitude: real, pairs: seq<Offset>, p: Coord)
    ensures p in Moved(convert, latitude, longitude, pairs)
        <==> exists k | 0 <= k < |pairs| :: p == Place(convert, latitude, longitude, pairs[k])
  {
    if |pairs| > 0 {
      var last := |pairs| - 1;
      var front := pairs[..last];
      MovedMember(convert, latitude, longitude, front, p);
      if exists k | 0 <= k < |pairs| :: p == Place(convert, latitude, longitude, pairs[k]) {
        var k :| 0 <= k < |pairs| && p == Place(convert, latitude, longitude, pairs[k]);
        if k < last {
          assert front[k] == pairs[k];
        }
      }
      if exists k | 0 <= k < |front| :: p == Place(convert, latitude, longitude, front[k]) {
        var k :| 0 <= k < |front| && p == Place(convert, latitude, longitude, front[k]);
        assert pairs[k] == front[k];
      }
    }
  }

  /** A pair of the grid offset (i, j) is one of its four mirrored forms, and the offset lies in the circle. */
  lemma CandidatesMember(g: Grid, i: nat, j: nat, pair: Offset)
    ensures pair in Candidates(g, i, j) <==> InCircleAt(g, i, j) && pair in PairsAt(g, i, j)
  {
  }

  /** The grid offset a pair of a row comes from. */
  lemma {:induction false} RowSource(cells: Cells, i: nat, m: nat, pair: Offset) returns (j: nat)
    requires pair in Row(cells, i, m)
    ensures j < m && pair in cells(i, j)
  {
    var front, last := Row(cells, i, m - 1), cells(i, m - 1);
    assert Row(cells, i, m) == front + last;
    if pair in last {
      j := m - 1;
    } else {
      assert pair in front;
      j := RowSource(cells, i, m - 1, pair);
    }
  }

  /** The grid offset a pair of the first `n` rows comes from. */
  lemma {:induction false} RowsSource(cells: Cells, n: nat, cols: nat, pair: Offset) returns (i: nat, j: nat)
    requires pair in Rows(cells, n, cols)
    ensures i < n && j < cols && pair in cells(i, j)
  {
    var front, last := Rows(cells, n - 1, cols), Row(cells, n - 1, cols);
    assert Rows(cells, n, cols) == front + last;
    if pair in last {
      i := n - 1;
      j := RowSource(cells, i, cols, pair);
    } else {
      assert pair in front;
      i, j := RowsSource(cells, n - 1, cols, pair);
    }
  }

  /** A row holds the pairs of each of its offsets. */
  lemma {:induction false} InRow(cells: Cells, i: nat, m: nat, j: nat, pair: Offset)
    requires j < m && pair in cells(i, j)
    ensures pair in Row(cells, i, m)
  {
    var front, last := Row(cells, i, m - 1), cells(i, m - 1);
    assert Row(cells, i, m) == front + last;
    if j < m - 1 {
      InRow(cells, i, m - 1, j, pair);
      assert pair in front;
    } else {
      assert pair in last;
    }
  }

  /** The first `n` rows hold the pairs of each of their offsets. */
  lemma {:induction false} InRows(cells: Cells, n: nat, cols: nat, i: nat, j: nat, pair: Offset)
    requires i < n && j < cols && pair in cells(i, j)
    ensures pair in Rows(cells, n, cols)
  {
    var front, last := Rows(cells, n - 1, cols), Row(cells, n - 1, cols);
    assert Rows(cells, n, cols) == front + last;
    if i < n - 1 {
      InRows(cells, n - 1, cols, i, j, pair);
      assert pair in front;
    } else {
      InRow(cells, i, cols, j, pair);
      assert pair in last;
    }
  }

  /** Every pair in the grid lies within the radius. */
  lemma GridPairsWithinRadius(g: Grid, n: nat, cols: nat, pair: Offset)
    requires pair in Rows(CandidatesOf(g), n, cols)
    ensures InCircle(pair.xCen, pair.yCen, 0.0, 0.0, g.radius)
  {
    var i, j := RowsSource(CandidatesOf(g), n, cols, pair);
    assert pair in Candidates(g, i, j);
    var x, y := StepsOf(g.height, i), StepsOf(g.width, j);
    assert pair == Offset(x, y) || pair == Offset(-x, y) || pair == Offset(x, -y) || pair == Offset(-x, -y);
    InCircleMirror(x, y, g.radius);
  }

  /** Every point the search visits is the point of an offset pair lying within the radius. */
  lemma GridWithinRadius(convert: Convert, latitude: real, longitude: real, radius: real, k: nat, p: Coord)
    requires k < 12
    requires p in GridPoints(convert, latitude, longitude, radius, k)
    ensures exists pair: Offset :: InCircle(pair.xCen, pair.yCen, 0.0, 0.0, radius) && p == Place(convert, latitude, longitude, pair)
  {
    var pairs := GridPairs(latitude, longitude, radius, k);
    MovedMember(convert, latitude, longitude, pairs, p);
    var q :| 0 <= q < |pairs| && p == Place(convert, latitude, longitude, pairs[q]);
    var g := SearchGrid(latitude, longitude, radius, k);
    GridPairsWithinRadius(g, Count(Ceil(radius / g.height)), Count(Ceil(radius / g.width)), pairs[q]);
  }

  /**
   * Every grid offset strictly inside both step counts and within the circle
   * is visited, in all four mirrored forms.
   */
  lemma GridCovers(convert: Convert, latitude: real, longitude: real, radius: real, k: nat, i: nat, j: nat, q: nat)
    requires k < 12 && q < 4
    requires var g := SearchGrid(latitude, longitude, radius, k);
      StepsOf(g.height, i) < radius && StepsOf(g.width, j) < radius && InCircleAt(g, i, j)
    ensures var g := SearchGrid(latitude, longitude, radius, k);
      Place(convert, latitude, longitude, PairsAt(g, i, j)[q]) in GridPoints(convert, latitude, longitude, radius, k)
  {
    var g := SearchGrid(latitude, longitude, radius, k);
    var pairs := GridPairs(latitude, longitude, radius, k);
    var pair := PairsAt(g, i, j)[q];
    StepsBelow(radius, g.height, i);
    StepsBelow(radius, g.width, j);
    assert pair in Candidates(g, i, j);
    InRows(CandidatesOf(g), Count(Ceil(radius / g.height)), Count(Ceil(radius / g.width)), i, j, pair);
    var m :| 0 <= m < |pairs| && pairs[m] == pair;
    MovedMember(convert, latitude, longitude, pairs, Place(convert, latitude, longitude, pair));
  }
  /** With a positive radius, the offset (0, 0) is visited: the point's own converted position is among the points. */
  lemma CentreVisited(convert: Convert, latitude: real, longitude: real, radius: real, k: nat)
    requires k < 12 && radius > 0.0
    ensures convert(0.0, 0.0, latitude, longitude) in GridPoints(convert, latitude, longitude, radius, k)
  {
    var g := SearchGrid(latitude, longitude, radius, k);
    assert StepsOf(g.height, 0) == 0.0 && StepsOf(g.width, 0) == 0.0;
    assert InCircleAt(g, 0, 0);
    GridCovers(convert, latitude, longitude, radius, k, 0, 0, 0);
  }

  /** With a radius of zero or below, both ranges are empty and no point is visited. */
  lemma NoRadiusNoPoints(convert: Convert, latitude: real, longitude: real, radius: real, k: nat)
    requires k < 12 && radius <= 0.0
    ensures GridPoints(convert, latitude, longitude, radius, k) == []
  {
    var g := SearchGrid(latitude, longitude, radius, k);
    assert radius / g.height <= 0.0;
    assert Count(Ceil(radius / g.height)) == 0;
  }


  /** An offset of `i` steps below the radius is within the first `Ceil(radius / step)` steps. */
  lemma StepsBelow(radius: real, step: real, i: nat)
    requires step > 0.0 && StepsOf(step, i) < radius
    ensures i < Count(Ceil(radius / step))
  {
    assert i as real < radius / step;
  }

  lemma {:induction false} EncodingsMember(points: seq<Coord>, length: nat, original: string, h: string)
    ensures h in Encodings(points, length, original)
        <==> h != original && exists k | 0 <= k < |points| :: Geohash(points[k].lat, points[k].lon, length) == h
  {
    if |points| > 0 {
      var last := |points| - 1;
      var front := points[..last];
      var hLast := Geohash(points[last].lat, points[last].lon, length);
      EncodingsMember(front, length, original, h);
      assert Encodings(points, length, original)
          == Encodings(front, length, original) + (if hLast != original then [hLast] else []);
      if h in Encodings(points, length, original) {
        if h in Encodings(front, length, original) {
          var k :| 0 <= k < |front| && Geohash(front[k].lat, front[k].lon, length) == h;
          assert points[k] == front[k];
        } else {
          assert h == hLast;
        }
      }
      if h != original && exists k | 0 <= k < |points| :: Geohash(points[k].lat, points[k].lon, length) == h {
        var k :| 0 <= k < |points| && Geohash(points[k].lat, points[k].lon, length) == h;
        if k < last {
          assert front[k] == points[k];
        } else {
          assert k == last;
        }
      }
    }
  }

  /**
   * A geohash is returned exactly when it differs from the point's own and
   * is the geohash of a point the search visits.
   */
  lemma NearbyMember(convert: Convert, latitude: real, longitude: real, radius: real, precision: int, h: string)
    requires TableIndex(precision).Some?
    ensures var points := GridPoints(convert, latitude, longitude, radius, TableIndex(precision).value);
      var length := HashLength(precision);
      (h in NearbySet(convert, latitude, longitude, radius, precision) <==> h != Geohash(latitude, longitude, length) && exists p | p in points :: Geohash(p.lat, p.lon, length) == h)
  {
    var points := GridPoints(convert, latitude, longitude, radius, TableIndex(precision).value);
    var length := HashLength(precision);
    EncodingsMember(points, length, Geohash(latitude, longitude, length), h);
  }

  /** Every returned geohash has the requested length, is well formed and is not the point's own. */
  lemma NearbyShape(convert: Convert, latitude: real, longitude: real, radius: real, precision: int, h: string)
    requires h in NearbySet(convert, latitude, longitude, radius, precision)
    ensures |h| == HashLength(precision) && ValidGeohash(h)
    ensures h != Geohash(latitude, longitude, HashLength(precision))
  {
    NearbyMember(convert, latitude, longitude, radius, precision, h);
    var p :| p in GridPoints(convert, latitude, longitude, radius, TableIndex(precision).value) &&
      Geohash(p.lat, p.lon, HashLength(precision)) == h;
    GeohashValid(p.lat, p.lon, HashLength(precision));
  }

  /** At precision zero or below every encoding is empty, like the point's own, so nothing is returned. */
  lemma NearbyNonPositive(convert: Convert, latitude: real, longitude: real, radius: real, precision: int)
    requires precision <= 0
    ensures NearbySet(convert, latitude, longitude, radius, precision) == {}
  {
    forall h | h in NearbySet(convert, latitude, longitude, radius, precision)
      ensures false
    {
      NearbyShape(convert, latitude, longitude, radius, precision, h);
    }
  }
  /** With a radius of zero or below, no point is visited and nothing is returned. */
  lemma NearbyNoRadius(convert: Convert, latitude: real, longitude: real, radius: real, precision: int)
    requires radius <= 0.0
    ensures NearbySet(convert, latitude, longitude, radius, precision) == {}
  {
    if TableIndex(precision).Some? {
      NoRadiusNoPoints(convert, latitude, longitude, radius, TableIndex(precision).value);
    }
  }


  /* ---------------------------------------------------------------------- */
  /* The search as the source runs it                                       */
  /* ---------------------------------------------------------------------- */

  /** One column of the grid: what the offset (i, j) appends to its row. */
  lemma RowStep(g: Grid, i: nat, j: nat)
    ensures Row(CandidatesOf(g), i, j + 1) == Row(CandidatesOf(g), i, j) + Candidates(g, i, j)
  {
  }

  /** The nested loops over the grid offsets (rows here, columns in `CollectRow`). */
  method CollectPoints(convert: Convert, g: Grid, latMoves: int, lonMoves: int) returns (points: seq<Coord>)
    ensures points == Moved(convert, g.latitude, g.longitude, Rows(CandidatesOf(g), Count(latMoves), Count(lonMoves)))
  {
    points := [];
    var i := 0;
    while i < latMoves
      invariant 0 <= i <= Count(latMoves)
      invariant points == Moved(convert, g.latitude, g.longitude, Rows(CandidatesOf(g), i, Count(lonMoves)))
    {
      points := CollectRow(convert, g, i, lonMoves, points, Rows(CandidatesOf(g), i, Count(lonMoves)));
      i := i + 1;
    }
  }

  /** One row of the grid: each offset in the circle appends its four quadrant points. */
  method CollectRow(convert: Convert, g: Grid, i: nat, lonMoves: int, points: seq<Coord>, ghost pairsSoFar: seq<Offset>)
    returns (r: seq<Coord>)
    requires points == Moved(convert, g.latitude, g.longitude, pairsSoFar)
    ensures r == Moved(convert, g.latitude, g.longitude, pairsSoFar + Row(CandidatesOf(g), i, Count(lonMoves)))
  {
    r := points;
    ghost var done := pairsSoFar;
    var tempLat := StepsOf(g.height, i);
    var j := 0;
    while j < lonMoves
      invariant 0 <= j <= Count(lonMoves)
      invariant done == pairsSoFar + Row(CandidatesOf(g), i, j)
      invariant r == Moved(convert, g.latitude, g.longitude, done)
    {
      var tempLon := StepsOf(g.width, j);
      ghost var before := done;
      RowStep(g, i, j);
      if InCircle(tempLat, tempLon, 0.0, 0.0, g.radius) {
        var pairs := Offsets(tempLat, tempLon);
        for k := 0 to |pairs|
          invariant done == before + pairs[..k]
          invariant r == Moved(convert, g.latitude, g.longitude, done)
        {
          var Offset(xCen, yCen) := pairs[k];
          var p := convert(yCen, xCen, g.latitude, g.longitude);
          r := r + [p];
          MovedSnoc(convert, g.latitude, g.longitude, done, pairs[k]);
          LastOfPrefix(pairs, k + 1);
          Associative(before, pairs[..k], [pairs[k]]);
          done := done + [pairs[k]];
        }
        assert pairs[..|pairs|] == pairs;
      } else {
        assert before + [] == before;
      }
      assert done == before + Candidates(g, i, j);
      Associative(pairsSoFar, Row(CandidatesOf(g), i, j), Candidates(g, i, j));
      j := j + 1;
    }
    assert j == Count(lonMoves);
  }

  /** The comprehension that encodes every point and drops the point's own geohash. */
  method EncodeAll(points: seq<Coord>, precision: int, originalHash: string) returns (geohashes: seq<string>)
    ensures geohashes == Encodings(points, HashLength(precision), originalHash)
  {
    geohashes := [];
    for k := 0 to |points|
      invariant geohashes == Encodings(points[..k], HashLength(precision), originalHash)
    {
      var h := EncodeFixed(points[k].lat, points[k].lon, precision);
      if h != originalHash {
        geohashes := geohashes + [h];
      }
      assert points[..k + 1][..k] == points[..k];
    }
    assert points[..|points|] == points;
  }

  /** `get_nearby_geohashes`. */
  method NearbyGeohashes(latitude: real, longitude: real, radius: real, precision: int, convert: Convert)
    returns (r: Result<seq<string>>)
    ensures r.Err? <==> TableIndex(precision).None?
    ensures r.Err? ==> r.error == PrecisionOutOfRange
    ensures r.Ok? ==> StrictlySorted(r.value)
    ensures r.Ok? ==> Elements(r.value) == NearbySet(convert, latitude, longitude, radius, precision)
  {
    var originalHash := EncodeFixed(latitude, longitude, precision);
    var index := TableIndex(precision);
    if index.None? {
      return Err(PrecisionOutOfRange);
    }
    var g := SearchGrid(latitude, longitude, radius, index.value);
    var height := g.height;
    var width := g.width;
    var latMoves := Ceil(radius / height);
    var lonMoves := Ceil(radius / width);
    var points := CollectPoints(convert, g, latMoves, lonMoves);
    assert points == GridPoints(convert, latitude, longitude, radius, index.value);
    var geohashes := EncodeAll(points, precision, originalHash);
    var sorted := SortedDistinct(geohashes);
    return Ok(sorted);
  }
}
