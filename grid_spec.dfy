/** The value-level vocabulary of the crossword grid: points and placements,
    the placement rules applied by canPlace, what PlaceWord and RemoveWord
    write, the bounding box, normalisation, the canonical hash and the
    render trace. The Grid class in module Grids is proved against these
    definitions, and the lemmas here state what they promise. */
module GridSpec {
  import opened Sorting
  import opened Text

  datatype Direction = Horiz | Vert

  datatype Point = Point(x: int, y: int)

  /** A word, the point of its first letter and the direction it runs in. */
  datatype Placement = Placement(word: string, origin: Point, dir: Direction)

  /** The grid's letter map; a point is occupied when it is a key. */
  type Cells = map<Point, char>

  /** An inclusive bounding box, in the order bounds returns it. */
  datatype Box = Box(minX: int, maxX: int, minY: int, maxY: int)

  /** One call on a GridRenderer. */
  datatype RenderEvent = DrawCell(x: int, y: int, ch: char) | Finish

  /** The letter RemoveWord writes, and the one Hash and Render show for a
      point that is not a key. */
  const Blank: char := '.'
  /** Ends every row of the hash. */
  const RowEnd: char := '|'
  /** The start values of the running minimum and maximum in bounds. */
  const Sentinel: int := 999999

  // ---------------------------------------------------------------------
  // Geometry

  /** dirDelta: the unit step of a direction. */
  function DirDelta(d: Direction): (int, int) {
    if d == Horiz then (1, 0) else (0, 1)
  }

  /** `q` moved `k` steps along `d`. */
  function Offset(q: Point, d: Direction, k: int): Point {
    match d
    case Horiz => Point(q.x + k, q.y)
    case Vert => Point(q.x, q.y + k)
  }

  /** Offset is the point q + k·dirDelta(d) that the source computes with
      multiplications. */
  lemma OffsetIsDelta(q: Point, d: Direction, k: int)
    ensures Offset(q, d, k) == Point(q.x + k * DirDelta(d).0, q.y + k * DirDelta(d).1)
  {
  }

  /** The point of letter `i` of a placement (i may lie outside the word). */
  function Cell(p: Placement, i: int): Point {
    Offset(p.origin, p.dir, i)
  }

  /** Different letter indices of a placement land on different points. */
  lemma CellInjective(p: Placement, i: int, j: int)
    ensures Cell(p, i) == Cell(p, j) ==> i == j
  {
    match p.dir
    case Horiz =>
    case Vert =>
  }

  function Perpendicular(d: Direction): Direction {
    if d == Horiz then Vert else Horiz
  }

  // ---------------------------------------------------------------------
  // The rules of canPlace

  /** isOccupiedBeforeOrAfter: the point before the first letter or the
      point after the last one is occupied. */
  predicate OccupiedBeforeOrAfter(cells: Cells, p: Placement) {
    Cell(p, -1) in cells || Cell(p, |p.word|) in cells
  }

  /** parallelConflict: a neighbour of `q` along `d` is occupied. */
  predicate ParallelConflict(cells: Cells, q: Point, d: Direction) {
    Offset(q, d, -1) in cells || Offset(q, d, 1) in cells
  }

  /** perpendicularConflict: a neighbour of `q` across `d` is occupied
      (above or below for Horiz, left or right for Vert). */
  predicate PerpendicularConflict(cells: Cells, q: Point, d: Direction) {
    Offset(q, Perpendicular(d), -1) in cells || Offset(q, Perpendicular(d), 1) in cells
  }

  /** Letter `i` may go on its point: an occupied point holds the same
      letter and has no occupied neighbour along the word; a free point has
      no occupied neighbour across it. */
  predicate Fits(cells: Cells, p: Placement, i: int)
    requires 0 <= i < |p.word|
  {
    var q := Cell(p, i);
    if q in cells then cells[q] == p.word[i] && !ParallelConflict(cells, q, p.dir)
    else !PerpendicularConflict(cells, q, p.dir)
  }

  /** Some letter of the placement lands on an occupied point. */
  predicate Crosses(cells: Cells, p: Placement) {
    exists i :: 0 <= i < |p.word| && Cell(p, i) in cells
  }

  /** canPlace, as a rule set: no extension of an existing word, every
      letter fits, and on a non-empty grid at least one crossing. */
  predicate Placeable(cells: Cells, p: Placement) {
    && !OccupiedBeforeOrAfter(cells, p)
    && (forall i :: 0 <= i < |p.word| ==> Fits(cells, p, i))
    && (|cells| > 0 ==> Crosses(cells, p))
  }

  // ---------------------------------------------------------------------
  // What PlaceWord and RemoveWord write

  /** `q` is the point of one of the first `n` letters of `p`. */
  predicate InPrefix(p: Placement, q: Point, n: int) {
    exists i :: 0 <= i < n && q == Cell(p, i)
  }

  /** `cells` after writing letters[i] at Cell(p, i) for i = 0 .. n-1, in
      that order. */
  function Stamp(cells: Cells, p: Placement, letters: string, n: nat): Cells
    requires n <= |letters|
  {
    if n == 0 then cells else Stamp(cells, p, letters, n - 1)[Cell(p, n - 1) := letters[n - 1]]
  }

  /** After Stamp each written point holds its letter, no other point is
      added, and every point not written keeps its letter. */
  lemma {:induction false} StampFacts(cells: Cells, p: Placement, letters: string, n: nat)
    requires n <= |letters|
    ensures var r := Stamp(cells, p, letters, n);
      && (forall i :: 0 <= i < n ==> Cell(p, i) in r && r[Cell(p, i)] == letters[i])
      && (forall q :: q in r <==> q in cells || InPrefix(p, q, n))
      && (forall q :: q in cells && !InPrefix(p, q, n) ==> r[q] == cells[q])
  {
    if n > 0 {
      StampFacts(cells, p, letters, n - 1);
      forall i | 0 <= i < n - 1 ensures Cell(p, i) != Cell(p, n - 1) {
        CellInjective(p, i, n - 1);
      }
      var r := Stamp(cells, p, letters, n);
      forall q | q in r ensures q in cells || InPrefix(p, q, n) {
        if q != Cell(p, n - 1) && !(q in cells) {
          assert InPrefix(p, q, n - 1);
        }
      }
    }
  }

  /** Writing letter n at the point origin + n·dirDelta is one more step
      of Stamp. */
  lemma StampNext(cells: Cells, p: Placement, letters: string, n: nat, q: Point)
    requires n < |letters| && q == Point(p.origin.x + n * DirDelta(p.dir).0, p.origin.y + n * DirDelta(p.dir).1)
    ensures Stamp(cells, p, letters, n)[q := letters[n]] == Stamp(cells, p, letters, n + 1)
  {
    OffsetIsDelta(p.origin, p.dir, n);
  }

  /** The grid after PlaceWord has written the word. */
  function Place(cells: Cells, p: Placement): Cells {
    Stamp(cells, p, p.word, |p.word|)
  }

  function Blanks(n: nat): (s: string)
    ensures |s| == n && forall k :: 0 <= k < n ==> s[k] == Blank
  {
    seq(n, _ => Blank)
  }

  /** The grid after RemoveWord: every point of the word is set to Blank. */
  function Erase(cells: Cells, p: Placement): Cells {
    Stamp(cells, p, Blanks(|p.word|), |p.word|)
  }

  /** PlaceWord on an accepted placement: every letter is on its point,
      every point stored before keeps its letter (a crossing already held
      the same one), the only new points are the word's own, and the points
      just before and after the word stay free. */
  lemma PlaceEffect(cells: Cells, p: Placement)
    requires Placeable(cells, p)
    ensures var r := Place(cells, p);
      && (forall i :: 0 <= i < |p.word| ==> Cell(p, i) in r && r[Cell(p, i)] == p.word[i])
      && (forall q :: q in cells ==> q in r && r[q] == cells[q])
      && (forall q :: q in r ==> q in cells || InPrefix(p, q, |p.word|))
      && Cell(p, -1) !in r && Cell(p, |p.word|) !in r
  {
    var r := Place(cells, p);
    StampFacts(cells, p, p.word, |p.word|);
    forall q | q in cells
      ensures r[q] == cells[q]
    {
      if InPrefix(p, q, |p.word|) {
        var i :| 0 <= i < |p.word| && q == Cell(p, i);
        assert Fits(cells, p, i);
      }
    }
    forall i | 0 <= i < |p.word|
      ensures Cell(p, -1) != Cell(p, i) && Cell(p, |p.word|) != Cell(p, i)
    {
      CellInjective(p, -1, i);
      CellInjective(p, |p.word|, i);
    }
  }

  /** RemoveWord: every point of the word holds Blank, every other point
      keeps its letter, no key disappears and the only keys added are the
      word's points. */
  lemma EraseEffect(cells: Cells, p: Placement)
    ensures var r := Erase(cells, p);
      && (forall i :: 0 <= i < |p.word| ==> Cell(p, i) in r && r[Cell(p, i)] == Blank)
      && (forall q :: q in cells && !InPrefix(p, q, |p.word|) ==> q in r && r[q] == cells[q])
      && (forall q :: q in r <==> q in cells || InPrefix(p, q, |p.word|))
  {
    StampFacts(cells, p, Blanks(|p.word|), |p.word|);
  }

  // ---------------------------------------------------------------------
  // Bounds

  function Min(a: int, b: int): int {
    if a <= b then a else b
  }

  function Max(a: int, b: int): int {
    if a >= b then a else b
  }

  /** The coordinate of `q` along `d`: x for Horiz, y for Vert. */
  function Coord(q: Point, d: Direction): int {
    match d
    case Horiz => q.x
    case Vert => q.y
  }

  /** Removing the key `q` leaves one cell fewer. */
  lemma RemoveKey<K, V>(cells: map<K, V>, q: K)
    requires q in cells
    ensures |cells - {q}| == |cells| - 1
    ensures forall k :: k in cells ==> k == q || k in cells - {q}
  {
    assert (cells - {q}).Keys == cells.Keys - {q};
  }

  /** `m` is the least coordinate along `d` of the occupied points. */
  ghost predicate IsLeast(cells: Cells, d: Direction, m: int) {
    && (exists q :: q in cells && Coord(q, d) == m)
    && (forall q :: q in cells ==> m <= Coord(q, d))
  }

  /** `m` is the greatest coordinate along `d` of the occupied points. */
  ghost predicate IsGreatest(cells: Cells, d: Direction, m: int) {
    && (exists q :: q in cells && Coord(q, d) == m)
    && (forall q :: q in cells ==> Coord(q, d) <= m)
  }

  /** A non-empty grid has a least and a greatest coordinate on each axis. */
  lemma {:induction false} ExtremesExist(cells: Cells, d: Direction)
    requires |cells| > 0
    ensures exists m :: IsLeast(cells, d, m)
    ensures exists m :: IsGreatest(cells, d, m)
    decreases |cells|
  {
    var q :| q in cells;
    RemoveKey(cells, q);
    var rest := cells - {q};
    if |rest| == 0 {
      assert IsLeast(cells, d, Coord(q, d)) && IsGreatest(cells, d, Coord(q, d));
    } else {
      ExtremesExist(rest, d);
      var m :| IsLeast(rest, d, m);
      var n :| IsGreatest(rest, d, n);
      var k :| k in rest && Coord(k, d) == m;
      var l :| l in rest && Coord(l, d) == n;
      assert IsLeast(cells, d, if Coord(q, d) < m then Coord(q, d) else m);
      assert IsGreatest(cells, d, if Coord(q, d) > n then Coord(q, d) else n);
    }
  }

  /** The least coordinate along `d` of the occupied points. */
  ghost function Least(cells: Cells, d: Direction): (m: int)
    requires |cells| > 0
    ensures IsLeast(cells, d, m)
  {
    ExtremesExist(cells, d);
    var m :| IsLeast(cells, d, m);
    m
  }

  /** The greatest coordinate along `d` of the occupied points. */
  ghost function Greatest(cells: Cells, d: Direction): (m: int)
    requires |cells| > 0
    ensures IsGreatest(cells, d, m)
  {
    ExtremesExist(cells, d);
    var m :| IsGreatest(cells, d, m);
    m
  }

  lemma LeastIs(cells: Cells, d: Direction, q: Point)
    requires q in cells && forall k :: k in cells ==> Coord(q, d) <= Coord(k, d)
    ensures Least(cells, d) == Coord(q, d)
  {
  }

  lemma GreatestIs(cells: Cells, d: Direction, q: Point)
    requires q in cells && forall k :: k in cells ==> Coord(k, d) <= Coord(q, d)
    ensures Greatest(cells, d) == Coord(q, d)
  {
  }

  /** bounds: zeros for an empty grid; otherwise the running minimum and
      maximum of the coordinates, started from the sentinels. */
  ghost function BoxOf(cells: Cells): (b: Box)
    ensures |cells| == 0 ==> b == Box(0, 0, 0, 0)
    ensures b.minX <= b.maxX && b.minY <= b.maxY
  {
    if |cells| == 0 then Box(0, 0, 0, 0)
    else
      var lx, gx, ly, gy := Least(cells, Horiz), Greatest(cells, Horiz), Least(cells, Vert), Greatest(cells, Vert);
      var q :| q in cells;
      assert lx <= Coord(q, Horiz) <= gx && ly <= Coord(q, Vert) <= gy;
      Box(Min(Sentinel, lx), Max(-Sentinel, gx), Min(Sentinel, ly), Max(-Sentinel, gy))
  }

  /** The box holds every occupied point. */
  lemma BoxContains(cells: Cells, q: Point)
    requires q in cells
    ensures var b := BoxOf(cells); b.minX <= q.x <= b.maxX && b.minY <= q.y <= b.maxY
  {
    assert Least(cells, Horiz) <= Coord(q, Horiz) <= Greatest(cells, Horiz);
    assert Least(cells, Vert) <= Coord(q, Vert) <= Greatest(cells, Vert);
  }

  /** The true extremes lie within the sentinels, so that bounds is the
      tight box of the occupied points. */
  ghost predicate Unclipped(cells: Cells) {
    |cells| == 0 ||
      (Least(cells, Horiz) <= Sentinel && Greatest(cells, Horiz) >= -Sentinel &&
       Least(cells, Vert) <= Sentinel && Greatest(cells, Vert) >= -Sentinel)
  }

  /** Coordinates within ±Sentinel never reach the sentinels. */
  lemma WithinSentinels(cells: Cells)
    requires forall q :: q in cells ==> -Sentinel <= q.x <= Sentinel && -Sentinel <= q.y <= Sentinel
    ensures Unclipped(cells)
  {
    if |cells| > 0 {
      var q :| q in cells;
      assert Least(cells, Horiz) <= Coord(q, Horiz) && Greatest(cells, Horiz) >= Coord(q, Horiz);
      assert Least(cells, Vert) <= Coord(q, Vert) && Greatest(cells, Vert) >= Coord(q, Vert);
    }
  }

  /** On an unclipped non-empty grid the box is the tight one. */
  lemma TightBox(cells: Cells)
    requires Unclipped(cells) && |cells| > 0
    ensures BoxOf(cells) == Box(Least(cells, Horiz), Greatest(cells, Horiz), Least(cells, Vert), Greatest(cells, Vert))
  {
  }

  /** The extremes of a grid with one more point: that point's coordinate
      on an empty grid, otherwise the old extreme widened to hold it. */
  lemma ExtremesAdd(cells: Cells, q: Point, v: char, d: Direction)
    requires q !in cells
    ensures |cells| == 0 ==> Least(cells[q := v], d) == Coord(q, d) && Greatest(cells[q := v], d) == Coord(q, d)
    ensures |cells| > 0 ==> Least(cells[q := v], d) == Min(Least(cells, d), Coord(q, d))
    ensures |cells| > 0 ==> Greatest(cells[q := v], d) == Max(Greatest(cells, d), Coord(q, d))
  {
    var c := cells[q := v];
    if |cells| == 0 {
      assert cells == map[];
      LeastIs(c, d, q);
      GreatestIs(c, d, q);
    } else {
      var lo :| lo in cells && Coord(lo, d) == Least(cells, d);
      var hi :| hi in cells && Coord(hi, d) == Greatest(cells, d);
      var l := if Coord(q, d) < Coord(lo, d) then q else lo;
      var g := if Coord(q, d) > Coord(hi, d) then q else hi;
      forall k | k in c ensures Coord(l, d) <= Coord(k, d) <= Coord(g, d) {
        if k != q {
          assert k in cells;
          assert IsLeast(cells, d, Least(cells, d)) && IsGreatest(cells, d, Greatest(cells, d));
          assert Least(cells, d) <= Coord(k, d) <= Greatest(cells, d);
        }
      }
      LeastIs(c, d, l);
      GreatestIs(c, d, g);
    }
  }

  /** One step of the running minimum and maximum in bounds: the box of a
      grid with one more point is the previous running box (the sentinels
      on an empty grid) widened to hold that point. */
  lemma BoxAdd(cells: Cells, q: Point, v: char)
    requires q !in cells
    ensures var s := if |cells| == 0 then Box(Sentinel, -Sentinel, Sentinel, -Sentinel) else BoxOf(cells);
      BoxOf(cells[q := v]) == Box(Min(s.minX, q.x), Max(s.maxX, q.x), Min(s.minY, q.y), Max(s.maxY, q.y))
  {
    ExtremesAdd(cells, q, v, Horiz);
    ExtremesAdd(cells, q, v, Vert);
  }

  /** The cells of the points already visited by a loop over the keys,
      one more visited. */
  lemma Visit(cells: Cells, rest: set<Point>, q: Point)
    requires q in rest && rest <= cells.Keys
    ensures q !in cells - rest
    ensures cells - (rest - {q}) == (cells - rest)[q := cells[q]]
  {
  }

  lemma VisitedAll(cells: Cells)
    ensures cells - {} == cells
  {
  }

  lemma SetSameSize(a: set<Point>, b: set<Point>)
    requires a <= b && |a| == |b|
    ensures a == b
  {
    SubsetCard(a, b);
    assert b - a == {};
    assert forall x :: x in b ==> x in a;
  }

  /** Two grids of the same size that agree on every point of the first
      are equal: Equals compares sizes and then one map's entries. */
  lemma SameCells(a: Cells, b: Cells)
    requires |a| == |b| && forall k :: k in a ==> k in b && b[k] == a[k]
    ensures a == b
  {
    SetSameSize(a.Keys, b.Keys);
  }

  // ---------------------------------------------------------------------
  // Translation and normalisation

  /** `q` seen from the origin (ox, oy). */
  function Sub(q: Point, ox: int, oy: int): Point {
    Point(q.x - ox, q.y - oy)
  }

  /** `q` moved by (ox, oy); Sub undoes it. */
  function Add(q: Point, ox: int, oy: int): Point {
    Point(q.x + ox, q.y + oy)
  }

  /** Some key of a non-empty map (an occupied point of a grid, a letter
      of a count map). */
  ghost function Pick<K, V>(m: map<K, V>): (k: K)
    requires |m| > 0
    ensures k in m
  {
    var k :| k in m; k
  }

  /** Every cell moved so that (ox, oy) becomes the origin, keeping its
      letter. */
  ghost function Rebase(cells: Cells, ox: int, oy: int): Cells
    decreases |cells|
  {
    if |cells| == 0 then map[]
    else
      var q := Pick(cells);
      RemoveKey(cells, q);
      Rebase(cells - {q}, ox, oy)[Sub(q, ox, oy) := cells[q]]
  }

  /** A point of the rebased grid comes from the point (ox, oy) away from
      it, and holds that point's letter. */
  lemma {:induction false} RebaseAt(cells: Cells, ox: int, oy: int, k: Point)
    ensures k in Rebase(cells, ox, oy) <==> Add(k, ox, oy) in cells
    ensures k in Rebase(cells, ox, oy) ==> Rebase(cells, ox, oy)[k] == cells[Add(k, ox, oy)]
    decreases |cells|
  {
    if |cells| > 0 {
      var q := Pick(cells);
      RemoveKey(cells, q);
      var rest := cells - {q};
      RebaseAt(rest, ox, oy, k);
      assert Rebase(cells, ox, oy) == Rebase(rest, ox, oy)[Sub(q, ox, oy) := cells[q]];
      assert k == Sub(q, ox, oy) <==> Add(k, ox, oy) == q;
    }
  }

  /** Rebasing keeps the number of cells. */
  lemma {:induction false} RebaseSize(cells: Cells, ox: int, oy: int)
    ensures |Rebase(cells, ox, oy)| == |cells|
    decreases |cells|
  {
    if |cells| > 0 {
      var q := Pick(cells);
      RemoveKey(cells, q);
      var rest := cells - {q};
      RebaseSize(rest, ox, oy);
      var s := Sub(q, ox, oy);
      assert Add(s, ox, oy) == q;
      RebaseAt(rest, ox, oy, s);
      assert Rebase(cells, ox, oy) == Rebase(rest, ox, oy)[s := cells[q]];
    }
  }

  /** Rebasing on (0, 0) changes nothing. */
  lemma RebaseZero(cells: Cells)
    ensures Rebase(cells, 0, 0) == cells
  {
    forall q | true
      ensures q in Rebase(cells, 0, 0) <==> q in cells
      ensures q in cells ==> Rebase(cells, 0, 0)[q] == cells[q]
    {
      RebaseAt(cells, 0, 0, q);
      assert Add(q, 0, 0) == q;
    }
  }

  /** Rebasing a grid with one more point adds that point, moved. */
  lemma RebaseInsert(cells: Cells, q: Point, v: char, ox: int, oy: int)
    requires q !in cells
    ensures Rebase(cells[q := v], ox, oy) == Rebase(cells, ox, oy)[Sub(q, ox, oy) := v]
  {
    var big, small := Rebase(cells[q := v], ox, oy), Rebase(cells, ox, oy)[Sub(q, ox, oy) := v];
    forall k
      ensures k in big <==> k in small
      ensures k in big ==> big[k] == small[k]
    {
      RebaseAt(cells[q := v], ox, oy, k);
      RebaseAt(cells, ox, oy, k);
      assert k == Sub(q, ox, oy) <==> Add(k, ox, oy) == q;
    }
  }

  /** The coordinate of the origin (ox, oy) along `d`. */
  function Along(ox: int, oy: int, d: Direction): int {
    match d
    case Horiz => ox
    case Vert => oy
  }

  lemma CoordSub(q: Point, ox: int, oy: int, d: Direction)
    ensures Coord(Sub(q, ox, oy), d) == Coord(q, d) - Along(ox, oy, d)
  {
    match d
    case Horiz =>
    case Vert =>
  }

  /** Rebasing a non-empty grid moves its extremes along each axis by the
      origin's coordinate. */
  lemma ExtremesRebase(cells: Cells, ox: int, oy: int, d: Direction)
    requires |cells| > 0
    ensures |Rebase(cells, ox, oy)| > 0
    ensures Least(Rebase(cells, ox, oy), d) == Least(cells, d) - Along(ox, oy, d)
    ensures Greatest(Rebase(cells, ox, oy), d) == Greatest(cells, d) - Along(ox, oy, d)
  {
    var r := Rebase(cells, ox, oy);
    var m, n := Least(cells, d), Greatest(cells, d);
    var lo :| lo in cells && Coord(lo, d) == m;
    var hi :| hi in cells && Coord(hi, d) == n;
    var lo', hi' := Sub(lo, ox, oy), Sub(hi, ox, oy);
    RebaseAt(cells, ox, oy, lo');
    RebaseAt(cells, ox, oy, hi');
    assert Add(lo', ox, oy) == lo && Add(hi', ox, oy) == hi;
    CoordSub(lo, ox, oy, d);
    CoordSub(hi, ox, oy, d);
    forall k | k in r
      ensures m - Along(ox, oy, d) <= Coord(k, d) <= n - Along(ox, oy, d)
    {
      RebaseAt(cells, ox, oy, k);
      var o := Add(k, ox, oy);
      assert m <= Coord(o, d) <= n;
      CoordSub(o, ox, oy, d);
      assert Sub(o, ox, oy) == k;
    }
    LeastIs(r, d, lo');
    GreatestIs(r, d, hi');
  }

  function RebasePlacement(p: Placement, ox: int, oy: int): Placement {
    Placement(p.word, Sub(p.origin, ox, oy), p.dir)
  }

  function RebaseAll(ws: seq<Placement>, ox: int, oy: int): (r: seq<Placement>)
    ensures |r| == |ws| && forall i :: 0 <= i < |ws| ==> r[i] == RebasePlacement(ws[i], ox, oy)
  {
    seq(|ws|, i requires 0 <= i < |ws| => RebasePlacement(ws[i], ox, oy))
  }

  /** Normalize's cells: every cell moved by (-minX, -minY). */
  ghost function NormalizeCells(cells: Cells): Cells {
    var b := BoxOf(cells);
    Rebase(cells, b.minX, b.minY)
  }

  /** Normalize's placement list: every origin moved by (-minX, -minY). */
  ghost function NormalizeWords(cells: Cells, ws: seq<Placement>): seq<Placement> {
    var b := BoxOf(cells);
    RebaseAll(ws, b.minX, b.minY)
  }

  /** Normalize keeps every cell and its letter: (x, y) moves to
      (x - minX, y - minY), and nothing else is added. */
  lemma NormalizeAt(cells: Cells, q: Point)
    ensures var b := BoxOf(cells); var n := NormalizeCells(cells);
      && (q in cells <==> Sub(q, b.minX, b.minY) in n)
      && (q in cells ==> n[Sub(q, b.minX, b.minY)] == cells[q])
  {
    var b := BoxOf(cells);
    RebaseAt(cells, b.minX, b.minY, Sub(q, b.minX, b.minY));
    assert Add(Sub(q, b.minX, b.minY), b.minX, b.minY) == q;
  }

  /** A normalised grid has no negative coordinate. */
  lemma NormalizeNonNegative(cells: Cells, q: Point)
    requires q in NormalizeCells(cells)
    ensures 0 <= q.x && 0 <= q.y
  {
    var b := BoxOf(cells);
    RebaseAt(cells, b.minX, b.minY, q);
    BoxContains(cells, Add(q, b.minX, b.minY));
  }

  /** The box of a non-empty grid, from its true extremes and the sentinels. */
  lemma BoxCorners(cells: Cells)
    requires |cells| > 0
    ensures BoxOf(cells).minX == Min(Sentinel, Least(cells, Horiz))
    ensures BoxOf(cells).minY == Min(Sentinel, Least(cells, Vert))
  {
  }

  /** Rebasing on the least coordinates brings them to 0. */
  lemma LeastToZero(cells: Cells, ox: int, oy: int)
    requires |cells| > 0 && ox == Least(cells, Horiz) && oy == Least(cells, Vert)
    ensures var r := Rebase(cells, ox, oy);
      |r| == |cells| && Least(r, Horiz) == 0 && Least(r, Vert) == 0
  {
    RebaseSize(cells, ox, oy);
    ExtremesRebase(cells, ox, oy, Horiz);
    ExtremesRebase(cells, ox, oy, Vert);
  }

  /** A normalised unclipped grid has the same size and its box starts at
      (0, 0), so normalising it again changes nothing: Normalize is
      idempotent. */
  lemma NormalizeAtOrigin(cells: Cells)
    requires Unclipped(cells)
    ensures var n := NormalizeCells(cells);
      && |n| == |cells|
      && (|cells| > 0 ==> BoxOf(n).minX == 0 && BoxOf(n).minY == 0)
      && NormalizeCells(n) == n
  {
    var b := BoxOf(cells);
    var n := NormalizeCells(cells);
    RebaseSize(cells, b.minX, b.minY);
    if |cells| > 0 {
      TightBox(cells);
      LeastToZero(cells, b.minX, b.minY);
      BoxCorners(n);
    }
    RebaseZero(n);
  }

  /** Normalising an empty grid changes neither its cells nor its
      placement list (Normalize returns a copy). */
  lemma NormalizeEmpty(cells: Cells, ws: seq<Placement>)
    requires |cells| == 0
    ensures NormalizeCells(cells) == cells && NormalizeWords(cells, ws) == ws
  {
    assert cells == map[];
    var r := RebaseAll(ws, 0, 0);
    forall i | 0 <= i < |ws| ensures r[i] == ws[i] {
      assert Sub(ws[i].origin, 0, 0) == ws[i].origin;
    }
  }

  // ---------------------------------------------------------------------
  // Hash

  /** What Hash and Render show for a point. */
  function CellChar(cells: Cells, q: Point): char {
    if q in cells then cells[q] else Blank
  }

  /** The characters of row `y` for x = 0 .. maxX. */
  function Row(cells: Cells, y: int, maxX: int): string
    decreases maxX + 1
  {
    if maxX < 0 then [] else Row(cells, y, maxX - 1) + [CellChar(cells, Point(maxX, y))]
  }

  /** Rows y = 0 .. maxY, each followed by RowEnd. */
  function Rows(cells: Cells, maxX: int, maxY: int): string
    decreases maxY + 1
  {
    if maxY < 0 then [] else Rows(cells, maxX, maxY - 1) + Row(cells, maxY, maxX) + [RowEnd]
  }

  function WordsOf(ws: seq<Placement>): (r: seq<string>)
    ensures |r| == |ws| && forall i :: 0 <= i < |ws| ==> r[i] == ws[i].word
  {
    seq(|ws|, i requires 0 <= i < |ws| => ws[i].word)
  }

  /** The second part of the hash: '#' and the sorted words joined by ','
      when there are placements, nothing otherwise. */
  function WordList(ws: seq<Placement>): string {
    if ws == [] then "" else "#" + Join(Sort(WordsOf(ws), LexLess), ",")
  }

  /** The words of the word part are the placements' words, in Go's string
      order: LexLess is a strict order, so the sort orders by it. */
  lemma WordsSorted(ws: seq<Placement>)
    ensures multiset(Sort(WordsOf(ws), LexLess)) == multiset(WordsOf(ws))
    ensures SortedBy(Sort(WordsOf(ws), LexLess), LexLess)
  {
    var names := WordsOf(ws);
    forall a | a in names ensures !LexLess(a, a) {
      LexLessIrreflexive(a);
    }
    forall a, b, c | a in names && b in names && c in names && LexLess(a, b) && LexLess(b, c)
      ensures LexLess(a, c)
    {
      LexLessTransitive(a, b, c);
    }
  }

  /** Hash: "" for an empty grid; otherwise the rows of the normalised grid
      from (0, 0) to its maximum, then the word list. */
  ghost function HashOf(cells: Cells, ws: seq<Placement>): string {
    if |cells| == 0 then ""
    else
      var n := NormalizeCells(cells);
      var b := BoxOf(n);
      Rows(n, b.maxX, b.maxY) + WordList(NormalizeWords(cells, ws))
  }

  /** The index in the hash where row `y` starts, for rows of maxX+1
      characters and a RowEnd. */
  function RowStart(y: int, maxX: int): (r: int)
    requires maxX >= -1
    ensures r >= 0
    decreases y
  {
    if y <= 0 then 0 else RowStart(y - 1, maxX) + maxX + 2
  }

  /** Row `y` starts at y·(maxX+2). */
  lemma {:induction false} RowStartIs(y: nat, maxX: int)
    requires maxX >= -1
    ensures RowStart(y, maxX) == y * (maxX + 2)
  {
    if y > 0 {
      RowStartIs(y - 1, maxX);
      assert y * (maxX + 2) == (y - 1) * (maxX + 2) + maxX + 2;
    }
  }

  lemma {:induction false} RowLayout(cells: Cells, y: int, maxX: int)
    requires maxX >= -1
    ensures |Row(cells, y, maxX)| == maxX + 1
    ensures forall x :: 0 <= x <= maxX ==> Row(cells, y, maxX)[x] == CellChar(cells, Point(x, y))
    decreases maxX + 1
  {
    if maxX >= 0 {
      RowLayout(cells, y, maxX - 1);
    }
  }

  /** Rows y = 0 .. maxY take RowStart(maxY+1) characters. */
  lemma {:induction false} RowsLength(cells: Cells, maxX: int, maxY: int)
    requires maxX >= -1 && maxY >= -1
    ensures |Rows(cells, maxX, maxY)| == RowStart(maxY + 1, maxX)
    decreases maxY + 1
  {
    if maxY >= 0 {
      RowsLength(cells, maxX, maxY - 1);
      RowLayout(cells, maxY, maxX);
    }
  }

  /** Rows up to maxY are the rows up to maxY-1, then row maxY. */
  lemma RowsSplit(cells: Cells, maxX: int, maxY: int)
    requires maxX >= -1 && maxY >= 0
    ensures Rows(cells, maxX, maxY) == Rows(cells, maxX, maxY - 1) + (Row(cells, maxY, maxX) + [RowEnd])
    ensures |Rows(cells, maxX, maxY - 1)| == RowStart(maxY, maxX)
    ensures |Row(cells, maxY, maxX) + [RowEnd]| == RowStart(maxY + 1, maxX) - RowStart(maxY, maxX)
  {
    RowsLength(cells, maxX, maxY - 1);
    RowLayout(cells, maxY, maxX);
  }

  lemma SliceLeft(a: string, b: string, i: int, j: int)
    requires 0 <= i <= j <= |a|
    ensures (a + b)[i..j] == a[i..j]
  {
  }

  lemma SliceRight(a: string, b: string)
    ensures (a + b)[|a|..|a| + |b|] == b
  {
  }

  /** Row `y` of Rows sits between RowStart(y) and RowStart(y+1) and is
      followed by RowEnd. */
  lemma {:induction false} RowIn(cells: Cells, maxX: int, maxY: int, y: int)
    requires maxX >= -1 && 0 <= y <= maxY
    ensures RowStart(y + 1, maxX) <= |Rows(cells, maxX, maxY)|
    ensures Rows(cells, maxX, maxY)[RowStart(y, maxX)..RowStart(y + 1, maxX)] == Row(cells, y, maxX) + [RowEnd]
    decreases maxY
  {
    RowsSplit(cells, maxX, maxY);
    var prev := Rows(cells, maxX, maxY - 1);
    var last := Row(cells, maxY, maxX) + [RowEnd];
    if y == maxY {
      SliceRight(prev, last);
    } else {
      RowIn(cells, maxX, maxY - 1, y);
      RowStartMono(y, maxY, maxX);
      SliceLeft(prev, last, RowStart(y, maxX), RowStart(y + 1, maxX));
    }
  }

  /** A line `row + [RowEnd]` laid into `s` at `a`: its characters and
      its terminator sit at the shifted indices. */
  lemma LineAt(s: string, a: int, b: int, row: string, x: int)
    requires 0 <= a <= b <= |s| && s[a..b] == row + [RowEnd] && 0 <= x < |row|
    ensures a + |row| < |s| && s[a + x] == row[x] && s[a + |row|] == RowEnd
  {
    assert s[a + x] == s[a..b][x];
    assert s[a + |row|] == s[a..b][|row|];
  }

  /** The character of point (x, y) is at RowStart(y)+x of Rows, and the
      RowEnd of row y right after the row's maxX+1 characters. */
  lemma RowsAt(cells: Cells, maxX: int, maxY: int, y: int, x: int)
    requires 0 <= y <= maxY && 0 <= x <= maxX
    ensures RowStart(y, maxX) + maxX + 1 < |Rows(cells, maxX, maxY)|
    ensures Rows(cells, maxX, maxY)[RowStart(y, maxX) + x] == CellChar(cells, Point(x, y))
    ensures Rows(cells, maxX, maxY)[RowStart(y, maxX) + maxX + 1] == RowEnd
  {
    RowIn(cells, maxX, maxY, y);
    RowLayout(cells, y, maxX);
    LineAt(Rows(cells, maxX, maxY), RowStart(y, maxX), RowStart(y + 1, maxX), Row(cells, y, maxX), x);
  }

  lemma {:induction false} RowStartMono(y: int, y': int, maxX: int)
    requires 0 <= y < y' && maxX >= -1
    ensures RowStart(y, maxX) + maxX + 2 <= RowStart(y', maxX)
    decreases y'
  {
    if y + 1 < y' {
      RowStartMono(y, y' - 1, maxX);
    }
  }

  /** Without placements, the hash of a non-empty grid is its rows alone. */
  lemma HashRows(cells: Cells)
    requires |cells| > 0
    ensures var n := NormalizeCells(cells);
      var b := BoxOf(n);
      && b.maxX >= 0 && b.maxY >= 0
      && HashOf(cells, []) == Rows(n, b.maxX, b.maxY)
  {
    var b0 := BoxOf(cells);
    var n := NormalizeCells(cells);
    var q := Pick(cells);
    NormalizeAt(cells, q);
    var q' := Sub(q, b0.minX, b0.minY);
    NormalizeNonNegative(cells, q');
    BoxContains(n, q');
    var b := BoxOf(n);
    assert NormalizeWords(cells, []) == [];
    assert HashOf(cells, []) == Rows(n, b.maxX, b.maxY) + WordList([]);
  }

  /** Only the empty grid hashes to "": any other has at least one row. */
  lemma HashNonEmpty(cells: Cells, ws: seq<Placement>)
    ensures HashOf(cells, ws) == "" <==> |cells| == 0
  {
    if |cells| > 0 {
      HashParts(cells, ws);
      HashRows(cells);
    }
  }

  /** The word list does not depend on where the words are. */
  lemma WordListRebase(ws: seq<Placement>, ox: int, oy: int)
    ensures WordList(RebaseAll(ws, ox, oy)) == WordList(ws)
  {
    assert WordsOf(RebaseAll(ws, ox, oy)) == WordsOf(ws);
  }

  /** The hash of a non-empty grid: the rows of its normalisation, then
      the word list of its own placements (which normalising does not
      change). */
  lemma HashParts(cells: Cells, ws: seq<Placement>)
    requires |cells| > 0
    ensures var n := NormalizeCells(cells);
      HashOf(cells, ws) == Rows(n, BoxOf(n).maxX, BoxOf(n).maxY) + WordList(ws)
  {
    var b := BoxOf(cells);
    WordListRebase(ws, b.minX, b.minY);
  }

  /** Hash(g) == Hash(Normalize(g)) for every unclipped grid. */
  lemma HashNormalize(cells: Cells, ws: seq<Placement>)
    requires Unclipped(cells)
    ensures HashOf(NormalizeCells(cells), NormalizeWords(cells, ws)) == HashOf(cells, ws)
  {
    var b := BoxOf(cells);
    var n := NormalizeCells(cells);
    NormalizeAtOrigin(cells);
    if |cells| > 0 {
      var nw := NormalizeWords(cells, ws);
      HashParts(cells, ws);
      HashParts(n, nw);
      WordListRebase(ws, b.minX, b.minY);
    }
  }

  // ---------------------------------------------------------------------
  // Render

  /** DrawCell for the points (minX, y) .. (x, y), left to right. */
  function RenderRow(cells: Cells, y: int, minX: int, x: int): seq<RenderEvent>
    decreases x - minX + 1
  {
    if x < minX then [] else RenderRow(cells, y, minX, x - 1) + [DrawCell(x, y, CellChar(cells, Point(x, y)))]
  }

  /** Rows minY .. y of the box, each followed by a newline drawn at
      column maxX+1. */
  function RenderRows(cells: Cells, b: Box, y: int): seq<RenderEvent>
    decreases y - b.minY + 1
  {
    if y < b.minY then []
    else RenderRows(cells, b, y - 1) + RenderRow(cells, y, b.minX, b.maxX) + [DrawCell(b.maxX + 1, y, '\n')]
  }

  /** A row draws only cells, and draws every point from minX to x. */
  lemma {:induction false} RenderRowFacts(cells: Cells, y: int, minX: int, x: int)
    ensures var r := RenderRow(cells, y, minX, x);
      && (forall e :: e in r ==> e.DrawCell?)
      && (forall x' :: minX <= x' <= x ==> DrawCell(x', y, CellChar(cells, Point(x', y))) in r)
    decreases x - minX + 1
  {
    if x >= minX {
      RenderRowFacts(cells, y, minX, x - 1);
    }
  }

  /** The rows draw only cells, and draw every point of the box up to row y. */
  lemma {:induction false} RenderRowsFacts(cells: Cells, b: Box, y: int)
    ensures var r := RenderRows(cells, b, y);
      && (forall e :: e in r ==> e.DrawCell?)
      && (forall y', x' :: b.minY <= y' <= y && b.minX <= x' <= b.maxX ==>
            DrawCell(x', y', CellChar(cells, Point(x', y'))) in r)
    decreases y - b.minY + 1
  {
    if y >= b.minY {
      RenderRowsFacts(cells, b, y - 1);
      RenderRowFacts(cells, y, b.minX, b.maxX);
    }
  }

  /** The calls Render makes on its renderer. */
  ghost function RenderTrace(cells: Cells): seq<RenderEvent> {
    if |cells| == 0 then [Finish]
    else var b := BoxOf(cells); RenderRows(cells, b, b.maxY) + [Finish]
  }

  /** Render calls Finish exactly once, as its last call, and draws every
      stored letter at its own coordinates. */
  lemma RenderComplete(cells: Cells)
    ensures var t := RenderTrace(cells);
      && |t| >= 1 && t[|t| - 1] == Finish
      && (forall i :: 0 <= i < |t| - 1 ==> t[i].DrawCell?)
      && (forall q :: q in cells ==> DrawCell(q.x, q.y, cells[q]) in t)
  {
    var t := RenderTrace(cells);
    if |cells| > 0 {
      var b := BoxOf(cells);
      var rows := RenderRows(cells, b, b.maxY);
      RenderRowsFacts(cells, b, b.maxY);
      assert t == rows + [Finish];
      forall i | 0 <= i < |t| - 1 ensures t[i].DrawCell? {
        assert t[i] == rows[i] && rows[i] in rows;
      }
      forall q | q in cells ensures DrawCell(q.x, q.y, cells[q]) in t {
        assert CellChar(cells, Point(q.x, q.y)) == cells[q];
        assert DrawCell(q.x, q.y, cells[q]) in rows;
      }
    }
  }

  // ---------------------------------------------------------------------
  // Intersections and area

  /** A point with an occupied horizontal neighbour and an occupied
      vertical neighbour. */
  predicate IsCrossing(cells: Cells, q: Point) {
    && (Offset(q, Horiz, -1) in cells || Offset(q, Horiz, 1) in cells)
    && (Offset(q, Vert, -1) in cells || Offset(q, Vert, 1) in cells)
  }

  /** The occupied points Intersections counts. */
  function Crossings(cells: Cells): (r: set<Point>)
    ensures r <= cells.Keys
  {
    set q | q in cells && IsCrossing(cells, q)
  }

  /** Area: the width times the height of the box. */
  ghost function AreaOf(cells: Cells): int {
    var b := BoxOf(cells);
    (b.maxX - b.minX + 1) * (b.maxY - b.minY + 1)
  }

  /** The `n` points (lo, y) .. (lo+n-1, y). */
  function RowPoints(y: int, lo: int, n: nat): (r: set<Point>)
    ensures |r| == n
    ensures forall q :: q in r <==> q.y == y && lo <= q.x < lo + n
  {
    if n == 0 then {} else RowPoints(y, lo, n - 1) + {Point(lo + n - 1, y)}
  }

  /** The w·h points of the rectangle with corner (lo, top). */
  function RectPoints(lo: int, w: nat, top: int, h: nat): (r: set<Point>)
    ensures |r| == w * h
    ensures forall q :: q in r <==> lo <= q.x < lo + w && top <= q.y < top + h
  {
    if h == 0 then {}
    else
      var rest := RectPoints(lo, w, top, h - 1);
      var row := RowPoints(top + h - 1, lo, w);
      assert rest !! row;
      assert w * h == w * (h - 1) + w;
      rest + row
  }

  lemma SubsetCard(a: set<Point>, b: set<Point>)
    requires a <= b
    ensures |b| == |a| + |b - a|
  {
    assert b == a + (b - a);
    assert a !! (b - a);
  }

  /** The area is at least the number of occupied points (so density is at
      most one); it is 1 for the empty grid. */
  lemma AreaCovers(cells: Cells)
    ensures |cells| <= AreaOf(cells)
    ensures |cells| == 0 ==> AreaOf(cells) == 1
  {
    var b := BoxOf(cells);
    var rect := RectPoints(b.minX, b.maxX - b.minX + 1, b.minY, b.maxY - b.minY + 1);
    forall q | q in cells ensures q in rect {
      BoxContains(cells, q);
    }
    SubsetCard(cells.Keys, rect);
    assert |rect| == AreaOf(cells);
  }

  // ---------------------------------------------------------------------
  // Centre and position score

  lemma Half(w: int)
    requires w >= 0
    ensures 0 <= 2 * (w / 2) <= w <= 2 * (w / 2) + 1
  {
  }

  function Abs(v: int): nat {
    if v < 0 then -v else v
  }

  /** center: half the width and half the height of the box, which is not
      the coordinate of the box's middle unless the box starts at (0, 0). */
  ghost function CenterOf(cells: Cells): (c: (int, int))
    ensures var b := BoxOf(cells);
      && 0 <= 2 * c.0 <= b.maxX - b.minX <= 2 * c.0 + 1
      && 0 <= 2 * c.1 <= b.maxY - b.minY <= 2 * c.1 + 1
  {
    var b := BoxOf(cells);
    var w, h := b.maxX - b.minX, b.maxY - b.minY;
    Half(w);
    Half(h);
    (w / 2, h / 2)
  }

  /** The number of the first `n` letters of `p` that land on occupied
      points; it is positive exactly when one of them does. */
  function Hits(cells: Cells, p: Placement, n: nat): (r: nat)
    ensures r <= n
    ensures r > 0 <==> exists i :: 0 <= i < n && Cell(p, i) in cells
  {
    if n == 0 then 0 else Hits(cells, p, n - 1) + (if Cell(p, n - 1) in cells then 1 else 0)
  }

  /** positionScore: 10 per letter on an occupied point, minus the
      Manhattan distance from the origin to center. */
  ghost function ScoreOf(cells: Cells, p: Placement): int {
    var c := CenterOf(cells);
    10 * Hits(cells, p, |p.word|) - (Abs(p.origin.x - c.0) + Abs(p.origin.y - c.1))
  }

  // ---------------------------------------------------------------------
  // The candidates PositionsList tries

  /** The two placements tried for letter `i` of `word` on the occupied
      point `k`: across and down, each with letter `i` on `k`. */
  predicate FromKey(word: string, k: Point, i: int, p: Placement) {
    p == Placement(word, Point(k.x - i, k.y), Horiz) || p == Placement(word, Point(k.x, k.y - i), Vert)
  }

  /** One of the placements tried for letters 0 .. n-1 on `k`. */
  predicate FromKeyBelow(word: string, k: Point, n: nat, p: Placement)
    decreases n
  {
    n > 0 && (FromKeyBelow(word, k, n - 1, p) || FromKey(word, k, n - 1, p))
  }

  /** One of the placements tried on the points of `keys`. */
  predicate Candidate(word: string, keys: seq<Point>, p: Placement)
    decreases |keys|
  {
    |keys| > 0 && (Candidate(word, keys[..|keys| - 1], p) || FromKeyBelow(word, keys[|keys| - 1], |word|, p))
  }

  lemma {:induction false} FromKeyBelowIs(word: string, k: Point, n: nat, i: nat, p: Placement)
    requires i < n && FromKey(word, k, i, p)
    ensures FromKeyBelow(word, k, n, p)
    decreases n
  {
    if i < n - 1 {
      FromKeyBelowIs(word, k, n - 1, i, p);
    }
  }

  lemma {:induction false} FromKeyBelowWord(word: string, k: Point, n: nat, p: Placement)
    requires FromKeyBelow(word, k, n, p)
    ensures p.word == word
    decreases n
  {
    if !FromKey(word, k, n - 1, p) {
      FromKeyBelowWord(word, k, n - 1, p);
    }
  }

  lemma {:induction false} CandidateIs(word: string, keys: seq<Point>, j: nat, i: nat, p: Placement)
    requires j < |keys| && i < |word| && FromKey(word, keys[j], i, p)
    ensures Candidate(word, keys, p)
    decreases |keys|
  {
    if j < |keys| - 1 {
      var front := keys[..|keys| - 1];
      assert front[j] == keys[j];
      CandidateIs(word, front, j, i, p);
    } else {
      FromKeyBelowIs(word, keys[j], |word|, i, p);
    }
  }

  lemma {:induction false} CandidateWord(word: string, keys: seq<Point>, p: Placement)
    requires Candidate(word, keys, p)
    ensures p.word == word
    decreases |keys|
  {
    if Candidate(word, keys[..|keys| - 1], p) {
      CandidateWord(word, keys[..|keys| - 1], p);
    } else {
      FromKeyBelowWord(word, keys[|keys| - 1], |word|, p);
    }
  }

  /** On a non-empty grid, trying both directions for every letter on every
      occupied point finds every placement of the word canPlace accepts:
      an accepted placement crosses some occupied point with some letter. */
  lemma CandidatesComplete(cells: Cells, word: string, keys: seq<Point>, p: Placement)
    requires |cells| > 0 && forall k :: k in keys <==> k in cells
    ensures (Placeable(cells, p) && Candidate(word, keys, p)) <==> (p.word == word && Placeable(cells, p))
  {
    if Placeable(cells, p) && Candidate(word, keys, p) {
      CandidateWord(word, keys, p);
    }
    if p.word == word && Placeable(cells, p) {
      var i :| 0 <= i < |p.word| && Cell(p, i) in cells;
      var k := Cell(p, i);
      var j :| 0 <= j < |keys| && keys[j] == k;
      assert FromKey(word, k, i, p) by {
        match p.dir
        case Horiz => assert p == Placement(word, Point(k.x - i, k.y), Horiz);
        case Vert => assert p == Placement(word, Point(k.x, k.y - i), Vert);
      }
      CandidateIs(word, keys, j, i, p);
    }
  }

  // ---------------------------------------------------------------------
  // The rules on a grid holding one word, and the grids of the unit tests
  // (grid_test.go)

  lemma EmptyGridAccepts(p: Placement)
    ensures Placeable(map[], p)
  {
  }

  /** The grid holding one word across: its row segment, letter by letter. */
  lemma LoneWord(w: Placement)
    requires w.dir == Horiz
    ensures var g := Place(map[], w);
      && (forall q :: q in g <==> q.y == w.origin.y && w.origin.x <= q.x < w.origin.x + |w.word|)
      && (forall j :: 0 <= j < |w.word| ==> g[Cell(w, j)] == w.word[j])
  {
    var g := Place(map[], w);
    StampFacts(map[], w, w.word, |w.word|);
    forall q ensures q in g <==> q.y == w.origin.y && w.origin.x <= q.x < w.origin.x + |w.word| {
      if q.y == w.origin.y && w.origin.x <= q.x < w.origin.x + |w.word| {
        assert q == Cell(w, q.x - w.origin.x);
      }
    }
  }

  /** A word whose letter i lands on an occupied point holding a
      different letter is rejected, on any grid. */
  lemma LetterClash(cells: Cells, p: Placement, i: int)
    requires 0 <= i < |p.word| && Cell(p, i) in cells && cells[Cell(p, i)] != p.word[i]
    ensures !Placeable(cells, p)
  {
    assert !Fits(cells, p, i);
  }

  /** A word down that shares its letter i with letter j of the only word
      of the grid, a word across, at the same point is accepted. */
  lemma CrossingAlone(w: Placement, p: Placement, i: int, j: int)
    requires w.dir == Horiz && p.dir == Vert
    requires 0 <= i < |p.word| && 0 <= j < |w.word|
    requires Cell(p, i) == Cell(w, j) && p.word[i] == w.word[j]
    ensures Placeable(Place(map[], w), p)
  {
    var g := Place(map[], w);
    LoneWord(w);
    assert Cell(p, -1) !in g && Cell(p, |p.word|) !in g;
    forall k | 0 <= k < |p.word| ensures Fits(g, p, k) {
      if k != i {
        assert Cell(p, k) !in g;
        assert !PerpendicularConflict(g, Cell(p, k), p.dir);
      }
    }
    assert Crosses(g, p) by {
      assert Cell(p, i) in g;
    }
  }

  /** A word across placed right above the start of the only word of the
      grid, a word across, is rejected: its first letter has an occupied
      point below it. */
  lemma AlongsideAlone(w: Placement, p: Placement)
    requires w.dir == Horiz && p.dir == Horiz && |w.word| > 0 && |p.word| > 0
    requires p.origin == Point(w.origin.x, w.origin.y - 1)
    ensures !Placeable(Place(map[], w), p)
  {
    var g := Place(map[], w);
    LoneWord(w);
    assert Cell(p, 0) !in g;
    assert Offset(Cell(p, 0), Vert, 1) in g;
    assert !Fits(g, p, 0);
  }

  /** A word whose point just before or just after is occupied is
      rejected, whatever its letters. */
  lemma ExtensionRejected(cells: Cells, p: Placement)
    requires OccupiedBeforeOrAfter(cells, p)
    ensures !Placeable(cells, p)
  {
  }

  /** ROOM across (0,0) clashes with the 'A' of ALL placed down at (0,0). */
  lemma LetterConflictExample()
    ensures !Placeable(Place(map[], Placement("ALL", Point(0, 0), Vert)), Placement("ROOM", Point(0, 0), Horiz))
  {
    var w, p := Placement("ALL", Point(0, 0), Vert), Placement("ROOM", Point(0, 0), Horiz);
    StampFacts(map[], w, w.word, |w.word|);
    assert Cell(p, 0) == Cell(w, 0);
    LetterClash(Place(map[], w), p, 0);
  }

  /** ROOM down from (0,-1) crosses OMEGA across (0,0) at its 'O'. */
  lemma CorrectIntersectionExample()
    ensures Placeable(Place(map[], Placement("OMEGA", Point(0, 0), Horiz)), Placement("ROOM", Point(0, -1), Vert))
  {
    CrossingAlone(Placement("OMEGA", Point(0, 0), Horiz), Placement("ROOM", Point(0, -1), Vert), 1, 0);
  }

  /** ROOM across (0,0) runs along XENON across (0,1) without crossing it. */
  lemma PerpendicularConflictExample()
    ensures !Placeable(Place(map[], Placement("XENON", Point(0, 1), Horiz)), Placement("ROOM", Point(0, 0), Horiz))
  {
    AlongsideAlone(Placement("XENON", Point(0, 1), Horiz), Placement("ROOM", Point(0, 0), Horiz));
  }

  /** ROOM across (0,0) would extend the X at (-1,0) or the X at (4,0). */
  lemma ExtensionExamples()
    ensures !Placeable(Place(map[], Placement("X", Point(-1, 0), Horiz)), Placement("ROOM", Point(0, 0), Horiz))
    ensures !Placeable(Place(map[], Placement("X", Point(4, 0), Horiz)), Placement("ROOM", Point(0, 0), Horiz))
  {
    var p := Placement("ROOM", Point(0, 0), Horiz);
    var before, after := Placement("X", Point(-1, 0), Horiz), Placement("X", Point(4, 0), Horiz);
    LoneWord(before);
    LoneWord(after);
    ExtensionRejected(Place(map[], before), p);
    ExtensionRejected(Place(map[], after), p);
  }
}
