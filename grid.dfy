/** The crossword grid of internal/core/grid.go as a class: a letter map
    written in place, a placement list and a cached score. Every method is
    proved against the definitions of module GridSpec. */
module Grids {
  import opened Sorting
  import opened GridSpec
  import opened Text

  /** The order PositionsList sorts the occupied points in: by x, then y. */
  predicate PointBefore(a: Point, b: Point) {
    if a.x != b.x then a.x < b.x else a.y < b.y
  }

  /** The comparison of placements tagged with their positionScore:
      the higher score goes first. */
  predicate HigherScore(a: (Placement, int), b: (Placement, int)) {
    a.1 > b.1
  }

  function Untag(e: (Placement, int)): Placement {
    e.0
  }

  /** The cell loop of Normalize: every cell moved so that (ox, oy)
      becomes the origin. */
  method RebaseCells(cells: Cells, ox: int, oy: int) returns (r: Cells)
    ensures r == Rebase(cells, ox, oy)
  {
    r := map[];
    var rest := cells.Keys;
    while rest != {}
      invariant rest <= cells.Keys
      invariant r == Rebase(cells - rest, ox, oy)
      decreases |rest|
    {
      var q :| q in rest;
      Visit(cells, rest, q);
      RebaseInsert(cells - rest, q, cells[q], ox, oy);
      r := r[Point(q.x - ox, q.y - oy) := cells[q]];
      rest := rest - {q};
    }
    VisitedAll(cells);
  }

  /** The placement loop of Normalize: every origin moved likewise. */
  method RebaseList(ws: seq<Placement>, ox: int, oy: int) returns (r: seq<Placement>)
    ensures r == RebaseAll(ws, ox, oy)
  {
    r := [];
    var i := 0;
    while i < |ws|
      invariant 0 <= i <= |ws| && |r| == i
      invariant forall j :: 0 <= j < i ==> r[j] == RebasePlacement(ws[j], ox, oy)
    {
      var w := ws[i];
      r := r + [Placement(w.word, Point(w.origin.x - ox, w.origin.y - oy), w.dir)];
      i := i + 1;
    }
  }

  /** The rows part of Hash: for y = 0 .. maxY and x = 0 .. maxX the letter
      at (x, y) or '.', each row closed by '|'. */
  method RowsText(cells: Cells, maxX: int, maxY: int) returns (sb: string)
    requires maxX >= 0 && maxY >= 0
    ensures sb == Rows(cells, maxX, maxY)
  {
    sb := "";
    var y := 0;
    while y <= maxY
      invariant 0 <= y <= maxY + 1
      invariant sb == Rows(cells, maxX, y - 1)
    {
      var x := 0;
      while x <= maxX
        invariant 0 <= x <= maxX + 1
        invariant sb == Rows(cells, maxX, y - 1) + Row(cells, y, x - 1)
      {
        var ch := if Point(x, y) in cells then cells[Point(x, y)] else Blank;
        sb := sb + [ch];
        x := x + 1;
      }
      sb := sb + [RowEnd];
      y := y + 1;
    }
  }

  class Grid {
    var data: Cells
    var words: seq<Placement>
    var score: real

    /** NewGrid: no cells, no placements, score 0. */
    constructor ()
      ensures data == map[] && words == [] && score == 0.0
    {
      data := map[];
      words := [];
      score := 0.0;
    }

    /** has */
    predicate Has(x: int, y: int)
      reads this
    {
      Point(x, y) in data
    }

    /** Equals: the same cells with the same letters; the placement lists
        and the scores are not compared. */
    method Equals(other: Grid) returns (eq: bool)
      ensures eq <==> data == other.data
    {
      if |data| != |other.data| {
        return false;
      }
      var rest := data.Keys;
      while rest != {}
        invariant rest <= data.Keys
        invariant forall k :: k in data && k !in rest ==> k in other.data && other.data[k] == data[k]
        decreases |rest|
      {
        var q :| q in rest;
        if q !in other.data || other.data[q] != data[q] {
          return false;
        }
        rest := rest - {q};
      }
      SameCells(data, other.data);
      return true;
    }

    /** Copy: a new grid with the same cells, placements and score. */
    method Copy() returns (r: Grid)
      ensures fresh(r)
      ensures r.data == data && r.words == words && r.score == score
    {
      r := new Grid();
      r.score := score;
      var rest := data.Keys;
      while rest != {}
        invariant fresh(r) && r.score == score && r.words == []
        invariant rest <= data.Keys
        invariant r.data.Keys == data.Keys - rest
        invariant forall k :: k in r.data ==> r.data[k] == data[k]
        decreases |rest|
      {
        var q :| q in rest;
        r.data := r.data[q := data[q]];
        rest := rest - {q};
      }
      r.words := words;
    }

    /** bounds: zeros on an empty grid; otherwise one pass over the cells
        with a running minimum and maximum started from the sentinels. */
    method Bounds() returns (b: Box)
      ensures b == BoxOf(data)
    {
      if |data| == 0 {
        return Box(0, 0, 0, 0);
      }
      var minX, maxX, minY, maxY := Sentinel, -Sentinel, Sentinel, -Sentinel;
      var rest := data.Keys;
      while rest != {}
        invariant rest <= data.Keys
        invariant |data - rest| == 0 ==> Box(minX, maxX, minY, maxY) == Box(Sentinel, -Sentinel, Sentinel, -Sentinel)
        invariant |data - rest| > 0 ==> Box(minX, maxX, minY, maxY) == BoxOf(data - rest)
        decreases |rest|
      {
        var q :| q in rest;
        Visit(data, rest, q);
        BoxAdd(data - rest, q, data[q]);
        if q.x < minX { minX := q.x; }
        if q.x > maxX { maxX := q.x; }
        if q.y < minY { minY := q.y; }
        if q.y > maxY { maxY := q.y; }
        rest := rest - {q};
      }
      VisitedAll(data);
      return Box(minX, maxX, minY, maxY);
    }

    /** center: half the width and half the height of the box. */
    method Center() returns (cx: int, cy: int)
      ensures (cx, cy) == CenterOf(data)
    {
      var b := Bounds();
      cx := (b.maxX - b.minX) / 2;
      cy := (b.maxY - b.minY) / 2;
    }

    /** Area: the width times the height of the box; at least the number of
        cells, and 1 on an empty grid. */
    method Area() returns (a: int)
      ensures a == AreaOf(data)
      ensures |data| <= a
      ensures |data| == 0 ==> a == 1
    {
      var b := Bounds();
      a := (b.maxX - b.minX + 1) * (b.maxY - b.minY + 1);
      AreaCovers(data);
    }

    /** Intersections: the number of cells with an occupied horizontal and
        an occupied vertical neighbour. */
    method Intersections() returns (n: nat)
      ensures n == |Crossings(data)|
      ensures n <= |data|
    {
      n := 0;
      var rest := data.Keys;
      ghost var found: set<Point> := {};
      while rest != {}
        invariant rest <= data.Keys
        invariant forall q :: q in found <==> q in data && q !in rest && IsCrossing(data, q)
        invariant n == |found|
        decreases |rest|
      {
        var q :| q in rest;
        var horizontal := Point(q.x - 1, q.y) in data || Point(q.x + 1, q.y) in data;
        var vertical := Point(q.x, q.y - 1) in data || Point(q.x, q.y + 1) in data;
        if horizontal && vertical {
          assert q !in found;
          found := found + {q};
          n := n + 1;
        }
        rest := rest - {q};
      }
      assert found == Crossings(data);
      SubsetCard(found, data.Keys);
    }

    /** perpendicularConflict: the two neighbours across the direction are
        tried in turn. */
    method PerpendicularConflictAt(q: Point, d: Direction) returns (c: bool)
      ensures c == PerpendicularConflict(data, q, d)
    {
      var neighbours := if d == Horiz then [(0, -1), (0, 1)] else [(-1, 0), (1, 0)];
      var k := 0;
      while k < |neighbours|
        invariant 0 <= k <= |neighbours|
        invariant forall j :: 0 <= j < k ==> Point(q.x + neighbours[j].0, q.y + neighbours[j].1) !in data
      {
        if Point(q.x + neighbours[k].0, q.y + neighbours[k].1) in data {
          return true;
        }
        k := k + 1;
      }
      assert Point(q.x + neighbours[0].0, q.y + neighbours[0].1) !in data;
      assert Point(q.x + neighbours[1].0, q.y + neighbours[1].1) !in data;
      return false;
    }

    /** canPlace: the rules of Placeable, checked letter by letter with an
        early return on the first letter that does not fit. */
    method CanPlace(p: Placement) returns (ok: bool)
      ensures ok == Placeable(data, p)
    {
      if OccupiedBeforeOrAfter(data, p) {
        return false;
      }
      var hasIntersection := false;
      var gridNotEmpty := |data| > 0;
      var (dx, dy) := DirDelta(p.dir);
      var i := 0;
      while i < |p.word|
        invariant 0 <= i <= |p.word|
        invariant forall j :: 0 <= j < i ==> Fits(data, p, j)
        invariant hasIntersection <==> exists j :: 0 <= j < i && Cell(p, j) in data
      {
        var q := Point(p.origin.x + i * dx, p.origin.y + i * dy);
        OffsetIsDelta(p.origin, p.dir, i);
        assert q == Cell(p, i);
        if q in data {
          if data[q] != p.word[i] || ParallelConflict(data, q, p.dir) {
            assert !Fits(data, p, i);
            return false;
          }
          hasIntersection := true;
        } else {
          var conflict := PerpendicularConflictAt(q, p.dir);
          if conflict {
            assert !Fits(data, p, i);
            return false;
          }
        }
        i := i + 1;
      }
      if gridNotEmpty && !hasIntersection {
        return false;
      }
      return true;
    }

    /** PlaceWord: on an accepted placement, writes letter i at
        origin + i·delta; on a rejected one, changes nothing. The placement
        list is not touched. */
    method PlaceWord(p: Placement) returns (ok: bool)
      modifies this`data
      ensures ok == Placeable(old(data), p)
      ensures ok ==> data == Place(old(data), p)
      ensures !ok ==> data == old(data)
    {
      ok := CanPlace(p);
      if !ok {
        return;
      }
      var (dx, dy) := DirDelta(p.dir);
      var i := 0;
      while i < |p.word|
        invariant 0 <= i <= |p.word|
        invariant data == Stamp(old(data), p, p.word, i)
      {
        var q := Point(p.origin.x + i * dx, p.origin.y + i * dy);
        StampNext(old(data), p, p.word, i, q);
        data := data[q := p.word[i]];
        i := i + 1;
      }
    }

    /** RemoveWord: writes Blank on every point of the placement. */
    method RemoveWord(p: Placement)
      modifies this`data
      ensures data == Erase(old(data), p)
    {
      var (dx, dy) := DirDelta(p.dir);
      var i := 0;
      while i < |p.word|
        invariant 0 <= i <= |p.word|
        invariant data == Stamp(old(data), p, Blanks(|p.word|), i)
      {
        var q := Point(p.origin.x + i * dx, p.origin.y + i * dy);
        StampNext(old(data), p, Blanks(|p.word|), i, q);
        data := data[q := Blank];
        i := i + 1;
      }
    }

    /** positionScore */
    method PositionScore(p: Placement) returns (s: int)
      ensures s == ScoreOf(data, p)
    {
      var total := 0;
      var (dx, dy) := DirDelta(p.dir);
      var i := 0;
      while i < |p.word|
        invariant 0 <= i <= |p.word|
        invariant total == 10 * Hits(data, p, i)
      {
        OffsetIsDelta(p.origin, p.dir, i);
        if Has(p.origin.x + i * dx, p.origin.y + i * dy) {
          total := total + 10;
        }
        i := i + 1;
      }
      var cx, cy := Center();
      s := total - (Abs(p.origin.x - cx) + Abs(p.origin.y - cy));
    }

    /** The occupied points, each once, in the order of a map iteration. */
    method KeyList() returns (keys: seq<Point>)
      ensures forall k :: k in keys <==> k in data
      ensures NoDup(keys)
    {
      keys := [];
      var rest := data.Keys;
      while rest != {}
        invariant rest <= data.Keys
        invariant forall k :: k in keys <==> k in data && k !in rest
        invariant NoDup(keys)
        decreases |rest|
      {
        var q :| q in rest;
        keys := keys + [q];
        rest := rest - {q};
      }
    }

    /** The placements of `word` that canPlace accepts among those tried on
        the points of `keys`, in the order they are tried. */
    method Accepted(word: string, keys: seq<Point>) returns (placements: seq<Placement>)
      ensures forall p :: p in placements <==> Placeable(data, p) && Candidate(word, keys, p)
    {
      placements := [];
      var j := 0;
      while j < |keys|
        invariant 0 <= j <= |keys|
        invariant forall p :: p in placements <==> Placeable(data, p) && Candidate(word, keys[..j], p)
      {
        var k := keys[j];
        var i := 0;
        while i < |word|
          invariant 0 <= i <= |word|
          invariant forall p :: p in placements <==>
            Placeable(data, p) && (Candidate(word, keys[..j], p) || FromKeyBelow(word, k, i, p))
        {
          var across := Placement(word, Point(k.x - i, k.y), Horiz);
          var okAcross := CanPlace(across);
          if okAcross {
            placements := placements + [across];
          }
          var down := Placement(word, Point(k.x, k.y - i), Vert);
          var okDown := CanPlace(down);
          if okDown {
            placements := placements + [down];
          }
          i := i + 1;
        }
        assert keys[..j + 1][..j] == keys[..j];
        j := j + 1;
      }
      assert keys[..|keys|] == keys;
    }

    /** The placements paired with their positionScore. */
    method Scored(placements: seq<Placement>) returns (scored: seq<(Placement, int)>)
      ensures |scored| == |placements|
      ensures forall t :: 0 <= t < |placements| ==> scored[t] == (placements[t], ScoreOf(data, placements[t]))
    {
      scored := [];
      var t := 0;
      while t < |placements|
        invariant 0 <= t <= |placements| && |scored| == t
        invariant forall u :: 0 <= u < t ==> scored[u] == (placements[u], ScoreOf(data, placements[u]))
      {
        var s := PositionScore(placements[t]);
        scored := scored + [(placements[t], s)];
        t := t + 1;
      }
    }

    /** The candidate loop of PositionsList: the occupied points sorted by
        x then y, and on each of them both directions for every letter;
        what remains are exactly the placements of the word canPlace
        accepts. A placement that crosses several occupied points is tried,
        and kept, once for each of them, so the list may repeat it. */
    method Candidates(word: string) returns (placements: seq<Placement>)
      requires |data| > 0
      ensures forall p :: p in placements <==> p.word == word && Placeable(data, p)
    {
      var keys := KeyList();
      var sortedKeys := Sort(keys, PointBefore);
      forall k ensures k in sortedKeys <==> k in data {
        assert k in sortedKeys <==> k in multiset(keys);
      }
      placements := Accepted(word, sortedKeys);
      forall p ensures p in placements <==> p.word == word && Placeable(data, p) {
        CandidatesComplete(data, word, sortedKeys, p);
      }
    }

    /** The final sort of PositionsList: the same placements, highest
        positionScore first. */
    method ByPositionScore(placements: seq<Placement>) returns (r: seq<Placement>)
      ensures multiset(r) == multiset(placements)
      ensures forall i, j :: 0 <= i < j < |r| ==> ScoreOf(data, r[i]) >= ScoreOf(data, r[j])
    {
      var scored := Scored(placements);
      assert StrictOrderOn(scored, HigherScore);
      var sorted := Sort(scored, HigherScore);
      r := MapSeq(Untag, sorted);
      MapSeqAt(Untag, scored);
      assert MapSeq(Untag, scored) == placements;
      MapPermutation(Untag, scored, sorted);
      MapSeqAt(Untag, sorted);
      forall i | 0 <= i < |sorted| ensures sorted[i].1 == ScoreOf(data, r[i]) {
        assert sorted[i] in multiset(scored);
      }
    }

    /** PositionsList: on an empty grid, the word across at (0, 0) alone;
        otherwise exactly the placements of the word that canPlace accepts
        (each crossing an occupied point, and listed once per letter it
        crosses), highest positionScore first. */
    method PositionsList(word: string) returns (r: seq<Placement>)
      ensures |data| == 0 ==> r == [Placement(word, Point(0, 0), Horiz)]
      ensures |data| > 0 ==> forall p :: p in r <==> p.word == word && Placeable(data, p)
      ensures |data| > 0 ==> forall p :: p in r ==> Crosses(data, p)
      ensures forall i, j :: 0 <= i < j < |r| ==> ScoreOf(data, r[i]) >= ScoreOf(data, r[j])
    {
      if |data| == 0 {
        return [Placement(word, Point(0, 0), Horiz)];
      }
      var placements := Candidates(word);
      r := ByPositionScore(placements);
      forall p ensures p in r <==> p in placements {
        assert p in r <==> p in multiset(r);
      }
    }

    /** Normalize: on an empty grid, a copy; otherwise a new grid with every
        cell and every placement moved by (-minX, -minY). */
    method Normalize() returns (r: Grid)
      ensures fresh(r)
      ensures r.data == NormalizeCells(data) && r.words == NormalizeWords(data, words)
      ensures r.score == if |data| == 0 then score else 0.0
    {
      if |data| == 0 {
        r := Copy();
        NormalizeEmpty(data, words);
        return;
      }
      var b := Bounds();
      var cells := RebaseCells(data, b.minX, b.minY);
      var moved := RebaseList(words, b.minX, b.minY);
      r := new Grid();
      r.data := cells;
      r.words := moved;
    }

    /** The sorted words of the placement list joined by ',' after '#',
        or nothing when there are none. */
    method WordPart(ws: seq<Placement>) returns (s: string)
      ensures s == WordList(ws)
    {
      if |ws| == 0 {
        return "";
      }
      var names: seq<string> := [];
      var i := 0;
      while i < |ws|
        invariant 0 <= i <= |ws| && |names| == i
        invariant forall j :: 0 <= j < i ==> names[j] == ws[j].word
      {
        names := names + [ws[i].word];
        i := i + 1;
      }
      assert names == WordsOf(ws);
      names := Sort(names, LexLess);
      s := "#" + Join(names, ",");
    }

    /** Hash: "" on an empty grid; otherwise the rows 0 .. maxY of the
        normalised grid, each of maxX+1 letters or '.' and a '|', then the
        word part of its placements. */
    method Hash() returns (h: string)
      ensures h == HashOf(data, words)
    {
      if |data| == 0 {
        return "";
      }
      var norm := Normalize();
      var b := norm.Bounds();
      HashRows(data);
      var sb := RowsText(norm.data, b.maxX, b.maxY);
      var tail := WordPart(norm.words);
      h := sb + tail;
    }

    /** Evaluate: stores and returns the metric's score of the grid. */
    method Evaluate(metric: Cells -> real) returns (s: real)
      modifies this`score
      ensures score == metric(data) && s == score
    {
      score := metric(data);
      s := score;
    }

    /** Render: the calls made on the renderer, row by row over the box,
        each row closed by a newline at column maxX+1, then Finish. */
    method Render() returns (trace: seq<RenderEvent>)
      ensures trace == RenderTrace(data)
    {
      if |data| == 0 {
        return [Finish];
      }
      var b := Bounds();
      trace := [];
      var y := b.minY;
      while y <= b.maxY
        invariant b.minY <= y <= b.maxY + 1
        invariant trace == RenderRows(data, b, y - 1)
      {
        var x := b.minX;
        while x <= b.maxX
          invariant b.minX <= x <= b.maxX + 1
          invariant trace == RenderRows(data, b, y - 1) + RenderRow(data, y, b.minX, x - 1)
        {
          var ch := if Point(x, y) in data then data[Point(x, y)] else Blank;
          trace := trace + [DrawCell(x, y, ch)];
          x := x + 1;
        }
        trace := trace + [DrawCell(b.maxX + 1, y, '\n')];
        y := y + 1;
      }
      trace := trace + [Finish];
    }
  }

  /** A copy of a grid is Equal to it. */
  method CopyEquals(g: Grid) returns (eq: bool)
    ensures eq
  {
    var c := g.Copy();
    eq := c.Equals(g);
  }
}
