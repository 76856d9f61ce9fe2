/** What the layout promises: exact areas, a tiling of the rectangle, and the greedy criterion. */
module TreemapTiling {
  import opened Treemap

  // ----- division, one fact at a time ------------------------------------------------

  lemma SumOfQuotients(a: real, b: real, t: real)
    requires t > 0.0
    ensures (a + b) / t == a / t + b / t
  {}

  lemma QuotientUnique(q: real, a: real, b: real)
    requires b != 0.0 && Times(q, b) == a
    ensures q == a / b
  {}

  // ----- points and tiles --------------------------------------------------------------

  /** Half-open, so that a shared edge belongs to one of the two tiles. */
  predicate Inside(r: Rect, px: real, py: real) {
    r.x <= px < r.x + r.w && r.y <= py < r.y + r.h
  }

  predicate Within(inner: Rect, outer: Rect) {
    outer.x <= inner.x && inner.x + inner.w <= outer.x + outer.w
    && outer.y <= inner.y && inner.y + inner.h <= outer.y + outer.h
  }

  /** How many tiles a point lies in. */
  function Hits(ts: seq<Tile>, px: real, py: real): nat {
    if ts == [] then 0
    else (if Inside(ts[0].at, px, py) then 1 else 0) + Hits(ts[1..], px, py)
  }

  lemma {:induction false} HitsAppend(a: seq<Tile>, b: seq<Tile>, px: real, py: real)
    ensures Hits(a + b, px, py) == Hits(a, px, py) + Hits(b, px, py)
  {
    if a == [] {
      assert a + b == b;
    } else {
      assert (a + b)[1..] == a[1..] + b;
      HitsAppend(a[1..], b, px, py);
    }
  }

  lemma {:induction false} HitsPositive(ts: seq<Tile>, i: nat, px: real, py: real)
    requires i < |ts| && Inside(ts[i].at, px, py)
    ensures Hits(ts, px, py) >= 1
  {
    if i > 0 {
      HitsPositive(ts[1..], i - 1, px, py);
    }
  }

  lemma {:induction false} HitsTwice(ts: seq<Tile>, i: nat, j: nat, px: real, py: real)
    requires i < j < |ts| && Inside(ts[i].at, px, py) && Inside(ts[j].at, px, py)
    ensures Hits(ts, px, py) >= 2
  {
    if i > 0 {
      HitsTwice(ts[1..], i - 1, j - 1, px, py);
    } else {
      HitsPositive(ts[1..], j - 1, px, py);
    }
  }

  // ----- one row ------------------------------------------------------------------------

  /** The cells of a stack partition its length. */
  lemma {:induction false} StackHits(down: bool, row: seq<Sized>, along: real, across: real, t: real,
                                     px: real, py: real)
    requires t > 0.0 && Positive(row)
    ensures Hits(Stack(down, row, along, across, t), px, py)
         == if Inside(Cell(down, along, across, Sum(row) / t, t), px, py) then 1 else 0
  {
    if row != [] {
      var length := row[0].area / t;
      QuotientPositive(row[0].area, t);
      SumPositive(row[1..]);
      if row[1..] != [] {
        QuotientPositive(Sum(row[1..]), t);
      }
      SumOfQuotients(row[0].area, Sum(row[1..]), t);
      StackHits(down, row[1..], along + length, across, t, px, py);
    }
  }

  /** Each cell holds its own item and has its length along the stack. */
  lemma {:induction false} StackShape(down: bool, row: seq<Sized>, along: real, across: real, t: real, i: nat)
    requires t > 0.0 && Positive(row) && i < |row|
    ensures var tile := Stack(down, row, along, across, t)[i];
      && tile.entry == row[i].entry && tile.size == row[i].size
      && tile.at.w == (if down then t else row[i].area / t)
      && tile.at.h == (if down then row[i].area / t else t)
  {
    if i > 0 {
      StackShape(down, row[1..], along + row[0].area / t, across, t, i - 1);
    }
  }

  /** It lies within the stack's length. */
  lemma {:induction false} StackWithin(down: bool, row: seq<Sized>, along: real, across: real, t: real, i: nat)
    requires t > 0.0 && Positive(row) && i < |row|
    ensures Within(Stack(down, row, along, across, t)[i].at, Cell(down, along, across, Sum(row) / t, t))
  {
    var length, rest := row[0].area / t, Sum(row[1..]) / t;
    QuotientPositive(row[0].area, t);
    RestNonnegative(row[1..], t);
    SumOfQuotients(row[0].area, Sum(row[1..]), t);
    if i > 0 {
      StackWithin(down, row[1..], along + length, across, t, i - 1);
      WithinTransitive(Stack(down, row, along, across, t)[i].at, Cell(down, along + length, across, rest, t),
                       Cell(down, along, across, length + rest, t));
    }
  }

  lemma RestNonnegative(row: seq<Sized>, t: real)
    requires t > 0.0 && Positive(row)
    ensures Sum(row) / t >= 0.0
  {
    SumPositive(row);
    if row != [] {
      QuotientPositive(Sum(row), t);
    }
  }

  /** A cell: its item, its exact area, within the stack. */
  lemma {:induction false} StackCell(down: bool, row: seq<Sized>, along: real, across: real, t: real, i: nat)
    requires t > 0.0 && Positive(row) && i < |row|
    ensures var tile := Stack(down, row, along, across, t)[i];
      && tile.entry == row[i].entry && tile.size == row[i].size
      && Times(tile.at.w, tile.at.h) == row[i].area
      && Within(tile.at, Cell(down, along, across, Sum(row) / t, t))
      && tile.at.w == (if down then t else row[i].area / t)
      && tile.at.h == (if down then row[i].area / t else t)
  {
    StackShape(down, row, along, across, t, i);
    StackWithin(down, row, along, across, t, i);
    QuotientPositive(row[i].area, t);
  }

  /** The rectangle a row fills: full height down the left edge, or full width along the top. */
  function Band(row: seq<Sized>, r: Rect): Rect
    requires Side(r) > 0.0
  {
    var t := Thickness(row, r);
    if r.w >= r.h then Rect(r.x, r.y, t, r.h) else Rect(r.x, r.y, r.w, t)
  }

  lemma LengthIsSide(row: seq<Sized>, r: Rect)
    requires Positive(row) && row != [] && Side(r) > 0.0
    ensures Thickness(row, r) > 0.0
    ensures Sum(row) / Thickness(row, r) == Side(r)
  {
    ThicknessPositive(row, r);
    QuotientUnique(Side(r), Sum(row), Thickness(row, r));
  }

  lemma StripHits(row: seq<Sized>, r: Rect, px: real, py: real)
    requires Positive(row) && row != [] && Side(r) > 0.0
    ensures Hits(Strip(row, r), px, py) == if Inside(Band(row, r), px, py) then 1 else 0
  {
    LengthIsSide(row, r);
    if r.w >= r.h {
      StackHits(true, row, r.y, r.x, Thickness(row, r), px, py);
    } else {
      StackHits(false, row, r.x, r.y, Thickness(row, r), px, py);
    }
  }

  lemma StripTile(row: seq<Sized>, r: Rect, i: nat)
    requires Positive(row) && row != [] && Side(r) > 0.0 && i < |row|
    ensures TileOf(Strip(row, r)[i], row[i], Band(row, r))
  {
    LengthIsSide(row, r);
    if r.w >= r.h {
      StackCell(true, row, r.y, r.x, Thickness(row, r), i);
    } else {
      StackCell(false, row, r.x, r.y, Thickness(row, r), i);
    }
  }

  predicate TileOf(tile: Tile, item: Sized, bounds: Rect) {
    tile.entry == item.entry && tile.size == item.size && Times(tile.at.w, tile.at.h) == item.area
    && Within(tile.at, bounds)
  }

  // ----- the whole layout ----------------------------------------------------------------

  predicate Fits(queue: seq<Sized>, r: Rect) {
    Positive(queue) && r.w >= 0.0 && r.h >= 0.0 && Sum(queue) == Times(r.w, r.h)
  }

  lemma CutOff(long: real, side: real, t: real, taken: real, left: real)
    requires side > 0.0 && Times(t, side) == taken && left >= 0.0
    requires Times(long, side) == taken + left
    ensures Times(long - t, side) == left && Times(side, long - t) == left
    ensures t <= long
  {
    if t > long {
      TimesPositive(t - long, side);
      assert false;
    }
  }

  /** Cutting a row off leaves a rectangle whose area is what the remaining items add up to. */
  lemma RestFits(queue: seq<Sized>, r: Rect, n: nat)
    requires Fits(queue, r) && Side(r) > 0.0 && 1 <= n <= |queue|
    ensures Positive(queue[..n]) && Fits(queue[n..], Rest(queue[..n], r))
    ensures 0.0 < Thickness(queue[..n], r) <= if r.w >= r.h then r.w else r.h
    ensures Within(Band(queue[..n], r), r) && Within(Rest(queue[..n], r), r)
  {
    var row, rest := queue[..n], queue[n..];
    assert row + rest == queue;
    SumAppend(row, rest);
    SumPositive(rest);
    ThicknessPositive(row, r);
    var t := Thickness(row, r);
    if r.w >= r.h {
      CutOff(r.w, r.h, t, Sum(row), Sum(rest));
    } else {
      CutOff(r.h, r.w, t, Sum(row), Sum(rest));
    }
  }

  lemma WithinTransitive(a: Rect, b: Rect, c: Rect)
    requires Within(a, b) && Within(b, c)
    ensures Within(a, c)
  {}

  /** Tiles come in the order of the items, each with exactly its item's area, all inside. */
  lemma {:induction false} TilesInOrder(queue: seq<Sized>, r: Rect, i: nat)
    requires Fits(queue, r) && i < |Layout(queue, r)|
    ensures TileOf(Layout(queue, r)[i], queue[i], r)
    decreases |queue|
  {
    var n := RowLength(queue, Side(r), 1);
    var row := queue[..n];
    RestFits(queue, r, n);
    if i < n {
      StripTile(row, r, i);
      WithinTransitive(Strip(row, r)[i].at, Band(row, r), r);
    } else {
      TilesInOrder(queue[n..], Rest(row, r), i - n);
      WithinTransitive(Layout(queue[n..], Rest(row, r))[i - n].at, Rest(row, r), r);
    }
  }

  /** A point outside the rectangle is in no tile, and no point is in two: when every item is
      placed each point of the rectangle is in exactly one tile. */
  lemma {:induction false} TilesPartition(queue: seq<Sized>, r: Rect, px: real, py: real)
    requires Fits(queue, r)
    ensures var hits := Hits(Layout(queue, r), px, py);
      && hits <= (if Inside(r, px, py) then 1 else 0)
      && (|Layout(queue, r)| == |queue| ==> hits == if Inside(r, px, py) then 1 else 0)
    decreases |queue|
  {
    if queue == [] {
      EmptyRect(r, px, py);
    } else if r.w > 0.01 && r.h > 0.01 {
      var n := RowLength(queue, Side(r), 1);
      var row, rest := queue[..n], Rest(queue[..n], r);
      RestFits(queue, r, n);
      StripHits(row, r, px, py);
      HitsAppend(Strip(row, r), Layout(queue[n..], rest), px, py);
      TilesPartition(queue[n..], rest, px, py);
    }
  }

  lemma EmptyRect(r: Rect, px: real, py: real)
    requires r.w >= 0.0 && r.h >= 0.0 && Times(r.w, r.h) == 0.0
    ensures !Inside(r, px, py)
  {
    if Inside(r, px, py) {
      TimesPositive(r.w, r.h);
      assert false;
    }
  }

  lemma TilesDisjoint(queue: seq<Sized>, r: Rect, px: real, py: real)
    requires Fits(queue, r)
    ensures var ts := Layout(queue, r);
      forall i, j | 0 <= i < j < |ts| :: !(Inside(ts[i].at, px, py) && Inside(ts[j].at, px, py))
  {
    var ts := Layout(queue, r);
    TilesPartition(queue, r, px, py);
    forall i, j | 0 <= i < j < |ts|
      ensures !(Inside(ts[i].at, px, py) && Inside(ts[j].at, px, py))
    {
      if Inside(ts[i].at, px, py) && Inside(ts[j].at, px, py) {
        HitsTwice(ts, i, j, px, py);
        assert false;
      }
    }
  }

  lemma PositiveArea(r: Rect)
    requires r.w >= 0.0 && r.h >= 0.0 && Times(r.w, r.h) > 0.0
    ensures r.w > 0.0 && r.h > 0.0
  {}

  /** If the guard stops the loop early, part of the rectangle is left bare. */
  lemma {:induction false} DroppedItemLeavesAGap(queue: seq<Sized>, r: Rect) returns (px: real, py: real)
    requires Fits(queue, r) && |Layout(queue, r)| < |queue|
    ensures Inside(r, px, py) && Hits(Layout(queue, r), px, py) == 0
    decreases |queue|
  {
    SumPositive(queue);
    PositiveArea(r);
    px, py := r.x, r.y;
    if r.w > 0.01 && r.h > 0.01 {
      var n := RowLength(queue, Side(r), 1);
      var row, rest := queue[..n], Rest(queue[..n], r);
      RestFits(queue, r, n);
      px, py := DroppedItemLeavesAGap(queue[n..], rest);
      StripHits(row, r, px, py);
      HitsAppend(Strip(row, r), Layout(queue[n..], rest), px, py);
    }
  }

  // ----- the greedy criterion ---------------------------------------------------------------

  function Aspect(r: Rect): (a: real)
    requires r.w > 0.0 && r.h > 0.0
    ensures a >= r.w / r.h && a >= r.h / r.w && (a == r.w / r.h || a == r.h / r.w)
  {
    MaxReal(r.w / r.h, r.h / r.w)
  }

  predicate IsWorst(ts: seq<Tile>, v: real) {
    && (forall i :: 0 <= i < |ts| ==> ts[i].at.w > 0.0 && ts[i].at.h > 0.0 && Aspect(ts[i].at) <= v)
    && exists i :: 0 <= i < |ts| && Aspect(ts[i].at) == v
  }

  lemma CellRatios(a: real, sum: real, side: real)
    requires a > 0.0 && sum > 0.0 && side > 0.0
    ensures var t := sum / side; var s2, sum2 := Times(side, side), Times(sum, sum);
      t > 0.0 && a / t > 0.0 && s2 > 0.0 && sum2 > 0.0 && Times(s2, a) > 0.0
      && (a / t) / t == Times(s2, a) / sum2
      && t / (a / t) == sum2 / Times(s2, a)
  {
    var t := sum / side;
    var s2, sum2 := Times(side, side), Times(sum, sum);
    QuotientPositive(sum, side);
    QuotientPositive(a, t);
    TimesPositive(side, side);
    TimesPositive(sum, sum);
    TimesPositive(s2, a);
    var p, q := (a / t) / t, t / (a / t);
    QuotientPositive(a / t, t);
    QuotientPositive(t, a / t);
    Cross(p, t, side, a, sum);
    QuotientUnique(p, Times(s2, a), sum2);
    Cross2(q, t, side, a / t, a, sum);
    QuotientUnique(q, sum2, Times(s2, a));
  }

  lemma Cross(p: real, t: real, side: real, a: real, sum: real)
    requires t * side == sum && (p * t) * t == a
    ensures p * Times(sum, sum) == Times(Times(side, side), a)
  {
    calc {
      p * Times(sum, sum);
      p * ((t * side) * (t * side));
      (side * side) * ((p * t) * t);
    }
  }

  lemma Cross2(q: real, t: real, side: real, b: real, a: real, sum: real)
    requires t * side == sum && b * t == a && q * b == t
    ensures q * Times(Times(side, side), a) == Times(sum, sum)
  {
    calc {
      q * Times(Times(side, side), a);
      q * ((side * side) * (b * t));
      ((q * b) * side) * (t * side);
    }
  }

  lemma {:induction false} LargestIsMax(row: seq<Sized>, i: nat)
    requires i < |row|
    ensures Smallest(row) <= row[i].area <= Largest(row)
  {
    if |row| > 1 && i > 0 {
      LargestIsMax(row[1..], i - 1);
    }
  }

  lemma {:induction false} LargestOccurs(row: seq<Sized>) returns (lo: nat, hi: nat)
    requires row != []
    ensures lo < |row| && row[lo].area == Smallest(row)
    ensures hi < |row| && row[hi].area == Largest(row)
  {
    lo, hi := 0, 0;
    if |row| > 1 {
      var l, h := LargestOccurs(row[1..]);
      if row[0].area > Smallest(row[1..]) { lo := l + 1; }
      if row[0].area < Largest(row[1..]) { hi := h + 1; }
    }
  }

  lemma TimesMonotone(a: real, b: real, c: real)
    requires a >= 0.0 && b <= c
    ensures Times(a, b) <= Times(a, c)
  {}

  lemma QuotientOrder(a: real, b: real, c: real, d: real)
    requires c > 0.0 && a <= b
    ensures a / c <= b / c
    ensures d > 0.0 && 0.0 < a ==> d / b <= d / a
  {
    if d > 0.0 && 0.0 < a {
      Antitone(d, a, b);
    }
  }

  lemma Antitone(d: real, a: real, b: real)
    requires d > 0.0 && 0.0 < a <= b
    ensures d / b <= d / a
  {
    var p, q := d / b, d / a;
    assert p * b == d && q * a == d;
  }

  /** The two ratios of a tile with area `a`, as the source's formula has them. */
  function Wide(a: real, s2: real, sum2: real): real
    requires sum2 != 0.0
  {
    Times(s2, a) / sum2
  }

  function Tall(a: real, s2: real, sum2: real): real
    requires Times(s2, a) != 0.0
  {
    sum2 / Times(s2, a)
  }

  lemma RatiosOrdered(a: real, b: real, s2: real, sum2: real)
    requires s2 > 0.0 && sum2 > 0.0 && 0.0 < a <= b
    ensures Times(s2, a) > 0.0 && Times(s2, b) > 0.0
    ensures Wide(a, s2, sum2) <= Wide(b, s2, sum2)
    ensures Tall(b, s2, sum2) <= Tall(a, s2, sum2)
  {
    TimesPositive(s2, a);
    TimesPositive(s2, b);
    TimesMonotone(s2, a, b);
    QuotientOrder(Times(s2, a), Times(s2, b), sum2, sum2);
  }

  /** A strip's tile has the two ratios of its area. */
  lemma TileAspect(row: seq<Sized>, r: Rect, i: nat)
    requires Positive(row) && row != [] && Side(r) > 0.0 && i < |row|
    ensures var at := Strip(row, r)[i].at;
      var s2, sum2 := Times(Side(r), Side(r)), Times(Sum(row), Sum(row));
      at.w > 0.0 && at.h > 0.0 && s2 > 0.0 && sum2 > 0.0 && Times(s2, row[i].area) > 0.0
      && Aspect(at) == MaxReal(Wide(row[i].area, s2, sum2), Tall(row[i].area, s2, sum2))
  {
    SumPositive(row);
    CellRatios(row[i].area, Sum(row), Side(r));
    LengthIsSide(row, r);
    if r.w >= r.h {
      StackCell(true, row, r.y, r.x, Thickness(row, r), i);
    } else {
      StackCell(false, row, r.x, r.y, Thickness(row, r), i);
    }
  }

  /** The number the row loop compares is the worst aspect ratio among the tiles it would emit. */
  lemma WorstRatioIsWorstTile(row: seq<Sized>, r: Rect)
    requires Positive(row) && row != [] && Side(r) > 0.0
    ensures WorstRatio(row, Side(r)).Finite?
    ensures IsWorst(Strip(row, r), WorstRatio(row, Side(r)).value)
  {
    SumPositive(row);
    var lo, hi := LargestOccurs(row);
    var ts, v := Strip(row, r), WorstRatio(row, Side(r)).value;
    TileAspect(row, r, lo);
    TileAspect(row, r, hi);
    forall i | 0 <= i < |ts|
      ensures ts[i].at.w > 0.0 && ts[i].at.h > 0.0 && Aspect(ts[i].at) <= v
    {
      TileAspect(row, r, i);
      LargestIsMax(row, i);
      RatiosOrdered(Smallest(row), row[i].area, Times(Side(r), Side(r)), Times(Sum(row), Sum(row)));
      RatiosOrdered(row[i].area, Largest(row), Times(Side(r), Side(r)), Times(Sum(row), Sum(row)));
    }
    RatiosOrdered(Smallest(row), Largest(row), Times(Side(r), Side(r)), Times(Sum(row), Sum(row)));
    assert Aspect(ts[lo].at) == v || Aspect(ts[hi].at) == v;
  }

  /** The row stops exactly at the first item that would make it worse. */
  lemma {:induction false} RowStopsAtFirstWorsening(queue: seq<Sized>, side: real, i: nat, n: nat)
    requires 1 <= i <= n <= |queue|
    ensures n == RowLength(queue, side, i)
      <==> (forall j :: i <= j < n ==> !Worsens(queue, side, j)) && (n < |queue| ==> Worsens(queue, side, n))
    decreases |queue| - i
  {
    if i < |queue| && !Worsens(queue, side, i) && i < n {
      RowStopsAtFirstWorsening(queue, side, i + 1, n);
    }
  }

  /** The worst aspect ratio among the tiles of a row of the first `k` items. */
  ghost function Worst(queue: seq<Sized>, r: Rect, k: nat): (v: real)
    requires Positive(queue) && Side(r) > 0.0 && 1 <= k <= |queue|
    ensures IsWorst(Strip(queue[..k], r), v)
  {
    WorstRatioIsWorstTile(queue[..k], r);
    var v :| IsWorst(Strip(queue[..k], r), v);
    v
  }

  /** One item more than `j` makes the worst tile of the row worse. */
  ghost predicate GetsWorse(queue: seq<Sized>, r: Rect, j: nat)
    requires Positive(queue) && Side(r) > 0.0 && 1 <= j < |queue|
  {
    Worst(queue, r, j + 1) > Worst(queue, r, j)
  }

  /** A row of `n` items is greedy: none of them made its tiles worse, and the next one would. */
  ghost predicate Greedy(queue: seq<Sized>, r: Rect, n: nat)
    requires Positive(queue) && Side(r) > 0.0
  {
    && 1 <= n <= |queue|
    && (forall j | 1 <= j < n :: !GetsWorse(queue, r, j))
    && (n < |queue| ==> GetsWorse(queue, r, n))
  }

  lemma WorsensIsWorse(queue: seq<Sized>, r: Rect, j: nat)
    requires Positive(queue) && Side(r) > 0.0 && 1 <= j < |queue|
    ensures Worsens(queue, Side(r), j) <==> GetsWorse(queue, r, j)
  {
    WorstRatioIsWorstTile(queue[..j], r);
    WorstRatioIsWorstTile(queue[..j + 1], r);
  }

  /** The row length that the loop finds is the one greedy length. */
  lemma RowIsGreedy(queue: seq<Sized>, r: Rect, n: nat)
    requires Positive(queue) && queue != [] && Side(r) > 0.0
    ensures n == RowLength(queue, Side(r), 1) <==> Greedy(queue, r, n)
  {
    if 1 <= n <= |queue| {
      RowStopsAtFirstWorsening(queue, Side(r), 1, n);
      forall j | 1 <= j < |queue|
        ensures Worsens(queue, Side(r), j) <==> GetsWorse(queue, r, j)
      {
        WorsensIsWorse(queue, r, j);
      }
    }
  }

  /** Every row of the layout is greedy on what was left for it, and the next rows lay out
      the rest. */
  lemma RowsAreGreedy(queue: seq<Sized>, r: Rect) returns (n: nat)
    requires Positive(queue) && queue != [] && r.w > 0.01 && r.h > 0.01
    ensures Greedy(queue, r, n)
    ensures Layout(queue, r) == Strip(queue[..n], r) + Layout(queue[n..], Rest(queue[..n], r))
  {
    n := RowLength(queue, Side(r), 1);
    RowIsGreedy(queue, r, n);
  }
}
