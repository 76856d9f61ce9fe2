/** The squarified treemap of fs_ui/src/components/TreemapView.tsx, over exact reals. */
module Treemap {
  import opened Text

  /** The part of an entry that the layout looks at. */
  datatype Entry = Entry(path: string, isDirectory: bool, sizeBytes: int, aggregateBytes: Option<int>)

  datatype Sized = Sized(entry: Entry, size: int, area: real)

  datatype Rect = Rect(x: real, y: real, w: real, h: real)

  datatype Tile = Tile(entry: Entry, size: int, at: Rect)

  /** A division by zero in the source is the infinite ratio. */
  datatype Ratio = Infinite | Finite(value: real)

  predicate Exceeds(a: Ratio, b: Ratio) {
    match b
    case Infinite => false
    case Finite(v) => a.Infinite? || a.value > v
  }

  function MaxReal(a: real, b: real): real {
    if a >= b then a else b
  }

  function Sum(row: seq<Sized>): real {
    if row == [] then 0.0 else row[0].area + Sum(row[1..])
  }

  function Largest(row: seq<Sized>): real
    requires row != []
  {
    if |row| == 1 then row[0].area else MaxReal(row[0].area, Largest(row[1..]))
  }

  function Smallest(row: seq<Sized>): real
    requires row != []
  {
    if |row| == 1 then row[0].area
    else if row[0].area <= Smallest(row[1..]) then row[0].area
    else Smallest(row[1..])
  }

  function Times(a: real, b: real): real {
    a * b
  }

  lemma TimesPositive(a: real, b: real)
    requires a > 0.0 && b > 0.0
    ensures Times(a, b) > 0.0
  {}

  lemma TimesNonzero(a: real, b: real)
    requires a != 0.0 && b != 0.0
    ensures Times(a, b) != 0.0
  {}

  function WorstRatio(row: seq<Sized>, side: real): Ratio {
    var sum := Sum(row);
    if row == [] || sum <= 0.0 || side <= 0.0 || Smallest(row) == 0.0 then Infinite
    else
      var s2, sum2 := Times(side, side), Times(sum, sum);
      TimesPositive(side, side);
      TimesPositive(sum, sum);
      TimesNonzero(s2, Smallest(row));
      Finite(MaxReal(Times(s2, Largest(row)) / sum2, sum2 / Times(s2, Smallest(row))))
  }

  predicate Positive(row: seq<Sized>) {
    forall i :: 0 <= i < |row| ==> row[i].area > 0.0
  }

  lemma {:induction false} SumAppend(a: seq<Sized>, b: seq<Sized>)
    ensures Sum(a + b) == Sum(a) + Sum(b)
  {
    if a == [] {
      assert a + b == b;
    } else {
      assert (a + b)[1..] == a[1..] + b;
      SumAppend(a[1..], b);
    }
  }

  lemma {:induction false} SumPositive(row: seq<Sized>)
    requires Positive(row)
    ensures Sum(row) >= 0.0
    ensures row != [] ==> Sum(row) > 0.0
  {
    if row != [] {
      SumPositive(row[1..]);
    }
  }

  predicate Worsens(queue: seq<Sized>, side: real, j: nat)
    requires j < |queue|
  {
    Exceeds(WorstRatio(queue[..j + 1], side), WorstRatio(queue[..j], side))
  }

  /** Where the greedy row ends: it keeps growing while the next item does not make the worst
      ratio worse. */
  function RowLength(queue: seq<Sized>, side: real, i: nat): (n: nat)
    requires 1 <= i <= |queue|
    ensures i <= n <= |queue|
    decreases |queue| - i
  {
    if i < |queue| && !Worsens(queue, side, i)
    then RowLength(queue, side, i + 1)
    else i
  }

  function Side(r: Rect): real {
    if r.w <= r.h then r.w else r.h
  }

  /** A row is a stack of cells of one thickness, down the left edge when `down`, along the
      top edge otherwise. `along` is the coordinate the stack advances in. */
  function Cell(down: bool, along: real, across: real, length: real, thickness: real): Rect {
    if down then Rect(across, along, thickness, length) else Rect(along, across, length, thickness)
  }

  function Stack(down: bool, row: seq<Sized>, along: real, across: real, thickness: real): (ts: seq<Tile>)
    requires thickness > 0.0
    ensures |ts| == |row|
  {
    if row == [] then []
    else
      var length := row[0].area / thickness;
      [Tile(row[0].entry, row[0].size, Cell(down, along, across, length, thickness))]
      + Stack(down, row[1..], along + length, across, thickness)
  }

  function Thickness(row: seq<Sized>, r: Rect): (t: real)
    requires Side(r) > 0.0
    ensures Times(t, Side(r)) == Sum(row)
  {
    Sum(row) / Side(r)
  }

  lemma ThicknessPositive(row: seq<Sized>, r: Rect)
    requires Positive(row) && row != [] && Side(r) > 0.0
    ensures Thickness(row, r) > 0.0
  {
    SumPositive(row);
    QuotientPositive(Sum(row), Side(r));
  }

  lemma QuotientPositive(a: real, b: real)
    requires a > 0.0 && b > 0.0
    ensures a / b > 0.0
    ensures (a / b) * b == a
  {}

  function Strip(row: seq<Sized>, r: Rect): (ts: seq<Tile>)
    requires Positive(row) && row != [] && Side(r) > 0.0
    ensures |ts| == |row|
  {
    ThicknessPositive(row, r);
    var t := Thickness(row, r);
    if r.w >= r.h then Stack(true, row, r.y, r.x, t) else Stack(false, row, r.x, r.y, t)
  }

  function Rest(row: seq<Sized>, r: Rect): Rect
    requires Side(r) > 0.0
  {
    var t := Thickness(row, r);
    if r.w >= r.h then Rect(r.x + t, r.y, r.w - t, r.h) else Rect(r.x, r.y + t, r.w, r.h - t)
  }

  function Layout(queue: seq<Sized>, r: Rect): (ts: seq<Tile>)
    requires Positive(queue)
    ensures |ts| <= |queue|
    decreases |queue|
  {
    if queue == [] || r.w <= 0.01 || r.h <= 0.01 then []
    else
      var n := RowLength(queue, Side(r), 1);
      Strip(queue[..n], r) + Layout(queue[n..], Rest(queue[..n], r))
  }

  lemma LayoutStep(before: seq<Tile>, queue: seq<Sized>, r: Rect, n: nat)
    requires Positive(queue) && queue != [] && r.w > 0.01 && r.h > 0.01
    requires n == RowLength(queue, Side(r), 1)
    ensures before + Layout(queue, r)
         == (before + Strip(queue[..n], r)) + Layout(queue[n..], Rest(queue[..n], r))
  {
    Assoc(before, Strip(queue[..n], r), Layout(queue[n..], Rest(queue[..n], r)));
  }

  lemma Assoc(a: seq<Tile>, b: seq<Tile>, c: seq<Tile>)
    ensures (a + b) + c == a + (b + c)
  {}

  /** The row loop for one orientation. */
  method PushRow(down: bool, row: seq<Sized>, along: real, across: real, thickness: real, before: seq<Tile>)
    returns (tiles: seq<Tile>)
    requires thickness > 0.0
    ensures tiles == before + Stack(down, row, along, across, thickness)
  {
    tiles := before;
    var o := along;
    for k := 0 to |row|
      invariant tiles + Stack(down, row[k..], o, across, thickness)
             == before + Stack(down, row, along, across, thickness)
    {
      var length := row[k].area / thickness;
      var tile := Tile(row[k].entry, row[k].size, Cell(down, o, across, length, thickness));
      assert row[k..][1..] == row[k + 1..];
      Assoc(tiles, [tile], Stack(down, row[k + 1..], o + length, across, thickness));
      tiles := tiles + [tile];
      o := o + length;
    }
  }

  /** The inner loop: the row grows while the next item does not make it worse. */
  method GrowRow(queue: seq<Sized>, side: real) returns (row: seq<Sized>, i: nat)
    requires queue != []
    ensures i == RowLength(queue, side, 1) && row == queue[..i]
  {
    row := [queue[0]];
    i := 1;
    while i < |queue|
      invariant 1 <= i <= |queue|
      invariant row == queue[..i]
      invariant RowLength(queue, side, i) == RowLength(queue, side, 1)
    {
      var candidate := row + [queue[i]];
      assert candidate == queue[..i + 1];
      if Exceeds(WorstRatio(candidate, side), WorstRatio(row, side)) {
        break;
      }
      row := candidate;
      i := i + 1;
    }
  }

  /** The two branches: a stack down the left edge or along the top edge, and what is left. */
  method PlaceRow(row: seq<Sized>, x0: real, y0: real, w0: real, h0: real, before: seq<Tile>)
    returns (x: real, y: real, w: real, h: real, tiles: seq<Tile>)
    requires Positive(row) && row != [] && w0 > 0.0 && h0 > 0.0
    ensures tiles == before + Strip(row, Rect(x0, y0, w0, h0))
    ensures Rect(x, y, w, h) == Rest(row, Rect(x0, y0, w0, h0))
  {
    ThicknessPositive(row, Rect(x0, y0, w0, h0));
    x, y, w, h := x0, y0, w0, h0;
    var rowArea := Sum(row);
    if w >= h {
      var rowW := rowArea / h;
      tiles := PushRow(true, row, y, x, rowW, before);
      x, w := x + rowW, w - rowW;
    } else {
      var rowH := rowArea / w;
      tiles := PushRow(false, row, x, y, rowH, before);
      y, h := y + rowH, h - rowH;
    }
  }

  method Squarify(items: seq<Sized>, x0: real, y0: real, w0: real, h0: real) returns (tiles: seq<Tile>)
    requires Positive(items)
    ensures tiles == Layout(items, Rect(x0, y0, w0, h0))
  {
    tiles := [];
    var queue := items;
    var x, y, w, h := x0, y0, w0, h0;
    while |queue| > 0 && w > 0.01 && h > 0.01
      invariant Positive(queue)
      invariant tiles + Layout(queue, Rect(x, y, w, h)) == Layout(items, Rect(x0, y0, w0, h0))
      decreases |queue|
    {
      var row, i := GrowRow(queue, if w <= h then w else h);
      LayoutStep(tiles, queue, Rect(x, y, w, h), i);
      x, y, w, h, tiles := PlaceRow(row, x, y, w, h, tiles);
      queue := queue[i..];
    }
  }
}
