/** The drawn/hidden split around the layout: sort, threshold, normalise, squarify, list the rest. */
module TreemapView {
  import opened Text
  import opened Treemap
  import opened TreemapTiling

  const MIN_TILE_AREA := 100.0

  function EffectiveSize(e: Entry): int {
    if !e.isDirectory then e.sizeBytes
    else match e.aggregateBytes
      case None => 0
      case Some(bytes) => bytes
  }

  function Clamped(width: real): real {
    var half := MaxReal(width * 0.5, 320.0);
    if half <= 680.0 then half else 680.0
  }

  /** Landscape height: half the width within its limits, rounded to the nearest pixel as
      JavaScript rounds, halves up. */
  function Height(width: real): (h: real)
    ensures 320.0 <= h <= 680.0 && h == h.Floor as real
    ensures width <= 640.0 ==> h == 320.0
    ensures 640.0 <= width <= 1360.0 ==> h - 0.5 <= width / 2.0 < h + 0.5
    ensures width >= 1360.0 ==> h == 680.0
  {
    (Clamped(width) + 0.5).Floor as real
  }

  /** A stable sort, largest first: an earlier entry goes before a later one of the same size. */
  function InsertBySize(e: Entry, sized: seq<Entry>): seq<Entry> {
    if sized == [] || EffectiveSize(sized[0]) <= EffectiveSize(e) then [e] + sized
    else [sized[0]] + InsertBySize(e, sized[1..])
  }

  function SortBySize(entries: seq<Entry>): seq<Entry> {
    if entries == [] then [] else InsertBySize(entries[0], SortBySize(entries[1..]))
  }

  function TotalSize(sized: seq<Entry>): int {
    if sized == [] then 0 else EffectiveSize(sized[0]) + TotalSize(sized[1..])
  }

  function Filter(keep: Entry -> bool, s: seq<Entry>): (r: seq<Entry>)
    ensures forall e :: e in r <==> e in s && keep(e)
  {
    if s == [] then []
    else if keep(s[0]) then [s[0]] + Filter(keep, s[1..])
    else Filter(keep, s[1..])
  }

  predicate IsDrawn(e: Entry, total: int, area: real) {
    && area > 0.0 && total > 0
    && EffectiveSize(e) > 0 && Times(EffectiveSize(e) as real / total as real, area) >= MIN_TILE_AREA
  }

  function Keeper(total: int, area: real): Entry -> bool {
    e => IsDrawn(e, total, area)
  }

  function Drawn(sized: seq<Entry>, area: real): seq<Entry> {
    Filter(Keeper(TotalSize(sized), area), sized)
  }

  predicate SharesPath(e: Entry, drawn: seq<Entry>) {
    exists d :: d in drawn && d.path == e.path
  }

  function Hider(drawn: seq<Entry>): Entry -> bool {
    e => !SharesPath(e, drawn)
  }

  function Hidden(sized: seq<Entry>, drawn: seq<Entry>): seq<Entry> {
    Filter(Hider(drawn), sized)
  }

  /** Areas normalised over the drawn entries only. */
  function Scaled(drawn: seq<Entry>, drawnTotal: int, area: real): (items: seq<Sized>)
    requires drawnTotal > 0
    ensures |items| == |drawn|
  {
    if drawn == [] then []
    else
      [Sized(drawn[0], EffectiveSize(drawn[0]), Times(EffectiveSize(drawn[0]) as real / drawnTotal as real, area))]
      + Scaled(drawn[1..], drawnTotal, area)
  }

  function Pane(width: real): Rect {
    Rect(0.0, 0.0, width, Height(width))
  }

  function Shown(entries: seq<Entry>, width: real): seq<Entry> {
    Drawn(SortBySize(entries), Times(width, Height(width)))
  }

  function Items(entries: seq<Entry>, width: real): (items: seq<Sized>)
    requires TotalSize(Shown(entries, width)) > 0
    ensures Positive(items)
  {
    var area := Times(width, Height(width));
    DrawnScaled(SortBySize(entries), area);
    Scaled(Shown(entries, width), TotalSize(Shown(entries, width)), area)
  }

  datatype View = View(tiles: seq<Tile>, hidden: seq<Entry>, hiddenBytes: int, grandTotal: int)

  function Arrange(entries: seq<Entry>, width: real): View {
    var sized := SortBySize(entries);
    var drawn := Shown(entries, width);
    var rest := Hidden(sized, drawn);
    var tiles := if TotalSize(drawn) > 0 then Layout(Items(entries, width), Pane(width)) else [];
    View(tiles, rest, TotalSize(rest), TotalSize(sized))
  }

  // ----- sorting -----------------------------------------------------------------------

  predicate Descending(s: seq<Entry>) {
    forall i, j :: 0 <= i < j < |s| ==> EffectiveSize(s[i]) >= EffectiveSize(s[j])
  }

  lemma DescendingCons(e: Entry, s: seq<Entry>)
    requires Descending(s) && forall x :: x in s ==> EffectiveSize(e) >= EffectiveSize(x)
    ensures Descending([e] + s)
  {
    var t := [e] + s;
    forall i, j | 0 <= i < j < |t|
      ensures EffectiveSize(t[i]) >= EffectiveSize(t[j])
    {
      assert t[j] == s[j - 1];
      assert i > 0 ==> t[i] == s[i - 1];
    }
  }

  lemma {:induction false} InsertMembers(e: Entry, s: seq<Entry>)
    ensures multiset(InsertBySize(e, s)) == multiset(s) + multiset{e}
  {
    if s != [] {
      InsertMembers(e, s[1..]);
      assert s == [s[0]] + s[1..];
    }
  }

  lemma {:induction false} InsertDescends(e: Entry, s: seq<Entry>)
    requires Descending(s)
    ensures Descending(InsertBySize(e, s))
  {
    if s == [] {
    } else if EffectiveSize(s[0]) <= EffectiveSize(e) {
      DescendingCons(e, s);
    } else {
      InsertDescends(e, s[1..]);
      var rest := InsertBySize(e, s[1..]);
      forall x | x in rest
        ensures EffectiveSize(s[0]) >= EffectiveSize(x)
      {
        InsertMembers(e, s[1..]);
        assert x in multiset(rest);
        assert x in s[1..] || x == e;
      }
      DescendingCons(s[0], rest);
    }
  }

  lemma {:induction false} SortDescends(s: seq<Entry>)
    ensures Descending(SortBySize(s)) && multiset(SortBySize(s)) == multiset(s)
  {
    if s != [] {
      SortDescends(s[1..]);
      InsertDescends(s[0], SortBySize(s[1..]));
      InsertMembers(s[0], SortBySize(s[1..]));
      assert s == [s[0]] + s[1..];
    }
  }

  // ----- the drawn items have positive areas that fill the rectangle ---------------------

  lemma {:induction false} ScaledAt(drawn: seq<Entry>, dt: int, area: real, i: nat)
    requires dt > 0 && i < |drawn|
    ensures Scaled(drawn, dt, area)[i]
         == Sized(drawn[i], EffectiveSize(drawn[i]), Times(EffectiveSize(drawn[i]) as real / dt as real, area))
  {
    if i > 0 {
      ScaledAt(drawn[1..], dt, area, i - 1);
    }
  }

  lemma ScaledPositive(drawn: seq<Entry>, dt: int, area: real)
    requires dt > 0 && area > 0.0
    requires forall e :: e in drawn ==> EffectiveSize(e) > 0
    ensures Positive(Scaled(drawn, dt, area))
  {
    forall i | 0 <= i < |drawn|
      ensures Scaled(drawn, dt, area)[i].area > 0.0
    {
      ScaledAt(drawn, dt, area, i);
      QuotientPositive(EffectiveSize(drawn[i]) as real, dt as real);
      TimesPositive(EffectiveSize(drawn[i]) as real / dt as real, area);
    }
  }

  lemma DrawnScaled(sized: seq<Entry>, area: real)
    ensures var drawn := Drawn(sized, area);
      TotalSize(drawn) > 0 ==> Positive(Scaled(drawn, TotalSize(drawn), area))
  {
    var drawn := Drawn(sized, area);
    if TotalSize(drawn) > 0 {
      assert drawn[0] in drawn;
      ScaledPositive(drawn, TotalSize(drawn), area);
    }
  }

  lemma TimesAdds(a: real, b: real, c: real)
    ensures Times(a + b, c) == Times(a, c) + Times(b, c)
  {}

  lemma {:induction false} ScaledSum(drawn: seq<Entry>, dt: int, area: real)
    requires dt > 0
    ensures Sum(Scaled(drawn, dt, area)) == Times(TotalSize(drawn) as real / dt as real, area)
  {
    if drawn != [] {
      ScaledSum(drawn[1..], dt, area);
      SumOfQuotients(EffectiveSize(drawn[0]) as real, TotalSize(drawn[1..]) as real, dt as real);
      TimesAdds(EffectiveSize(drawn[0]) as real / dt as real, TotalSize(drawn[1..]) as real / dt as real, area);
    }
  }

  lemma ScaledFills(drawn: seq<Entry>, area: real)
    requires TotalSize(drawn) > 0
    ensures Sum(Scaled(drawn, TotalSize(drawn), area)) == area
  {
    var dt := TotalSize(drawn);
    ScaledSum(drawn, dt, area);
    QuotientUnique(1.0, dt as real, dt as real);
  }

  // ----- the guard never fires ------------------------------------------------------------

  /** Widths only shrink while the height is still the pane's own; heights only shrink once the
      width is below the tallest pane. */
  predicate Reachable(r: Rect) {
    0.0 <= r.w && 0.0 <= r.h <= 680.0 && (320.0 <= r.h || r.w < 680.0)
  }

  lemma GuardHolds(r: Rect)
    requires Reachable(r) && Times(r.w, r.h) >= 100.0
    ensures r.w > 0.01 && r.h > 0.01
  {
    if r.w <= 0.01 {
      TimesBound(r.h, 680.0, r.w, 0.01);
    }
    if r.h <= 0.01 {
      TimesBound(r.w, 680.0, r.h, 0.01);
    }
  }

  lemma TimesBound(a: real, b: real, c: real, d: real)
    requires 0.0 <= a <= b && 0.0 <= c <= d
    ensures Times(a, c) <= b * d && Times(c, a) <= b * d
  {
    TimesMonotone(a, c, d);
    TimesMonotone(d, a, b);
  }

  predicate AllAtLeast(queue: seq<Sized>, least: real) {
    forall i :: 0 <= i < |queue| ==> queue[i].area >= least
  }

  lemma {:induction false} NothingDropped(queue: seq<Sized>, r: Rect)
    requires Fits(queue, r) && Reachable(r) && AllAtLeast(queue, MIN_TILE_AREA)
    ensures |Layout(queue, r)| == |queue|
    decreases |queue|
  {
    if queue != [] {
      SumPositive(queue[1..]);
      GuardHolds(r);
      var n := RowLength(queue, Side(r), 1);
      RestFits(queue, r, n);
      NothingDropped(queue[n..], Rest(queue[..n], r));
    }
  }

  // ----- drawn entries are large enough to stay above the guard ------------------------------

  predicate NonNegativeSizes(s: seq<Entry>) {
    forall e :: e in s ==> EffectiveSize(e) >= 0
  }

  lemma {:induction false} FilterTotal(keep: Entry -> bool, s: seq<Entry>)
    requires NonNegativeSizes(s)
    ensures 0 <= TotalSize(Filter(keep, s)) <= TotalSize(s)
    ensures TotalSize(Filter(keep, s)) == 0 ==> forall e :: e in Filter(keep, s) ==> EffectiveSize(e) == 0
  {
    if s != [] {
      FilterTotal(keep, s[1..]);
    }
  }

  /** Normalising over fewer entries only makes each share larger. */
  lemma ShareGrows(size: int, drawnTotal: int, total: int, area: real)
    requires size > 0 && 0 < drawnTotal <= total && area > 0.0
    ensures Times(size as real / drawnTotal as real, area) >= Times(size as real / total as real, area)
  {
    Antitone(size as real, drawnTotal as real, total as real);
    var less, more := size as real / total as real, size as real / drawnTotal as real;
    assert Times(area, more) == Times(more, area) && Times(area, less) == Times(less, area);
    TimesMonotone(area, less, more);
  }

  lemma DrawnAreLarge(sized: seq<Entry>, area: real)
    requires NonNegativeSizes(sized) && TotalSize(Drawn(sized, area)) > 0
    ensures AllAtLeast(Scaled(Drawn(sized, area), TotalSize(Drawn(sized, area)), area), MIN_TILE_AREA)
  {
    var drawn, total := Drawn(sized, area), TotalSize(sized);
    var dt := TotalSize(drawn);
    FilterTotal(Keeper(total, area), sized);
    forall i | 0 <= i < |drawn|
      ensures Scaled(drawn, dt, area)[i].area >= MIN_TILE_AREA
    {
      ScaledAt(drawn, dt, area, i);
      assert drawn[i] in drawn;
      ShareGrows(EffectiveSize(drawn[i]), dt, total, area);
    }
  }

  // ----- every entry exactly once ------------------------------------------------------------

  lemma {:induction false} FilterSplits(keep: Entry -> bool, drop: Entry -> bool, s: seq<Entry>)
    requires forall e :: e in s ==> drop(e) == !keep(e)
    ensures multiset(Filter(keep, s)) + multiset(Filter(drop, s)) == multiset(s)
    ensures |Filter(keep, s)| + |Filter(drop, s)| == |s|
  {
    if s != [] {
      FilterSplits(keep, drop, s[1..]);
      assert s == [s[0]] + s[1..];
    }
  }

  lemma {:induction false} FilterShort(keep: Entry -> bool, other: Entry -> bool, s: seq<Entry>)
    requires forall e :: e in s ==> !(keep(e) && other(e))
    ensures |Filter(keep, s)| + |Filter(other, s)| <= |s|
    ensures (exists e :: e in s && !keep(e) && !other(e)) ==> |Filter(keep, s)| + |Filter(other, s)| < |s|
  {
    if s != [] {
      FilterShort(keep, other, s[1..]);
    }
  }

  /** No entry that is left out has the path of one that is drawn. */
  predicate NoTwin(sized: seq<Entry>, drawn: seq<Entry>) {
    forall e :: e in sized && SharesPath(e, drawn) ==> e in drawn
  }

  predicate DistinctPaths(s: seq<Entry>) {
    forall i, j :: 0 <= i < j < |s| ==> s[i].path != s[j].path
  }

  lemma SameLength(a: seq<Entry>, b: seq<Entry>, c: seq<Entry>)
    requires multiset(a) + multiset(b) == multiset(c)
    ensures |a| + |b| == |c|
  {
    assert |multiset(a) + multiset(b)| == |a| + |b|;
    assert |multiset(c)| == |c|;
  }

  lemma DrawnNotHidden(sized: seq<Entry>, area: real)
    ensures var drawn := Drawn(sized, area);
      forall e :: e in sized ==> !(Keeper(TotalSize(sized), area)(e) && Hider(drawn)(e))
  {
    var drawn := Drawn(sized, area);
    forall e | e in sized && Keeper(TotalSize(sized), area)(e)
      ensures !Hider(drawn)(e)
    {
      assert e in drawn;
      assert e.path == e.path;
    }
  }

  /** The chips are the entries without a tile exactly when paths tell them apart. */
  lemma HiddenIsTheRest(sized: seq<Entry>, area: real)
    ensures var drawn := Drawn(sized, area); var hidden := Hidden(sized, drawn);
      && (NoTwin(sized, drawn) <==> multiset(drawn) + multiset(hidden) == multiset(sized))
      && (NoTwin(sized, drawn) <==> |drawn| + |hidden| == |sized|)
  {
    var keeper := Keeper(TotalSize(sized), area);
    var drawn := Drawn(sized, area);
    var hider := Hider(drawn);
    DrawnNotHidden(sized, area);
    if NoTwin(sized, drawn) {
      FilterSplits(keeper, hider, sized);
    } else {
      var e :| e in sized && SharesPath(e, drawn) && e !in drawn;
      assert !keeper(e) && !hider(e);
      FilterShort(keeper, hider, sized);
      if multiset(drawn) + multiset(Hidden(sized, drawn)) == multiset(sized) {
        SameLength(drawn, Hidden(sized, drawn), sized);
        assert false;
      }
    }
  }

  function TileEntries(ts: seq<Tile>): (es: seq<Entry>)
    ensures |es| == |ts|
  {
    if ts == [] then [] else [ts[0].entry] + TileEntries(ts[1..])
  }

  lemma {:induction false} TileEntryAt(ts: seq<Tile>, i: nat)
    requires i < |ts|
    ensures TileEntries(ts)[i] == ts[i].entry
  {
    if i > 0 {
      TileEntryAt(ts[1..], i - 1);
    }
  }

  /** The drawn entries' areas are at least the threshold and add up to the pane, so that the
      guard of the layout loop never fires. */
  lemma AllItemsPlaced(entries: seq<Entry>, width: real)
    requires NonNegativeSizes(entries) && TotalSize(Shown(entries, width)) > 0
    ensures Fits(Items(entries, width), Pane(width))
    ensures |Layout(Items(entries, width), Pane(width))| == |Items(entries, width)| == |Shown(entries, width)|
  {
    var area := Times(width, Height(width));
    var sized := SortBySize(entries);
    SortDescends(entries);
    assert forall e :: e in sized ==> e in multiset(entries);
    assert Shown(entries, width)[0] in Shown(entries, width);
    ScaledFills(Shown(entries, width), area);
    PositiveWidth(width, Height(width));
    DrawnAreLarge(sized, area);
    NothingDropped(Items(entries, width), Pane(width));
  }

  lemma PositiveWidth(w: real, h: real)
    requires Times(w, h) > 0.0 && h >= 0.0
    ensures w > 0.0
  {
    if w <= 0.0 {
      TimesMonotone(h, w, 0.0);
    }
  }

  lemma {:induction false} PositiveTotal(s: seq<Entry>)
    requires forall e :: e in s ==> EffectiveSize(e) > 0
    ensures TotalSize(s) >= 0 && (s != [] ==> TotalSize(s) > 0)
  {
    if s != [] {
      PositiveTotal(s[1..]);
    }
  }

  /** Drawn entry i has tile i, whose area is that entry's exact share of the pane. */
  lemma TileIsShare(entries: seq<Entry>, width: real, i: nat)
    requires NonNegativeSizes(entries) && i < |Shown(entries, width)|
    ensures i < |Arrange(entries, width).tiles| && TotalSize(Shown(entries, width)) > 0
    ensures var tile, e := Arrange(entries, width).tiles[i], Shown(entries, width)[i];
      && tile.entry == e && tile.size == EffectiveSize(e)
      && Times(tile.at.w, tile.at.h) == Times(EffectiveSize(e) as real / TotalSize(Shown(entries, width)) as real,
                                              Times(width, Height(width)))
      && Within(tile.at, Pane(width))
  {
    PositiveTotal(Shown(entries, width));
    AllItemsPlaced(entries, width);
    TilesInOrder(Items(entries, width), Pane(width), i);
    ScaledAt(Shown(entries, width), TotalSize(Shown(entries, width)), Times(width, Height(width)), i);
  }

  /** With anything drawn, every point of the pane is in exactly one tile. */
  lemma TilesCoverThePane(entries: seq<Entry>, width: real, px: real, py: real)
    requires NonNegativeSizes(entries) && Arrange(entries, width).tiles != []
    ensures Hits(Arrange(entries, width).tiles, px, py) == if Inside(Pane(width), px, py) then 1 else 0
  {
    AllItemsPlaced(entries, width);
    TilesPartition(Items(entries, width), Pane(width), px, py);
  }

  lemma TilesAreShown(entries: seq<Entry>, width: real)
    requires NonNegativeSizes(entries)
    ensures TileEntries(Arrange(entries, width).tiles) == Shown(entries, width)
  {
    var tiles, shown := Arrange(entries, width).tiles, Shown(entries, width);
    PositiveTotal(shown);
    if shown != [] {
      AllItemsPlaced(entries, width);
    }
    forall i | 0 <= i < |tiles|
      ensures TileEntries(tiles)[i] == shown[i]
    {
      TileIsShare(entries, width, i);
      TileEntryAt(tiles, i);
    }
  }

  /** No entry vanishes and none is shown twice, exactly when no left-out entry has the path of a
      drawn one; distinct paths are enough. */
  lemma EveryEntryOnce(entries: seq<Entry>, width: real)
    requires NonNegativeSizes(entries)
    ensures var view := Arrange(entries, width);
      && (multiset(TileEntries(view.tiles)) + multiset(view.hidden) == multiset(entries)
          <==> NoTwin(entries, Shown(entries, width)))
      && (DistinctPaths(entries) ==> NoTwin(entries, Shown(entries, width)))
  {
    var sized, shown := SortBySize(entries), Shown(entries, width);
    SortDescends(entries);
    TilesAreShown(entries, width);
    HiddenIsTheRest(sized, Times(width, Height(width)));
    SameMembers(entries, sized);
    if DistinctPaths(entries) {
      forall e | e in entries && SharesPath(e, shown)
        ensures e in shown
      {
        var d :| d in shown && d.path == e.path;
        SamePathSameEntry(entries, d, e);
      }
    }
  }

  lemma SamePathSameEntry(s: seq<Entry>, a: Entry, b: Entry)
    requires DistinctPaths(s) && a in s && b in s && a.path == b.path
    ensures a == b
  {
    var i :| 0 <= i < |s| && s[i] == a;
    var j :| 0 <= j < |s| && s[j] == b;
    assert i == j;
  }

  /** An entry gets a tile exactly when its share of all bytes is worth the threshold area. */
  lemma TileIffLargeShare(entries: seq<Entry>, width: real, e: Entry)
    requires NonNegativeSizes(entries) && e in entries
    ensures e in TileEntries(Arrange(entries, width).tiles)
      <==> (var total, area := Arrange(entries, width).grandTotal, Times(width, Height(width));
            && area > 0.0 && total > 0 && EffectiveSize(e) > 0
            && Times(EffectiveSize(e) as real / total as real, area) >= 100.0)
  {
    SortDescends(entries);
    SameMembers(entries, SortBySize(entries));
    TilesAreShown(entries, width);
  }

  lemma {:induction false} SplitTotal(keep: Entry -> bool, drop: Entry -> bool, s: seq<Entry>)
    requires forall e :: e in s ==> drop(e) == !keep(e)
    ensures TotalSize(Filter(keep, s)) + TotalSize(Filter(drop, s)) == TotalSize(s)
  {
    if s != [] {
      SplitTotal(keep, drop, s[1..]);
    }
  }

  /** The bytes of the chips and of the tiles are all the bytes. */
  lemma BytesConserved(entries: seq<Entry>, width: real)
    requires DistinctPaths(entries) && NonNegativeSizes(entries)
    ensures var view := Arrange(entries, width);
      view.hiddenBytes + TotalSize(TileEntries(view.tiles)) == view.grandTotal
  {
    var sized, shown := SortBySize(entries), Shown(entries, width);
    EveryEntryOnce(entries, width);
    SortDescends(entries);
    SameMembers(entries, sized);
    TilesAreShown(entries, width);
    DrawnNotHidden(sized, Times(width, Height(width)));
    SplitTotal(Keeper(TotalSize(sized), Times(width, Height(width))), Hider(shown), sized);
  }
}
