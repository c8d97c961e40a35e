/** The save-under mouse cursor of kernel/src/BasicRenderer.cpp: DrawCursor paints a 16 by 16 bitmap over
    the framebuffer and keeps the pixels it covers, DelteCursor puts them back.
 */
module Cursor {

  const TWO32 := 0x1_0000_0000
  const SIDE := 16
  const CELLS := 256

  type Pixel = n: int | 0 <= n < TWO32
  type Byte = n: int | 0 <= n < 256

  datatype Point = Point(x: int, y: int)

  // ----- clipping -----

  /** A `long` stored in an `int`. */
  function ToInt32(v: int): int {
    var w := v % TWO32;
    if w < TWO32 / 2 then w else w - TWO32
  }

  /** xMax and yMax: how many columns (rows) from `pos` on are drawn. */
  function Clip(extent: nat, pos: int): int {
    var difference := ToInt32(extent - pos);
    if difference < SIDE then difference else SIDE
  }

  /** The coordinate handed to PutPixel, a `uint32_t`. */
  function Coordinate(pos: int, d: int): nat {
    (pos + d) % TWO32
  }

  /** Clipping keeps every drawn column (row) on the screen exactly when the position, taken modulo 2^32,
      is at most 2^31 past the edge: small negative positions and huge ones are not caught. */
  predicate OnGrid(extent: nat, pos: int) {
    pos % TWO32 <= extent + TWO32 / 2
  }

  lemma ClipInsideIff(extent: nat, pos: int)
    requires extent < TWO32 / 2
    ensures (forall d :: 0 <= d < Clip(extent, pos) ==> Coordinate(pos, d) < extent) <==> OnGrid(extent, pos)
  {
    if OnGrid(extent, pos) {
      forall d | 0 <= d < Clip(extent, pos)
        ensures Coordinate(pos, d) < extent
      {
        ClipInside(extent, pos, d);
      }
    } else {
      SameRest(extent, pos);
      assert Coordinate(pos, 0) == pos % TWO32;
      assert Clip(extent, pos) > 0;
    }
  }

  lemma SameRest(extent: nat, pos: int)
    ensures (extent - pos) % TWO32 == (extent - pos % TWO32) % TWO32
  {
    var q, p := pos / TWO32, pos % TWO32;
    assert extent - pos == (extent - p) - q * TWO32;
  }

  lemma NoWrap(pos: int, d: int)
    requires 0 <= d && pos % TWO32 + d < TWO32
    ensures (pos + d) % TWO32 == pos % TWO32 + d
  {
    var q, p := pos / TWO32, pos % TWO32;
    assert pos + d == q * TWO32 + (p + d);
  }

  /** On the grid, drawn coordinates do not wrap. */
  lemma ClipInside(extent: nat, pos: int, d: int)
    requires extent < TWO32 / 2 && OnGrid(extent, pos) && 0 <= d < Clip(extent, pos)
    ensures Coordinate(pos, d) == pos % TWO32 + d < extent
  {
    SameRest(extent, pos);
    assert Clip(extent, pos) <= extent - pos % TWO32;
    hide Clip, OnGrid;
    NoWrap(pos, d);
  }

  datatype Screen = Screen(width: nat, height: nat, pixelsPerScanLine: nat)

  /** A cursor at `p` is drawn on the screen only: on the grid on both axes, or not drawn at all. */
  predicate Placeable(s: Screen, p: Point) {
    Clip(s.width, p.x) > 0 && Clip(s.height, p.y) > 0 ==> OnGrid(s.width, p.x) && OnGrid(s.height, p.y)
  }

  lemma PlaceableIff(s: Screen, p: Point)
    requires s.width < TWO32 / 2 && s.height < TWO32 / 2
    ensures Placeable(s, p) <==>
      forall d, e :: 0 <= d < Clip(s.width, p.x) && 0 <= e < Clip(s.height, p.y) ==>
        Coordinate(p.x, d) < s.width && Coordinate(p.y, e) < s.height
  {
    ClipInsideIff(s.width, p.x);
    ClipInsideIff(s.height, p.y);
    hide Clip, Coordinate, OnGrid;
    if Clip(s.width, p.x) > 0 && Clip(s.height, p.y) > 0 && !Placeable(s, p) {
      var d, e := 0, 0;
      if !OnGrid(s.width, p.x) {
        d :| 0 <= d < Clip(s.width, p.x) && Coordinate(p.x, d) >= s.width;
      } else {
        e :| 0 <= e < Clip(s.height, p.y) && Coordinate(p.y, e) >= s.height;
      }
      assert !(Coordinate(p.x, d) < s.width && Coordinate(p.y, e) < s.height);
    }
  }

  // ----- the bitmap on the screen -----

  predicate ScreenOk(s: Screen, size: nat) {
    && 0 < s.width <= s.pixelsPerScanLine < TWO32 / 4 && 0 < s.height < TWO32 / 4
    && s.height * s.pixelsPerScanLine <= size <= TWO32 / 4
  }

  /** The pixel PutPixel and GetPixel address: byte offsets x*4 and y*pitch*4, each modulo 2^32. */
  function PixelAt(s: Screen, x: nat, y: nat): nat {
    ((x * 4) % TWO32 + (y * s.pixelsPerScanLine * 4) % TWO32) / 4
  }

  lemma {:induction false} RowsBelow(y: nat, y': nat, pitch: nat)
    requires y < y'
    ensures y * pitch + pitch <= y' * pitch
    decreases y'
  {
    if y + 1 < y' {
      RowsBelow(y, y' - 1, pitch);
    }
  }

  lemma Offset(x: nat, row: nat)
    requires x + row < TWO32 / 4
    ensures ((x * 4) % TWO32 + (row * 4) % TWO32) / 4 == x + row
  {}

  lemma PixelInside(s: Screen, size: nat, x: nat, y: nat)
    requires ScreenOk(s, size) && x < s.width && y < s.height
    ensures PixelAt(s, x, y) == x + y * s.pixelsPerScanLine < size
  {
    RowsBelow(y, s.height, s.pixelsPerScanLine);
    Offset(x, y * s.pixelsPerScanLine);
  }

  lemma PixelInjective(s: Screen, size: nat, x: nat, y: nat, x': nat, y': nat)
    requires ScreenOk(s, size) && x < s.width && y < s.height && x' < s.width && y' < s.height
    requires PixelAt(s, x, y) == PixelAt(s, x', y')
    ensures x == x' && y == y'
  {
    PixelInside(s, size, x, y);
    PixelInside(s, size, x', y');
    hide PixelAt;
    if y < y' {
      RowsBelow(y, y', s.pixelsPerScanLine);
    } else if y' < y {
      RowsBelow(y', y, s.pixelsPerScanLine);
    }
  }

  /** One bitmap at one place. */
  datatype Stamp = Stamp(screen: Screen, bitmap: seq<Byte>, position: Point)

  predicate StampOk(t: Stamp, size: nat) {
    ScreenOk(t.screen, size) && |t.bitmap| == CELLS && Placeable(t.screen, t.position)
  }

  function XMax(t: Stamp): int { Clip(t.screen.width, t.position.x) }
  function YMax(t: Stamp): int { Clip(t.screen.height, t.position.y) }

  /** Bitmap cell `k` = 16 * row + column is set and not clipped. */
  predicate Painted(t: Stamp, k: nat) {
    k < CELLS == |t.bitmap| && k % SIDE < XMax(t) && k / SIDE < YMax(t) && t.bitmap[k] == 1
  }

  /** The pixel under cell `k`. */
  function Under(t: Stamp, k: nat): nat {
    PixelAt(t.screen, Coordinate(t.position.x, k % SIDE), Coordinate(t.position.y, k / SIDE))
  }

  lemma UnderInside(t: Stamp, size: nat, k: nat)
    requires StampOk(t, size) && Painted(t, k)
    ensures Coordinate(t.position.x, k % SIDE) == t.position.x % TWO32 + k % SIDE < t.screen.width
    ensures Coordinate(t.position.y, k / SIDE) == t.position.y % TWO32 + k / SIDE < t.screen.height
    ensures Under(t, k) < size
  {
    ClipInside(t.screen.width, t.position.x, k % SIDE);
    ClipInside(t.screen.height, t.position.y, k / SIDE);
    PixelInside(t.screen, size, Coordinate(t.position.x, k % SIDE), Coordinate(t.position.y, k / SIDE));
  }

  lemma UnderInjective(t: Stamp, size: nat, j: nat, k: nat)
    requires StampOk(t, size) && Painted(t, j) && Painted(t, k) && Under(t, j) == Under(t, k)
    ensures j == k
  {
    UnderInside(t, size, j);
    UnderInside(t, size, k);
    PixelInjective(t.screen, size, Coordinate(t.position.x, j % SIDE), Coordinate(t.position.y, j / SIDE),
                   Coordinate(t.position.x, k % SIDE), Coordinate(t.position.y, k / SIDE));
  }

  predicate IsCell(t: Stamp, i: nat, k: nat) {
    Painted(t, k) && Under(t, k) == i
  }

  /** The painted cell over pixel `i`, or -1. */
  ghost function CellOver(t: Stamp, i: nat): (c: int)
    ensures c == -1 || (c >= 0 && IsCell(t, i, c))
    ensures c == -1 ==> forall k: nat :: !IsCell(t, i, k)
  {
    if exists k: nat :: IsCell(t, i, k) then var k: nat :| IsCell(t, i, k); k else -1
  }

  lemma CellOverUnder(t: Stamp, size: nat, k: nat)
    requires StampOk(t, size) && Painted(t, k)
    ensures CellOver(t, Under(t, k)) == k
  {
    assert IsCell(t, Under(t, k), k);
    UnderInjective(t, size, CellOver(t, Under(t, k)), k);
  }

  // ----- what drawing and deleting do -----

  /** The frame with cells below `n` painted. */
  ghost function Drawn(f: seq<Pixel>, t: Stamp, colour: Pixel, n: nat): (r: seq<Pixel>)
    ensures |r| == |f|
    ensures forall i :: 0 <= i < |f| ==> r[i] == if 0 <= CellOver(t, i) < n then colour else f[i]
  {
    seq(|f|, i requires 0 <= i < |f| => if 0 <= CellOver(t, i) < n then colour else f[i])
  }

  /** The background store with cells below `n` saved. */
  ghost function Saved(bg: seq<Pixel>, f: seq<Pixel>, t: Stamp, n: nat): (r: seq<Pixel>)
    requires |bg| == CELLS
    ensures |r| == CELLS
    ensures forall k :: 0 <= k < CELLS ==>
      r[k] == if Painted(t, k) && k < n && Under(t, k) < |f| then f[Under(t, k)] else bg[k]
  {
    seq(CELLS, k requires 0 <= k < CELLS =>
      if Painted(t, k) && k < n && Under(t, k) < |f| then f[Under(t, k)] else bg[k])
  }

  /** The frame with cells below `n` put back. */
  ghost function Restored(f: seq<Pixel>, bg: seq<Pixel>, t: Stamp, n: nat): (r: seq<Pixel>)
    requires |bg| == CELLS
    ensures |r| == |f|
    ensures forall i :: 0 <= i < |f| ==> r[i] == if 0 <= CellOver(t, i) < n then bg[CellOver(t, i)] else f[i]
  {
    seq(|f|, i requires 0 <= i < |f| => if 0 <= CellOver(t, i) < n then bg[CellOver(t, i)] else f[i])
  }

  /** What the screen shows after a draw: a pixel has the cursor's colour exactly where a set bit of the
      bitmap falls on it, and is what it was elsewhere. */
  lemma DrawnAt(f: seq<Pixel>, t: Stamp, colour: Pixel, x: nat, y: nat)
    requires StampOk(t, |f|) && x < t.screen.width && y < t.screen.height
    ensures PixelAt(t.screen, x, y) < |f|
    ensures var left, top := t.position.x % TWO32, t.position.y % TWO32;
      Drawn(f, t, colour, CELLS)[PixelAt(t.screen, x, y)] ==
        if left <= x < left + SIDE && top <= y < top + SIDE && t.bitmap[(y - top) * SIDE + x - left] == 1
        then colour else f[PixelAt(t.screen, x, y)]
  {
    PixelInside(t.screen, |f|, x, y);
    var left, top, i := t.position.x % TWO32, t.position.y % TWO32, PixelAt(t.screen, x, y);
    var c := CellOver(t, i);
    assert Drawn(f, t, colour, CELLS)[i] == if 0 <= c < CELLS then colour else f[i];
    hide Drawn, PixelAt, ScreenOk;
    if c >= 0 {
      UnderInside(t, |f|, c);
      PixelInjective(t.screen, |f|, left + c % SIDE, top + c / SIDE, x, y);
      assert c == (y - top) * SIDE + x - left;
    } else if left <= x < left + SIDE && top <= y < top + SIDE {
      var k := (y - top) * SIDE + x - left;
      assert k % SIDE == x - left && k / SIDE == y - top;
      OnScreenPainted(t, k, x, y);
    }
  }

  lemma OnScreenPainted(t: Stamp, k: nat, x: nat, y: nat)
    requires |t.bitmap| == CELLS && k < CELLS && t.screen.width < TWO32 / 4 && t.screen.height < TWO32 / 4
    requires x == t.position.x % TWO32 + k % SIDE < t.screen.width
    requires y == t.position.y % TWO32 + k / SIDE < t.screen.height
    ensures t.bitmap[k] == 1 ==> IsCell(t, PixelAt(t.screen, x, y), k)
  {
    OnScreenClip(t.screen.width, t.position.x, k % SIDE);
    OnScreenClip(t.screen.height, t.position.y, k / SIDE);
  }

  lemma OnScreenClip(extent: nat, pos: int, d: nat)
    requires extent < TWO32 / 4 && d < SIDE && pos % TWO32 + d < extent
    ensures d < Clip(extent, pos) && Coordinate(pos, d) == pos % TWO32 + d
  {
    assert (extent - pos) % TWO32 == extent - pos % TWO32;
    assert (pos + d) % TWO32 == pos % TWO32 + d;
  }

  /** The store holds what the frame has under each painted cell. */
  ghost predicate Keeps(bg: seq<Pixel>, f: seq<Pixel>, t: Stamp) {
    |bg| == CELLS && forall k: nat :: Painted(t, k) && Under(t, k) < |f| ==> bg[k] == f[Under(t, k)]
  }

  lemma DrawKeeps(bg: seq<Pixel>, f: seq<Pixel>, t: Stamp)
    requires |bg| == CELLS
    ensures Keeps(Saved(bg, f, t, CELLS), f, t)
  {}

  /** Deleting after drawing gives the frame back, and so does deleting again. */
  lemma DeleteUndoesDraw(f: seq<Pixel>, bg: seq<Pixel>, t: Stamp, colour: Pixel)
    requires Keeps(bg, f, t)
    ensures Restored(Drawn(f, t, colour, CELLS), bg, t, CELLS) == f
    ensures Restored(f, bg, t, CELLS) == f
  {
    var d := Drawn(f, t, colour, CELLS);
    forall i | 0 <= i < |f|
      ensures Restored(d, bg, t, CELLS)[i] == f[i] == Restored(f, bg, t, CELLS)[i]
    {
      var c := CellOver(t, i);
      if c >= 0 {
        assert Painted(t, c) && Under(t, c) == i;
      }
    }
  }

  // ----- runs -----

  datatype State = State(frame: seq<Pixel>, background: seq<Pixel>, position: Point, firstCursor: bool)
  datatype Step = Draw(at: Point, colour: Pixel) | Delete

  /** The screen and the bitmap of a run. */
  datatype Setting = Setting(screen: Screen, bitmap: seq<Byte>)

  function StampAt(w: Setting, p: Point): Stamp { Stamp(w.screen, w.bitmap, p) }

  ghost function After(s: State, w: Setting, step: Step): (r: State)
    requires |s.background| == CELLS
    ensures |r.background| == CELLS && |r.frame| == |s.frame|
  {
    match step
    case Draw(p, colour) =>
      var t := StampAt(w, p);
      State(Drawn(s.frame, t, colour, CELLS), Saved(s.background, s.frame, t, CELLS), p, false)
    case Delete =>
      if s.firstCursor then s else
        s.(frame := Restored(s.frame, s.background, StampAt(w, s.position), CELLS))
  }

  /** The same of a draw: the point `x`, `y` takes the colour where the bit for it is set, 16 bits to a row, and the
      position is remembered. */
  lemma DrawMeans(s: State, w: Setting, p: Point, colour: Pixel, x: nat, y: nat)
    requires |s.background| == 256 && StampOk(StampAt(w, p), |s.frame|) && |w.bitmap| == 256
    requires x < w.screen.width && y < w.screen.height
    ensures var r, left, top := After(s, w, Draw(p, colour)), p.x % 0x1_0000_0000, p.y % 0x1_0000_0000;
      && r.position == p && !r.firstCursor && |r.frame| == |s.frame|
      && var at := x + y * w.screen.pixelsPerScanLine;
         at < |s.frame| && r.frame[at] ==
           if left <= x < left + 16 && top <= y < top + 16 && w.bitmap[(y - top) * 16 + x - left] == 1
           then colour else s.frame[at]
  {
    PixelInside(w.screen, |s.frame|, x, y);
    DrawnAt(s.frame, StampAt(w, p), colour, x, y);
    hide Drawn, Saved, PixelAt, StampOk;
  }

  ghost function Run(s: State, w: Setting, steps: seq<Step>): (r: State)
    requires |s.background| == CELLS
    ensures |r.background| == CELLS && |r.frame| == |s.frame|
  {
    if steps == [] then s else After(Run(s, w, steps[..|steps| - 1]), w, steps[|steps| - 1])
  }

  /** Between any two draws there is a delete. */
  predicate Alternating(steps: seq<Step>) {
    forall i :: 0 < i < |steps| && steps[i].Draw? ==> steps[i - 1].Delete?
  }

  /** What a frame that started as `f` shows after the steps. */
  ghost function Shown(f: seq<Pixel>, w: Setting, steps: seq<Step>): seq<Pixel> {
    if steps != [] && steps[|steps| - 1].Draw? then
      Drawn(f, StampAt(w, steps[|steps| - 1].at), steps[|steps| - 1].colour, CELLS)
    else f
  }

  /** However often the cursor is drawn, in whatever colours, and deleted in turn, the screen shows the
      initial frame, with the cursor on top of it exactly when the last step drew it. */
  lemma {:induction false} RunShows(s: State, w: Setting, steps: seq<Step>)
    requires |s.background| == CELLS && s.firstCursor && Alternating(steps)
    ensures var r := Run(s, w, steps);
      r.frame == Shown(s.frame, w, steps) && (r.firstCursor || Keeps(r.background, s.frame, StampAt(w, r.position)))
    ensures steps != [] && steps[|steps| - 1].Draw? ==>
      var r := Run(s, w, steps); !r.firstCursor && r.position == steps[|steps| - 1].at
  {
    if steps != [] {
      var k := |steps| - 1;
      RunShows(s, w, steps[..k]);
      var r := Run(s, w, steps[..k]);
      match steps[k]
      case Draw(p, colour) =>
        assert r.frame == s.frame;
        DrawKeeps(r.background, s.frame, StampAt(w, p));
      case Delete =>
        if !r.firstCursor {
          var colour := if k > 0 && steps[k - 1].Draw? then steps[k - 1].colour else 0;
          DeleteUndoesDraw(s.frame, r.background, StampAt(w, r.position), colour);
        }
    }
  }

  lemma ThreeSteps(s: State, w: Setting, first: Step, second: Step)
    requires |s.background| == CELLS
    ensures Run(s, w, [first, second, Delete]) == After(After(After(s, w, first), w, second), w, Delete)
  {
    hide After;
    var none, one, two, all: seq<Step> := [], [first], [first, second], [first, second, Delete];
    assert all[..2] == two && two[..1] == one && one[..0] == none;
    assert Run(s, w, none) == s;
    assert Run(s, w, one) == After(s, w, first);
    assert Run(s, w, two) == After(After(s, w, first), w, second);
  }

  /** Two draws in a row: the delete that follows leaves the first cursor on the screen, so the frame is
      back exactly when the first draw had changed nothing. */
  lemma TwoDrawsIff(s: State, w: Setting, first: Step, second: Step)
    requires |s.background| == CELLS && first.Draw? && second.Draw? && StampOk(StampAt(w, first.at), |s.frame|)
    ensures var t := StampAt(w, first.at);
      && Run(s, w, [first, second, Delete]).frame == Drawn(s.frame, t, first.colour, CELLS)
      && (Run(s, w, [first, second, Delete]).frame == s.frame <==>
          forall k: nat :: Painted(t, k) && Under(t, k) < |s.frame| ==> s.frame[Under(t, k)] == first.colour)
  {
    var t, u := StampAt(w, first.at), StampAt(w, second.at);
    var one := After(s, w, first);
    var two := After(one, w, second);
    ThreeSteps(s, w, first, second);
    hide Run;
    DrawKeeps(one.background, one.frame, u);
    DeleteUndoesDraw(one.frame, two.background, u, second.colour);
    hide Drawn, Saved, Restored, Keeps, Painted, Under, StampOk;
    DrawnSameIff(s.frame, t, first.colour);
  }

  lemma DrawnSameIff(f: seq<Pixel>, t: Stamp, colour: Pixel)
    requires StampOk(t, |f|)
    ensures Drawn(f, t, colour, CELLS) == f <==>
      forall k: nat :: Painted(t, k) && Under(t, k) < |f| ==> f[Under(t, k)] == colour
  {
    var d := Drawn(f, t, colour, CELLS);
    forall k: nat | Painted(t, k) && Under(t, k) < |f|
      ensures d[Under(t, k)] == colour
    {
      CellOverUnder(t, |f|, k);
    }
    forall i | 0 <= i < |f|
      ensures d[i] == f[i] || (CellOver(t, i) >= 0 && IsCell(t, i, CellOver(t, i)) && d[i] == colour)
    {}
  }

  // ----- one cell at a time -----

  ghost predicate Clear(t: Stamp, n: nat, n': nat) {
    forall k: nat :: n <= k < n' ==> !Painted(t, k)
  }

  lemma CellPainted(t: Stamp, x: nat, y: nat)
    requires |t.bitmap| == CELLS && x < XMax(t) && y < YMax(t)
    ensures y * SIDE + x < CELLS && x < SIDE && (Painted(t, y * SIDE + x) <==> t.bitmap[y * SIDE + x] == 1)
    ensures t.bitmap[y * SIDE + x] != 1 ==> Clear(t, y * SIDE + x, y * SIDE + x + 1)
    ensures Under(t, y * SIDE + x) == PixelAt(t.screen, Coordinate(t.position.x, x), Coordinate(t.position.y, y))
  {}

  lemma RowEnd(t: Stamp, x: nat, y: nat)
    requires XMax(t) <= x <= SIDE
    ensures Clear(t, y * SIDE + x, (y + 1) * SIDE)
  {}

  lemma LastRow(t: Stamp, y: nat)
    requires YMax(t) <= y <= SIDE
    ensures Clear(t, y * SIDE, CELLS)
  {}

  /** Cells below `n` are done. */
  ghost predicate Done(f: seq<Pixel>, bg: seq<Pixel>, t: Stamp, colour: Pixel, n: nat,
                       f': seq<Pixel>, bg': seq<Pixel>)
  {
    |bg| == CELLS && f' == Drawn(f, t, colour, n) && bg' == Saved(bg, f, t, n)
  }

  lemma DrawCell(f: seq<Pixel>, bg: seq<Pixel>, t: Stamp, colour: Pixel, n: nat, f': seq<Pixel>, bg': seq<Pixel>)
    requires StampOk(t, |f|) && Painted(t, n) && Done(f, bg, t, colour, n, f', bg')
    ensures |f'| == |f| && |bg'| == CELLS && Under(t, n) < |f|
    ensures Done(f, bg, t, colour, n + 1, f'[Under(t, n) := colour], bg'[n := f'[Under(t, n)]])
  {
    UnderInside(t, |f|, n);
    CellOverUnder(t, |f|, n);
    hide Painted, Under, StampOk;
    assert Drawn(f, t, colour, n + 1) == f'[Under(t, n) := colour];
    assert Saved(bg, f, t, n + 1) == bg'[n := f'[Under(t, n)]];
  }

  lemma SkipCells(f: seq<Pixel>, bg: seq<Pixel>, t: Stamp, colour: Pixel, n: nat, n': nat,
                  f': seq<Pixel>, bg': seq<Pixel>)
    requires Done(f, bg, t, colour, n, f', bg') && n <= n' && Clear(t, n, n')
    ensures Done(f, bg, t, colour, n', f', bg')
  {
    forall i | 0 <= i < |f|
      ensures 0 <= CellOver(t, i) < n <==> 0 <= CellOver(t, i) < n'
    {
      assert CellOver(t, i) >= 0 ==> Painted(t, CellOver(t, i));
    }
    assert Drawn(f, t, colour, n) == Drawn(f, t, colour, n');
    assert Saved(bg, f, t, n) == Saved(bg, f, t, n');
  }

  ghost predicate Undone(f: seq<Pixel>, bg: seq<Pixel>, t: Stamp, n: nat, f': seq<Pixel>) {
    |bg| == CELLS && f' == Restored(f, bg, t, n)
  }

  lemma RestoreCell(f: seq<Pixel>, bg: seq<Pixel>, t: Stamp, n: nat, f': seq<Pixel>)
    requires StampOk(t, |f|) && Painted(t, n) && Undone(f, bg, t, n, f')
    ensures |f'| == |f| && Under(t, n) < |f|
    ensures Undone(f, bg, t, n + 1, f'[Under(t, n) := bg[n]])
  {
    UnderInside(t, |f|, n);
    CellOverUnder(t, |f|, n);
    hide Painted, Under, StampOk;
    assert Restored(f, bg, t, n + 1) == f'[Under(t, n) := bg[n]];
  }

  lemma SkipRestore(f: seq<Pixel>, bg: seq<Pixel>, t: Stamp, n: nat, n': nat, f': seq<Pixel>)
    requires Undone(f, bg, t, n, f') && n <= n' && Clear(t, n, n')
    ensures Undone(f, bg, t, n', f')
  {
    forall i | 0 <= i < |f|
      ensures 0 <= CellOver(t, i) < n <==> 0 <= CellOver(t, i) < n'
    {
      assert CellOver(t, i) >= 0 ==> Painted(t, CellOver(t, i));
    }
    assert Restored(f, bg, t, n) == Restored(f, bg, t, n');
  }

  lemma NothingDone(f: seq<Pixel>, bg: seq<Pixel>, t: Stamp, colour: Pixel)
    requires |bg| == CELLS
    ensures Done(f, bg, t, colour, 0, f, bg)
  {
    assert Drawn(f, t, colour, 0) == f && Saved(bg, f, t, 0) == bg;
  }

  lemma NothingUndone(f: seq<Pixel>, bg: seq<Pixel>, t: Stamp)
    requires |bg| == CELLS
    ensures Undone(f, bg, t, 0, f)
  {
    assert Restored(f, bg, t, 0) == f;
  }

  class BasicRenderer {
    const frame: array<Pixel>
    const screen: Screen
    const lastCursorBackground: array<Pixel>
    var mouseColor: Pixel
    var lastCursorPosition: Point
    var firstCursor: bool

    constructor (target: array<Pixel>, s: Screen, colour: Pixel)
      requires ScreenOk(s, target.Length)
      ensures Valid() && firstCursor && frame == target && screen == s && mouseColor == colour
      ensures fresh(lastCursorBackground)
    {
      frame, screen, mouseColor, firstCursor := target, s, colour, true;
      lastCursorBackground := new Pixel[CELLS](_ => 0);
    }

    ghost predicate Valid()
      reads this
    {
      && ScreenOk(screen, frame.Length) && lastCursorBackground.Length == CELLS && frame != lastCursorBackground
      && (firstCursor || Placeable(screen, lastCursorPosition))
    }

    ghost function Now(): State
      reads this, frame, lastCursorBackground
    {
      State(frame[..], lastCursorBackground[..], lastCursorPosition, firstCursor)
    }

    method PutPixel(x: nat, y: nat, colour: Pixel)
      requires PixelAt(screen, x, y) < frame.Length
      modifies frame
      ensures frame[..] == old(frame[..])[PixelAt(screen, x, y) := colour]
    {
      frame[PixelAt(screen, x, y)] := colour;
    }

    method GetPixel(x: nat, y: nat) returns (colour: Pixel)
      requires PixelAt(screen, x, y) < frame.Length
      ensures colour == frame[PixelAt(screen, x, y)]
    {
      colour := frame[PixelAt(screen, x, y)];
    }

    /** The body of the two loops: save the pixel, then paint it. */
    method DrawBit(cursorBitmap: seq<Byte>, position: Point, x: nat, y: nat, ghost f: seq<Pixel>, ghost bg: seq<Pixel>)
      requires ScreenOk(screen, frame.Length) && lastCursorBackground.Length == CELLS && frame != lastCursorBackground
      requires var t := Stamp(screen, cursorBitmap, position);
        && StampOk(t, |f|) && x < XMax(t) && y < YMax(t)
        && Done(f, bg, t, mouseColor, y * SIDE + x, frame[..], lastCursorBackground[..])
      modifies frame, lastCursorBackground
      ensures var t := Stamp(screen, cursorBitmap, position);
        Done(f, bg, t, mouseColor, y * SIDE + x + 1, frame[..], lastCursorBackground[..])
    {
      ghost var t := Stamp(screen, cursorBitmap, position);
      var bit := y * SIDE + x;
      CellPainted(t, x, y);
      hide Done, StampOk, ScreenOk, Painted, Under, PixelAt, Coordinate, Clear, XMax, YMax;
      if cursorBitmap[bit] == 1 {
        DrawCell(f, bg, t, mouseColor, bit, frame[..], lastCursorBackground[..]);
        var at := GetPixel(Coordinate(position.x, x), Coordinate(position.y, y));
        lastCursorBackground[bit] := at;
        PutPixel(Coordinate(position.x, x), Coordinate(position.y, y), mouseColor);
      } else {
        SkipCells(f, bg, t, mouseColor, bit, bit + 1, frame[..], lastCursorBackground[..]);
      }
    }

    method DrawCursor(cursorBitmap: seq<Byte>, position: Point)
      requires Valid() && |cursorBitmap| == CELLS && Placeable(screen, position)
      modifies this`lastCursorPosition, this`firstCursor, frame, lastCursorBackground
      ensures Valid() && Now() == After(old(Now()), Setting(screen, cursorBitmap), Draw(position, mouseColor))
    {
      ghost var f, bg, t := frame[..], lastCursorBackground[..], Stamp(screen, cursorBitmap, position);
      lastCursorPosition := position;
      var xMax, yMax := Clip(screen.width, position.x), Clip(screen.height, position.y);
      assert Done(f, bg, t, mouseColor, 0, frame[..], lastCursorBackground[..]) by {
        NothingDone(f, bg, t, mouseColor);
      }
      var y: nat := 0;
      while y < yMax
        invariant lastCursorPosition == position && (y == 0 || y <= yMax)
        invariant Done(f, bg, t, mouseColor, y * SIDE, frame[..], lastCursorBackground[..])
      {
        hide Done, StampOk, ScreenOk, Placeable, Painted, Under, PixelAt, Coordinate, Clear;
        var x: nat := 0;
        while x < xMax
          invariant lastCursorPosition == position && (x == 0 || x <= xMax)
          invariant Done(f, bg, t, mouseColor, y * SIDE + x, frame[..], lastCursorBackground[..])
        {
          DrawBit(cursorBitmap, position, x, y, f, bg);
          x := x + 1;
        }
        RowEnd(t, x, y);
        SkipCells(f, bg, t, mouseColor, y * SIDE + x, (y + 1) * SIDE, frame[..], lastCursorBackground[..]);
        y := y + 1;
      }
      LastRow(t, y);
      SkipCells(f, bg, t, mouseColor, y * SIDE, CELLS, frame[..], lastCursorBackground[..]);
      firstCursor := false;
    }

    method DelteCursor(cursorBitmap: seq<Byte>)
      requires Valid() && |cursorBitmap| == CELLS
      modifies frame
      ensures Valid() && Now() == After(old(Now()), Setting(screen, cursorBitmap), Delete)
    {
      if firstCursor {
        return;
      }
      ghost var f, bg, t := frame[..], lastCursorBackground[..], Stamp(screen, cursorBitmap, lastCursorPosition);
      var xMax, yMax := Clip(screen.width, lastCursorPosition.x), Clip(screen.height, lastCursorPosition.y);
      assert Undone(f, bg, t, 0, frame[..]) by {
        NothingUndone(f, bg, t);
      }
      var y: nat := 0;
      while y < yMax
        invariant y == 0 || y <= yMax
        invariant Undone(f, bg, t, y * SIDE, frame[..])
      {
        hide Undone, StampOk, ScreenOk, Placeable, Painted, Under, PixelAt, Coordinate, Clear;
        var x: nat := 0;
        while x < xMax
          invariant x == 0 || x <= xMax
          invariant Undone(f, bg, t, y * SIDE + x, frame[..])
        {
          var bit := y * SIDE + x;
          CellPainted(t, x, y);
          if cursorBitmap[bit] == 1 {
            RestoreCell(f, bg, t, bit, frame[..]);
            PutPixel(Coordinate(lastCursorPosition.x, x), Coordinate(lastCursorPosition.y, y),
              lastCursorBackground[bit]);
          } else {
            SkipRestore(f, bg, t, bit, bit + 1, frame[..]);
          }
          x := x + 1;
        }
        RowEnd(t, x, y);
        SkipRestore(f, bg, t, y * SIDE + x, (y + 1) * SIDE, frame[..]);
        y := y + 1;
      }
      LastRow(t, y);
      SkipRestore(f, bg, t, y * SIDE, CELLS, frame[..]);
    }
  }
}
