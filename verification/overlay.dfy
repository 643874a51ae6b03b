/** `SelectionOverlayView`: a drag on the view selects a rectangle of the bitmap the
    view shows. The view's own coordinates are `Float`s; the model treats them as
    exact reals and models `toInt()` and `coerceIn` exactly. */
module Overlay {
  import opened Pixels
  import opened Images
  import opened Results
  import Resize

  /** The view's touch state: where the drag started, where it is now, whether a
      finger is down. */
  datatype Touch = Touch(startX: real, startY: real, endX: real, endY: real, dragging: bool)

  /** All coordinates `0f`, not dragging. */
  const Initial: Touch := Touch(0.0, 0.0, 0.0, 0.0, false)

  /** The `MotionEvent` actions the view tells apart, with their coordinates. */
  datatype Event = Down(x: real, y: real) | Move(x: real, y: real) | Up | OtherAction

  /** `onTouchEvent`: the new state, and `true` (the view consumes every event). */
  function OnTouchEvent(s: Touch, e: Event): (r: (Touch, bool))
    ensures r.1
    // a press puts both corners on the touch point and starts a drag
    ensures e.Down? ==> r.0 == Touch(e.x, e.y, e.x, e.y, true)
    // a move drags the end corner only
    ensures e.Move? ==> r.0 == s.(endX := e.x, endY := e.y)
    // a release ends the drag and keeps the rectangle
    ensures e.Up? ==> r.0 == s.(dragging := false)
    ensures e.OtherAction? ==> r.0 == s
  {
    match e
    case Down(x, y) => (Touch(x, y, x, y, true), true)
    case Move(x, y) => (s.(endX := x, endY := y), true)
    case Up => (s.(dragging := false), true)
    case OtherAction => (s, true)
  }

  /** The state after a sequence of events. */
  function Replay(s: Touch, events: seq<Event>): (r: Touch)
    decreases |events|
  {
    if |events| == 0 then s else Replay(OnTouchEvent(s, events[0]).0, events[1..])
  }

  /** A drag press, moves, release: the rectangle runs from the press to the last move. */
  lemma {:induction false} ReplayMoves(s: Touch, moves: seq<Event>)
    requires forall i :: 0 <= i < |moves| ==> moves[i].Move?
    decreases |moves|
    ensures var r := Replay(s, moves);
            && r.startX == s.startX && r.startY == s.startY && r.dragging == s.dragging
            && (|moves| == 0 ==> r.endX == s.endX && r.endY == s.endY)
            && (|moves| > 0 ==> r.endX == moves[|moves| - 1].x && r.endY == moves[|moves| - 1].y)
  {
    if |moves| > 0 {
      var next := OnTouchEvent(s, moves[0]).0;
      assert forall i :: 0 <= i < |moves[1..]| ==> moves[1..][i] == moves[i + 1];
      ReplayMoves(next, moves[1..]);
      if |moves| > 1 {
        assert moves[1..][|moves[1..]| - 1] == moves[|moves| - 1];
      }
    }
  }

  /** Kotlin's `Float.toInt()`: toward zero, saturating at the `Int` range. */
  const IntMin: int := -0x8000_0000
  const IntMax: int := 0x7FFF_FFFF

  function ToInt(r: real): (n: int)
    ensures IntMin <= n <= IntMax
    // toward zero: the magnitude drops its fraction and the sign is kept
    ensures 0.0 <= r ==> 0 <= n && n as real <= r && (r < (n + 1) as real || n == IntMax)
    ensures r < 0.0 ==> n <= 0 && r <= n as real && ((n - 1) as real < r || n == IntMin)
  {
    var t := if r >= 0.0 then r.Floor else -((-r).Floor);
    if t > IntMax then IntMax else if t < IntMin then IntMin else t
  }

  /** `value.coerceAtLeast(lo).coerceAtMost(hi)` for `lo <= hi`. */
  function Clamp(value: int, lo: int, hi: int): (r: int)
    requires lo <= hi
    ensures lo <= r <= hi
    ensures lo <= value <= hi ==> r == value
    ensures value < lo ==> r == lo
    ensures value > hi ==> r == hi
  {
    if value < lo then lo else if value > hi then hi else value
  }

  /** Kotlin's `coerceIn(lo, hi)`: rejects an empty range. */
  function CoerceIn(value: int, lo: int, hi: int): (r: Result<int>)
    ensures r.Ok? <==> lo <= hi
    ensures r.Ok? ==> lo <= r.value <= hi && (lo <= value <= hi ==> r.value == value)
    ensures r.Err? ==> r.error == EmptyRange(lo, hi)
  {
    if lo > hi then Err(EmptyRange(lo, hi)) else Ok(Clamp(value, lo, hi))
  }

  /** No rectangle was dragged out: a tap, or a purely horizontal or vertical drag. */
  predicate Degenerate(s: Touch) {
    s.startX == s.endX || s.startY == s.endY
  }

  /** The bitmap column under view coordinate `vx`, clamped to `0..limit`; `side`
      is the bitmap's extent and `view` the view's along the same axis. */
  function Corner(vx: real, side: int, view: int, limit: int): (x: int)
    requires view >= 1 && 0 <= limit
  {
    Clamp(ToInt(vx * (side as real / view as real)), 0, limit)
  }

  /** The selection's extent along one axis: `((end - start) * scale).toInt()`. */
  function Extent(start: real, end: real, side: int, view: int): int
    requires view >= 1
  {
    ToInt((end - start) * (side as real / view as real))
  }

  /** `Bitmap.createBitmap(source, x, y, width, height)`: the pixels of the rectangle. */
  function Crop(b: Bitmap, rect: Rect): (r: Bitmap)
    requires b.Valid()
    requires 0 <= rect.x && 1 <= rect.width && rect.x + rect.width <= b.width
    requires 0 <= rect.y && 1 <= rect.height && rect.y + rect.height <= b.height
    ensures r.Valid() && r.width == rect.width && r.height == rect.height
    ensures forall i, j :: 0 <= i < rect.height && 0 <= j < rect.width ==>
              CropIndex(rect.width, i, j) < |r.pixels|
              && r.pixels[CropIndex(rect.width, i, j)] == b.pixels[SourceIndex(b, rect, i, j)]
  {
    var n := rect.width * rect.height;
    var px := seq(n, k requires 0 <= k < n => CropPixel(b, rect, k));
    forall i, j | 0 <= i < rect.height && 0 <= j < rect.width
      ensures CropIndex(rect.width, i, j) < n
      ensures px[CropIndex(rect.width, i, j)] == b.pixels[SourceIndex(b, rect, i, j)]
    {
      CellInBounds(i, j, rect.height, rect.width);
      var k := CropIndex(rect.width, i, j);
      RowColumn(k, rect.width, i, j);
    }
    Bitmap(rect.width, rect.height, px)
  }

  /** Row-major index of cell `(i, j)` of a `width`-wide grid. */
  function CropIndex(width: nat, i: nat, j: nat): nat {
    i * width + j
  }

  /** Splitting a row-major index recovers its row and column. */
  lemma RowColumn(k: nat, width: nat, i: nat, j: nat)
    requires j < width && k == i * width + j
    ensures k / width == i && k % width == j
  {
    var q, r := k / width, k % width;
    assert k == q * width + r;
    if q > i {
      Resize.MulMonotonic(i + 1, q, width);
    } else if q < i {
      Resize.MulMonotonic(q + 1, i, width);
    }
  }

  /** Index in `b.pixels` of cell `(i, j)` of the rectangle. */
  function SourceIndex(b: Bitmap, rect: Rect, i: nat, j: nat): (k: nat)
    requires b.Valid()
    requires 0 <= rect.x && rect.x + rect.width <= b.width && 0 <= rect.y && rect.y + rect.height <= b.height
    requires i < rect.height && j < rect.width
    ensures k < |b.pixels|
  {
    CellInBounds(rect.y + i, rect.x + j, b.height, b.width);
    (rect.y + i) * b.width + rect.x + j
  }

  /** Pixel `k` of the crop, counted row-major. */
  function CropPixel(b: Bitmap, rect: Rect, k: int): Pixel
    requires b.Valid()
    requires 0 <= rect.x && 1 <= rect.width && rect.x + rect.width <= b.width
    requires 0 <= rect.y && 1 <= rect.height && rect.y + rect.height <= b.height
    requires 0 <= k < rect.width * rect.height
  {
    Resize.DivBelow(k, rect.width, rect.height);
    b.pixels[SourceIndex(b, rect, k / rect.width, k % rect.width)]
  }

  /** A rectangle of at least one pixel inside a `width` by `height` bitmap. */
  predicate Inside(rect: Rect, width: int, height: int) {
    && 0 <= rect.x && 1 <= rect.width && rect.x + rect.width <= width
    && 0 <= rect.y && 1 <= rect.height && rect.y + rect.height <= height
  }

  /** Along one axis: the drag's extent when it fits between the corner and the
      bitmap's edge, the distance to the edge when it overshoots, one pixel when it
      is reversed or shorter than a pixel. */
  predicate Fitted(length: int, extent: int, room: int) {
    && (1 <= extent <= room ==> length == extent)
    && (extent > room ==> length == room)
    && (extent < 1 ==> length == 1)
  }

  /** The rectangle `getSelectedRegion` cuts, for a bitmap of `bitmapWidth` by
      `bitmapHeight` shown in a view of `viewWidth` by `viewHeight`: `None` for a
      degenerate drag, an error when a press on the bitmap's right or bottom edge
      leaves `coerceIn` an empty range. */
  function SelectionRect(s: Touch, bitmapWidth: int, bitmapHeight: int, viewWidth: int, viewHeight: int)
    : (r: Result<Option<Rect>>)
    requires bitmapWidth >= 1 && bitmapHeight >= 1 && viewWidth >= 1 && viewHeight >= 1
    ensures Degenerate(s) <==> r == Ok(None)
    ensures
      var x := Corner(s.startX, bitmapWidth, viewWidth, bitmapWidth);
      var y := Corner(s.startY, bitmapHeight, viewHeight, bitmapHeight);
      && (!Degenerate(s) ==> (r.Err? <==> x == bitmapWidth || y == bitmapHeight))
      && (r.Err? ==> r.error == EmptyRange(1, 0))
      && (r.Ok? && r.value.Some? ==>
            var rect := r.value.value;
            && Inside(rect, bitmapWidth, bitmapHeight)
            // the corner is the press point, scaled into the bitmap
            && rect.x == x && rect.y == y
            && Fitted(rect.width, Extent(s.startX, s.endX, bitmapWidth, viewWidth), bitmapWidth - x)
            && Fitted(rect.height, Extent(s.startY, s.endY, bitmapHeight, viewHeight), bitmapHeight - y))
  {
    if Degenerate(s) then Ok(None)
    else
      var x := Corner(s.startX, bitmapWidth, viewWidth, bitmapWidth);
      var y := Corner(s.startY, bitmapHeight, viewHeight, bitmapHeight);
      var width :- CoerceIn(Extent(s.startX, s.endX, bitmapWidth, viewWidth), 1, bitmapWidth - x);
      var height :- CoerceIn(Extent(s.startY, s.endY, bitmapHeight, viewHeight), 1, bitmapHeight - y);
      Ok(Some(Rect(x, y, width, height)))
  }

  /** `getSelectedRegion()`: the selected part of the bitmap. */
  function SelectedRegion(s: Touch, bitmap: Bitmap, viewWidth: int, viewHeight: int)
    : (r: Result<Option<Bitmap>>)
    requires bitmap.Valid() && viewWidth >= 1 && viewHeight >= 1
    ensures r.Ok? <==> SelectionRect(s, bitmap.width, bitmap.height, viewWidth, viewHeight).Ok?
    ensures Degenerate(s) <==> r == Ok(None)
    // the region holds exactly the selected rectangle's pixels
    ensures r.Ok? && r.value.Some? ==>
              var rect := SelectionRect(s, bitmap.width, bitmap.height, viewWidth, viewHeight).value.value;
              var region := r.value.value;
              && Inside(rect, bitmap.width, bitmap.height)
              && region.Valid() && region.width == rect.width && region.height == rect.height
              && forall i, j :: 0 <= i < rect.height && 0 <= j < rect.width ==>
                   CropIndex(rect.width, i, j) < |region.pixels|
                   && region.pixels[CropIndex(rect.width, i, j)] == bitmap.pixels[SourceIndex(bitmap, rect, i, j)]
  {
    var rect :- SelectionRect(s, bitmap.width, bitmap.height, viewWidth, viewHeight);
    if rect.None? then Ok(None) else Ok(Some(Crop(bitmap, rect.value)))
  }

  /** A tap (press and release without a move) selects nothing. */
  lemma TapSelectsNothing(s: Touch, x: real, y: real, bitmap: Bitmap, viewWidth: int, viewHeight: int)
    requires bitmap.Valid() && viewWidth >= 1 && viewHeight >= 1
    ensures SelectedRegion(Replay(s, [Down(x, y), Up]), bitmap, viewWidth, viewHeight) == Ok(None)
  {
    assert Replay(s, [Down(x, y), Up]) == Touch(x, y, x, y, false) by {
      assert [Down(x, y), Up][1..] == [Up];
      assert [Up][1..] == [];
    }
  }

  /** A leftward (or upward) drag selects a rectangle one pixel wide (high). */
  lemma ReversedDragIsOnePixel(s: Touch, bitmap: Bitmap, viewWidth: int, viewHeight: int)
    requires bitmap.Valid() && viewWidth >= 1 && viewHeight >= 1
    requires SelectionRect(s, bitmap.width, bitmap.height, viewWidth, viewHeight).Ok?
    requires SelectionRect(s, bitmap.width, bitmap.height, viewWidth, viewHeight).value.Some?
    ensures var rect := SelectionRect(s, bitmap.width, bitmap.height, viewWidth, viewHeight).value.value;
            && (s.endX < s.startX ==> rect.width == 1)
            && (s.endY < s.startY ==> rect.height == 1)
  {
    var scaleX := bitmap.width as real / viewWidth as real;
    var scaleY := bitmap.height as real / viewHeight as real;
    assert s.endX < s.startX ==> (s.endX - s.startX) * scaleX < 0.0 by {
      if s.endX < s.startX {
        NegativeTimesPositive(s.endX - s.startX, scaleX);
      }
    }
    assert s.endY < s.startY ==> (s.endY - s.startY) * scaleY < 0.0 by {
      if s.endY < s.startY {
        NegativeTimesPositive(s.endY - s.startY, scaleY);
      }
    }
  }

  lemma NegativeTimesPositive(a: real, b: real)
    requires a < 0.0 && b > 0.0
    ensures a * b < 0.0
  {
  }

  /** The bitmap as a view of equal size and a press on its right edge dragged
      back to the middle: `coerceIn(1, 0)` throws. */
  lemma PressOnRightEdgeFails()
    ensures
      var bitmap := Bitmap(100, 100, seq(10000, _ => 0));
      var s := Replay(Initial, [Down(100.0, 0.0), Move(50.0, 50.0)]);
      SelectedRegion(s, bitmap, 100, 100) == Err(EmptyRange(1, 0))
  {
    var s := Replay(Initial, [Down(100.0, 0.0), Move(50.0, 50.0)]);
    assert s == Touch(100.0, 0.0, 50.0, 50.0, true) by {
      assert [Down(100.0, 0.0), Move(50.0, 50.0)][1..] == [Move(50.0, 50.0)];
      assert [Move(50.0, 50.0)][1..] == [];
    }
    assert Corner(100.0, 100, 100, 100) == 100;
  }

  /** The rectangle with the press point clamped to the last column and row
      (`coerceIn(0, width - 1)`), which leaves every later range non-empty. */
  function SafeSelectionRect(s: Touch, bitmapWidth: int, bitmapHeight: int, viewWidth: int, viewHeight: int)
    : (r: Option<Rect>)
    requires bitmapWidth >= 1 && bitmapHeight >= 1 && viewWidth >= 1 && viewHeight >= 1
    ensures Degenerate(s) <==> r.None?
    ensures r.Some? ==>
              var rect := r.value;
              && Inside(rect, bitmapWidth, bitmapHeight)
              && rect.x == Corner(s.startX, bitmapWidth, viewWidth, bitmapWidth - 1)
              && rect.y == Corner(s.startY, bitmapHeight, viewHeight, bitmapHeight - 1)
              && Fitted(rect.width, Extent(s.startX, s.endX, bitmapWidth, viewWidth), bitmapWidth - rect.x)
              && Fitted(rect.height, Extent(s.startY, s.endY, bitmapHeight, viewHeight), bitmapHeight - rect.y)
  {
    if Degenerate(s) then None
    else
      var x := Corner(s.startX, bitmapWidth, viewWidth, bitmapWidth - 1);
      var y := Corner(s.startY, bitmapHeight, viewHeight, bitmapHeight - 1);
      var width := Clamp(Extent(s.startX, s.endX, bitmapWidth, viewWidth), 1, bitmapWidth - x);
      var height := Clamp(Extent(s.startY, s.endY, bitmapHeight, viewHeight), 1, bitmapHeight - y);
      Some(Rect(x, y, width, height))
  }

  /** The corrected rectangle never fails and agrees with the original wherever the
      original succeeds. */
  lemma SafeSelectionAgrees(s: Touch, bitmapWidth: int, bitmapHeight: int, viewWidth: int, viewHeight: int)
    requires bitmapWidth >= 1 && bitmapHeight >= 1 && viewWidth >= 1 && viewHeight >= 1
    ensures var r := SelectionRect(s, bitmapWidth, bitmapHeight, viewWidth, viewHeight);
            r.Ok? ==> r.value == SafeSelectionRect(s, bitmapWidth, bitmapHeight, viewWidth, viewHeight)
  {
  }

  /** `getSelectedRegion` with the corrected rectangle: always a region inside the
      bitmap once a rectangle was dragged out. */
  function SafeSelectedRegion(s: Touch, bitmap: Bitmap, viewWidth: int, viewHeight: int)
    : (r: Option<Bitmap>)
    requires bitmap.Valid() && viewWidth >= 1 && viewHeight >= 1
    ensures Degenerate(s) <==> r.None?
    ensures r.Some? ==>
              var rect := SafeSelectionRect(s, bitmap.width, bitmap.height, viewWidth, viewHeight).value;
              && Inside(rect, bitmap.width, bitmap.height)
              && r.value.Valid() && r.value.width == rect.width && r.value.height == rect.height
              && forall i, j :: 0 <= i < rect.height && 0 <= j < rect.width ==>
                   CropIndex(rect.width, i, j) < |r.value.pixels|
                   && r.value.pixels[CropIndex(rect.width, i, j)] == bitmap.pixels[SourceIndex(bitmap, rect, i, j)]
  {
    var rect := SafeSelectionRect(s, bitmap.width, bitmap.height, viewWidth, viewHeight);
    if rect.None? then None else Some(Crop(bitmap, rect.value))
  }
}
