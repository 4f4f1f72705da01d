/**
 * The pointer geometry of the draggable event component (src/DraggableEvent.jsx): which
 * border zone a press falls in, how a resize moves the edges under the minimum height,
 * when a press turns into a drag, and which column a dragged event hovers over.
 */
module DraggableEvent {
  import opened Wrappers
  import opened Geometry

  /** `DRAG_THRESHOLD`: a press moving farther than this, in pixels, counts as a move. */
  const DragThreshold: real := 5.0
  /** `RESIZE_ZONE_HEIGHT`: the height of the top and bottom resize bands. */
  const ResizeZoneHeight: real := 8.0
  /** The minimum height a resize may leave (`minHeight`). */
  const MinHeight: real := 20.0

  datatype Zone = Top | Bottom

  // ---------------------------------------------------------------------------
  // detectBorderZone

  /**
   * `detectBorderZone(e)` for a press at `clientY`; `rect` is the event element's rectangle,
   * None while the element is not mounted.
   */
  function DetectBorderZone(clientY: real, rect: Option<ClientRect>): Option<Zone> {
    match rect
    case None => None
    case Some(r) =>
      var mouseY := clientY - r.top;
      if mouseY <= ResizeZoneHeight then Some(Top)
      else if mouseY >= r.height - ResizeZoneHeight then Some(Bottom)
      else None
  }

  /**
   * The three outcomes: the top band is the first 8 pixels, the bottom band the last 8
   * pixels outside the top band, and a press falls in neither exactly when it is strictly
   * between them. When the bands overlap (an element at most 16 pixels high) the top wins.
   */
  lemma BorderZoneBands(clientY: real, r: ClientRect)
    ensures var z := DetectBorderZone(clientY, Some(r));
            var mouseY := clientY - r.top;
            && (z == Some(Top) <==> mouseY <= ResizeZoneHeight)
            && (z == Some(Bottom) <==> ResizeZoneHeight < mouseY && r.height - ResizeZoneHeight <= mouseY)
            && (z.None? <==> ResizeZoneHeight < mouseY < r.height - ResizeZoneHeight)
            && (mouseY <= ResizeZoneHeight && r.height - ResizeZoneHeight <= mouseY ==> z == Some(Top))
  {}

  lemma BorderZoneUnmounted(clientY: real)
    ensures DetectBorderZone(clientY, None).None?
  {}

  // ---------------------------------------------------------------------------
  // Resize geometry of handleMouseMove

  /** What the move handler asks of the engine after computing a resize. */
  datatype EngineCall = UpdateTop(top: real) | UpdateBottom(bottom: real)

  datatype Resized = Resized(newTop: real, newHeight: real, call: Option<EngineCall>)

  /** The height a resize asks for before the minimum is enforced. */
  function ProposedHeight(mode: Option<Zone>, initialHeight: real, deltaY: real): real {
    match mode
    case Some(Top) => initialHeight - deltaY
    case Some(Bottom) => initialHeight + deltaY
    case None => initialHeight
  }

  /**
   * One resizing move of `handleMouseMove`: `mode` is the `resizeMode` set on mouse-down,
   * `initialTop`/`initialHeight` the element's offset top and height then, and `deltaY` the
   * pointer's vertical travel since.
   */
  function Resize(mode: Option<Zone>, initialTop: real, initialHeight: real, deltaY: real): Resized {
    var top := if mode == Some(Top) then initialTop + deltaY else initialTop;
    var height := ProposedHeight(mode, initialHeight, deltaY);
    var clamped := height < MinHeight;
    var newTop := if clamped && mode == Some(Top) then initialTop + (initialHeight - MinHeight) else top;
    var newHeight := if clamped then MinHeight else height;
    var call := match mode
                case Some(Top) => Some(UpdateTop(newTop))
                case Some(Bottom) => Some(UpdateBottom(initialTop + initialHeight + deltaY))
                case None => None;
    Resized(newTop, newHeight, call)
  }

  /** The height is the proposed one raised to the minimum, so never below 20. */
  lemma ResizeHeight(mode: Option<Zone>, initialTop: real, initialHeight: real, deltaY: real)
    ensures var r := Resize(mode, initialTop, initialHeight, deltaY);
            var h := ProposedHeight(mode, initialHeight, deltaY);
            && MinHeight <= r.newHeight
            && (h >= MinHeight ==> r.newHeight == h)
            && (h < MinHeight ==> r.newHeight == MinHeight)
  {}

  /**
   * A top-edge resize holds the bottom edge where it was, clamped or not; clamped, the top
   * sits 20 pixels above that bottom edge. The engine is told the new top.
   */
  lemma ResizeTopKeepsBottom(initialTop: real, initialHeight: real, deltaY: real)
    ensures var r := Resize(Some(Top), initialTop, initialHeight, deltaY);
            && r.newTop + r.newHeight == initialTop + initialHeight
            && (initialHeight - deltaY < MinHeight ==> r.newTop == initialTop + initialHeight - MinHeight)
            && (initialHeight - deltaY >= MinHeight ==> r.newTop == initialTop + deltaY)
            && r.call == Some(UpdateTop(r.newTop))
  {}

  /**
   * A bottom-edge resize never moves the top; unclamped, the height grows by `deltaY`. The
   * engine is told the pointer's bottom edge `initialTop + initialHeight + deltaY`, even when
   * the clamp raised the height.
   */
  lemma ResizeBottomKeepsTop(initialTop: real, initialHeight: real, deltaY: real)
    ensures var r := Resize(Some(Bottom), initialTop, initialHeight, deltaY);
            && r.newTop == initialTop
            && (initialHeight + deltaY >= MinHeight ==> r.newHeight == initialHeight + deltaY)
            && r.call == Some(UpdateBottom(initialTop + initialHeight + deltaY))
  {}

  /** Without a resize mode nothing moves except the minimum clamp, and the engine is not called. */
  lemma ResizeWithoutMode(initialTop: real, initialHeight: real, deltaY: real)
    ensures var r := Resize(None, initialTop, initialHeight, deltaY);
            r.newTop == initialTop && r.call.None? && (initialHeight >= MinHeight ==> r.newHeight == initialHeight)
  {}

  // ---------------------------------------------------------------------------
  // Drag threshold

  /** `totalMovement > DRAG_THRESHOLD`, compared on squares. */
  predicate ExceedsThreshold(dx: real, dy: real) {
    dx * dx + dy * dy > DragThreshold * DragThreshold
  }

  lemma SquareMonotone(a: real, b: real)
    requires 0.0 <= a <= b
    ensures a * a <= b * b
  {
    assert a * a <= a * b;
  }

  lemma SquareStrictMonotone(a: real, b: real)
    requires 0.0 <= a < b
    ensures a * a < b * b
  {
    var d := b - a;
    assert b * b == (a + d) * (a + d);
    assert (a + d) * (a + d) == a * a + 2.0 * a * d + d * d;
    assert 0.0 <= a * d;
    assert 0.0 < d * d;
  }

  /** With `dist` the square root of `dx² + dy²`, `dist > 5` exactly when `dx² + dy² > 25`. */
  lemma ThresholdOnSquares(dx: real, dy: real, dist: real)
    requires 0.0 <= dist && dist * dist == dx * dx + dy * dy
    ensures dist > DragThreshold <==> ExceedsThreshold(dx, dy)
  {
    if dist > DragThreshold {
      SquareStrictMonotone(DragThreshold, dist);
    } else {
      SquareMonotone(dist, DragThreshold);
    }
  }

  /** A pointer position. */
  datatype Point = Point(x: real, y: real)

  /**
   * `hasMoved` after the move events `moves` of one press that started at `start`: each
   * move beyond the threshold sets it, and no move clears it.
   */
  function HasMovedAfter(hasMoved: bool, start: Point, moves: seq<Point>): bool {
    if moves == [] then hasMoved
    else
      var m := moves[|moves| - 1];
      HasMovedAfter(hasMoved, start, moves[..|moves| - 1]) || ExceedsThreshold(m.x - start.x, m.y - start.y)
  }

  /**
   * Starting from mouse-down (which clears the flag), the press has moved exactly when some
   * move went beyond the threshold; once set, no move clears the flag.
   */
  lemma {:induction false} HasMovedExactly(hasMoved: bool, start: Point, moves: seq<Point>)
    ensures HasMovedAfter(hasMoved, start, moves) <==>
              hasMoved || exists i :: 0 <= i < |moves| && ExceedsThreshold(moves[i].x - start.x, moves[i].y - start.y)
  {
    if moves != [] {
      var init := moves[..|moves| - 1];
      HasMovedExactly(hasMoved, start, init);
      assert forall i :: 0 <= i < |init| ==> init[i] == moves[i];
    }
  }

  // ---------------------------------------------------------------------------
  // detectHoveredColumn

  /** The dragged rectangle's centre x lies in the column's [left, right] and its top and
      bottom lie in the column's [top, bottom], bounds included. */
  predicate Hovers(dragged: ClientRect, column: ClientRect) {
    var centerX := dragged.left + dragged.width / 2.0;
    && column.left <= centerX <= column.right
    && column.top <= dragged.top
    && dragged.bottom <= column.bottom
  }

  /** `detectHoveredColumn`: the index of the first column, in list order, that the dragged
      rectangle hovers over, None when there is none. */
  method DetectHoveredColumn(dragged: ClientRect, columns: seq<ClientRect>) returns (r: Option<nat>)
    ensures r.None? <==> forall i :: 0 <= i < |columns| ==> !Hovers(dragged, columns[i])
    ensures r.Some? ==> r.value < |columns| && Hovers(dragged, columns[r.value])
                        && forall j :: 0 <= j < r.value ==> !Hovers(dragged, columns[j])
  {
    var draggedCenterX := dragged.left + dragged.width / 2.0;
    for i := 0 to |columns|
      invariant forall j :: 0 <= j < i ==> !Hovers(dragged, columns[j])
    {
      var box := columns[i];
      if draggedCenterX >= box.left && draggedCenterX <= box.right {
        if dragged.top >= box.top && dragged.bottom <= box.bottom {
          return Some(i);
        }
      }
    }
    return None;
  }
}
