/**
 * The arithmetic and mode logic of the optical-bench layout tool
 * (experiments/layout/layout.js): snapping positions to a 20-pixel grid,
 * rotation bookkeeping with JavaScript's truncating `%`, the arrow-key
 * dispatch while dragging, and the placing / dragging state. DOM elements
 * are records of their position and rotation.
 */
module Layout {

  datatype Option<T> = None | Some(value: T)

  /** Pixel size of the snapping grid. */
  const GridSize: int := 20

  /** `Math.round`: the integer nearest to x, halves rounded up (towards +∞). */
  function MathRound(x: real): (n: int)
    ensures n as real - 0.5 <= x < n as real + 0.5
  {
    (x + 0.5).Floor
  }

  /** `snapToGrid`: round value / 20 to an integer and scale back. The result
      is a multiple of 20 at most 10 below and less than 10 above the value;
      a value exactly between two multiples goes to the upper one. */
  function SnapToGrid(value: int): (s: int)
    ensures s % GridSize == 0
    ensures value - 10 < s <= value + 10
  {
    MathRound(value as real / GridSize as real) * GridSize
  }

  /** The snapped value is the only multiple of 20 in (value - 10, value + 10]. */
  lemma SnapIsUnique(value: int, m: int)
    requires m % GridSize == 0 && value - 10 < m <= value + 10
    ensures m == SnapToGrid(value)
  {
  }

  /** Snapping a snapped value changes nothing. */
  lemma SnapIsIdempotent(value: int)
    ensures SnapToGrid(SnapToGrid(value)) == SnapToGrid(value)
  {
  }

  /** Snapping preserves order. */
  lemma SnapIsMonotone(v: int, w: int)
    requires v <= w
    ensures SnapToGrid(v) <= SnapToGrid(w)
  {
  }

  /** No multiple of 20 is closer to the value than the snapped one. */
  lemma SnapIsNearest(value: int, m: int)
    requires m % GridSize == 0
    ensures var s := SnapToGrid(value);
      (if s >= value then s - value else value - s) <= (if m >= value then m - value else value - m)
  {
  }

  /** JavaScript's `a % 360`: the remainder of division truncated towards
      zero, which takes the sign of the dividend (Dafny's own `%` is
      Euclidean and never negative). */
  function JsRem360(a: int): (r: int)
    ensures -360 < r < 360
    ensures a >= 0 ==> r >= 0
    ensures a <= 0 ==> r <= 0
    ensures (a - r) % 360 == 0
  {
    if a >= 0 then a % 360 else -((-a) % 360)
  }

  /** An optical element as the layout code sees it: its CSS position in
      pixels and its `data-rotation` in degrees (0 when the attribute is unset). */
  datatype Element = Element(left: int, top: int, rotation: int)

  /** An element as `startPlacingElement` creates it: no position set yet and
      no rotation attribute. */
  const Fresh: Element := Element(0, 0, 0)

  /** `rotateElement`: store (current + angle) % 360 with JavaScript's `%`. The
      stored angle lies strictly between -360 and 360, takes the sign of
      current + angle and shows the same orientation. */
  function Rotate(e: Element, angle: int): (r: Element)
    ensures r.left == e.left && r.top == e.top
    ensures -360 < r.rotation < 360
    ensures e.rotation + angle >= 0 ==> r.rotation >= 0
    ensures e.rotation + angle <= 0 ==> r.rotation <= 0
    ensures (r.rotation - (e.rotation + angle)) % 360 == 0
  {
    e.(rotation := JsRem360(e.rotation + angle))
  }

  /** n successive rotations by the same angle. */
  function RotateTimes(e: Element, angle: int, n: nat): Element
    decreases n
  {
    if n == 0 then e else RotateTimes(Rotate(e, angle), angle, n - 1)
  }

  /** After n rotations by `angle` the stored rotation shows the orientation
      of e.rotation + n * angle, and it stays strictly within one turn. */
  lemma {:induction false} RotateTimesTracksTotal(e: Element, angle: int, n: nat)
    ensures (RotateTimes(e, angle, n).rotation - (e.rotation + n * angle)) % 360 == 0
    ensures n > 0 ==> -360 < RotateTimes(e, angle, n).rotation < 360
    decreases n
  {
    if n > 0 {
      var e1 := Rotate(e, angle);
      RotateTimesTracksTotal(e1, angle, n - 1);
      var total := RotateTimes(e, angle, n).rotation;
      assert total == RotateTimes(e1, angle, n - 1).rotation;
      var a := total - (e1.rotation + (n - 1) * angle);
      var b := e1.rotation - (e.rotation + angle);
      assert a % 360 == 0 && b % 360 == 0;
      assert (n - 1) * angle + angle == n * angle;
      assert total - (e.rotation + n * angle) == a + b;
      assert a == 360 * (a / 360) && b == 360 * (b / 360);
      assert a + b == 360 * (a / 360 + b / 360);
    }
  }

  /** Eight ArrowRight presses (+45 each) bring an unrotated element back to 0. */
  lemma EightStepsTurnFull(e: Element)
    requires e.rotation == 0
    ensures RotateTimes(e, 45, 8).rotation == 0
  {
  }

  /** The keys `transformOnDrag` distinguishes; `OtherKey` stands for every
      key that is not an arrow key. */
  datatype Key = ArrowLeft | ArrowRight | ArrowUp | ArrowDown | OtherKey

  /** The placing and dragging globals of the layout tool, with the elements
      in the container identified by their position in `placed`. */
  class Workspace {
    /** `placingElement`: the element following the cursor, if any. */
    var placing: Option<Element>
    /** The optical elements in the container, in insertion order. */
    var placed: seq<Element>
    /** `draggingElement`, as an index into `placed`. */
    var dragging: Option<nat>
    /** `selectedElement`, as an index into `placed`. */
    var selected: Option<nat>
    var isDragging: bool
    var offsetX: int
    var offsetY: int

    /** `isDragging` holds exactly when an element is being dragged, that
        element is the selected one, and every rotation is within one turn. */
    ghost predicate Valid()
      reads this
    {
      && (isDragging <==> dragging.Some?)
      && selected == dragging
      && (dragging.Some? ==> dragging.value < |placed|)
      && (placing.Some? ==> -360 < placing.value.rotation < 360)
      && forall k :: 0 <= k < |placed| ==> -360 < placed[k].rotation < 360
    }

    /** The state when the page loads. */
    constructor ()
      ensures Valid()
      ensures placing == None && placed == [] && dragging == None && !isDragging
    {
      placing, placed, dragging, selected := None, [], None, None;
      isDragging := false;
      offsetX, offsetY := 0, 0;
    }

    /** `startPlacingElement`: discard any element still being placed and start
        placing a fresh one. */
    method StartPlacing()
      requires Valid()
      modifies this
      ensures Valid()
      ensures placing == Some(Fresh)
      ensures placed == old(placed) && dragging == old(dragging) && isDragging == old(isDragging)
      ensures selected == old(selected) && offsetX == old(offsetX) && offsetY == old(offsetY)
    {
      placing := Some(Fresh);
    }

    /** `moveElementWithCursor`: the element being placed follows the cursor. */
    method MoveWithCursor(pageX: int, pageY: int)
      requires Valid()
      modifies this
      ensures Valid()
      ensures placing == (if old(placing).Some? then Some(old(placing).value.(left := pageX - 20, top := pageY - 40)) else None)
      ensures placed == old(placed) && dragging == old(dragging) && isDragging == old(isDragging)
      ensures selected == old(selected) && offsetX == old(offsetX) && offsetY == old(offsetY)
    {
      if placing.Some? {
        placing := Some(placing.value.(left := pageX - 20, top := pageY - 40));
      }
    }

    /** `placeElement`: a click below the top of the container drops the
        element being placed into the container at a snapped position and ends
        placing; any other click, or a click while nothing is being placed,
        changes nothing. */
    method PlaceElement(pageX: int, pageY: int, containerLeft: int, containerTop: int) returns (done: bool)
      requires Valid()
      modifies this
      ensures Valid()
      ensures done <==> old(placing).Some? && pageY > containerTop
      ensures done ==> placing == None && placed == old(placed) + [old(placing).value.(
        left := SnapToGrid(pageX - containerLeft - 20), top := SnapToGrid(pageY - containerTop - 40))]
      ensures !done ==> placing == old(placing) && placed == old(placed)
      ensures dragging == old(dragging) && isDragging == old(isDragging)
      ensures selected == old(selected) && offsetX == old(offsetX) && offsetY == old(offsetY)
    {
      done := false;
      if placing.Some? {
        if pageY > containerTop {
          var e := placing.value.(
            left := SnapToGrid(pageX - containerLeft - 20), top := SnapToGrid(pageY - containerTop - 40));
          placed := placed + [e];
          placing := None;
          done := true;
        }
      }
    }

    /** The mousedown listener of `makeDraggable`: start dragging element k. */
    method MouseDown(k: nat, eventOffsetX: int, eventOffsetY: int)
      requires Valid() && k < |placed|
      modifies this
      ensures Valid()
      ensures isDragging && dragging == Some(k) && selected == Some(k)
      ensures offsetX == eventOffsetX && offsetY == eventOffsetY
      ensures placing == old(placing) && placed == old(placed)
    {
      dragging := Some(k);
      offsetX, offsetY := eventOffsetX, eventOffsetY;
      isDragging := true;
      selected := Some(k);
    }

    /** The mouseup listener of `makeDraggable`: stop dragging if dragging. */
    method MouseUp()
      requires Valid()
      modifies this
      ensures Valid()
      ensures !isDragging && dragging == None && selected == None
      ensures placing == old(placing) && placed == old(placed)
      ensures offsetX == old(offsetX) && offsetY == old(offsetY)
    {
      if isDragging {
        dragging := None;
        isDragging := false;
        selected := None;
      }
    }

    /** `dragElement`: the dragged element follows the cursor, snapped, relative
        to its container. */
    method DragElement(pageX: int, pageY: int, containerLeft: int, containerTop: int)
      requires Valid()
      modifies this
      ensures Valid()
      ensures old(isDragging) ==> placed == old(placed)[old(dragging).value := old(placed)[old(dragging).value].(
        left := SnapToGrid(pageX - old(offsetX) - containerLeft), top := SnapToGrid(pageY - old(offsetY) - containerTop))]
      ensures !old(isDragging) ==> placed == old(placed)
      ensures placing == old(placing) && dragging == old(dragging) && isDragging == old(isDragging)
      ensures selected == old(selected) && offsetX == old(offsetX) && offsetY == old(offsetY)
    {
      if dragging.Some? && isDragging {
        var k := dragging.value;
        var moved := placed[k].(
          left := SnapToGrid(pageX - offsetX - containerLeft), top := SnapToGrid(pageY - offsetY - containerTop));
        assert moved.rotation == placed[k].rotation;
        placed := placed[k := moved];
      }
    }

    /** `transformOnDrag`: while dragging, ArrowLeft rotates the selected
        element by -45 degrees and ArrowRight by +45; every other key, and any
        key while not dragging, leaves every rotation as it was. */
    method TransformOnDrag(key: Key)
      requires Valid()
      modifies this
      ensures Valid()
      ensures old(isDragging) && key == ArrowLeft ==>
        placed == old(placed)[old(selected).value := Rotate(old(placed)[old(selected).value], -45)]
      ensures old(isDragging) && key == ArrowRight ==>
        placed == old(placed)[old(selected).value := Rotate(old(placed)[old(selected).value], 45)]
      ensures !old(isDragging) || (key != ArrowLeft && key != ArrowRight) ==> placed == old(placed)
      ensures placing == old(placing) && dragging == old(dragging) && isDragging == old(isDragging)
      ensures selected == old(selected) && offsetX == old(offsetX) && offsetY == old(offsetY)
    {
      if selected.Some? && isDragging {
        var k := selected.value;
        match key
        case ArrowLeft => placed := placed[k := Rotate(placed[k], -45)];
        case ArrowRight => placed := placed[k := Rotate(placed[k], 45)];
        case ArrowUp =>
        case ArrowDown =>
        case OtherKey =>
      }
    }
  }
}
