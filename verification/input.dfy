/** The per-event input bookkeeping of the application layer: the mouse record, the
    key-state map and the window record, each updated by one window-system event at a time. */
module Input {
  import opened Wrappers
  import opened Geometry

  datatype ElementState = Pressed | Released

  datatype MouseButton = Left | Right | Middle | OtherButton(code: nat)

  /** A wheel movement, in lines or in pixels. */
  datatype ScrollDelta = LineDelta(h: real, v: real) | PixelDelta(dx: real, dy: real)

  /** A physical window size in pixels (u32 components). */
  datatype Size = Size(width: nat, height: nat)

  /** A virtual key code; the key enumeration itself is opaque to this model. */
  type KeyCode = nat

  datatype WindowEvent =
    | MouseInput(button: MouseButton, state: ElementState)
    | CursorMoved(position: Vec2)
    | MouseWheel(delta: ScrollDelta)
    | KeyboardInput(keycode: Option<KeyCode>, keyState: ElementState)
    | CloseRequested
    | Resized(size: Size)
    | OtherWindowEvent

  /** The events of the window-system loop that this layer reacts to. `NewEvents` opens a frame. */
  datatype Event = NewEvents | Window(event: WindowEvent) | OtherEvent

  // ---------------------------------------------------------------------------
  // Mouse
  // ---------------------------------------------------------------------------

  datatype Mouse = Mouse(
    isLeftClicked: bool,
    isRightClicked: bool,
    position: Vec2,
    positionDelta: Vec2,
    offsetFromCenter: Vec2,
    wheelDelta: Vec2,
    moved: bool,
    scrolled: bool)

  /** The derived `Default` of the mouse record: all flags false, all vectors zero. */
  const DefaultMouse: Mouse := Mouse(false, false, Zero2, Zero2, Zero2, Zero2, false, false)

  /** Start of a frame: a delta not refreshed since the previous frame start is cleared, and
      both "touched" flags are lowered. */
  function NewEventsMouse(m: Mouse): (r: Mouse)
    ensures !r.scrolled && !r.moved
    ensures m.scrolled ==> r.wheelDelta == m.wheelDelta
    ensures !m.scrolled ==> r.wheelDelta == Zero2
    ensures m.moved ==> r.positionDelta == m.positionDelta
    ensures !m.moved ==> r.positionDelta == Zero2
    ensures r == m.(wheelDelta := r.wheelDelta, positionDelta := r.positionDelta, scrolled := false, moved := false)
  {
    var wheel := if m.scrolled then m.wheelDelta else Zero2;
    var delta := if m.moved then m.positionDelta else Zero2;
    m.(wheelDelta := wheel, scrolled := false, positionDelta := delta, moved := false)
  }

  /** The cursor moved to `p`; `center` is the window centre at the time of the event. */
  function CursorMovedMouse(m: Mouse, p: Vec2, center: Vec2): (r: Mouse)
    ensures r.position == p
    ensures Add2(m.position, r.positionDelta) == p
    ensures Add2(p, r.offsetFromCenter) == center
    ensures r.moved
    ensures r == m.(position := p, positionDelta := r.positionDelta,
                    offsetFromCenter := r.offsetFromCenter, moved := true)
  {
    m.(position := p, positionDelta := Sub2(p, m.position),
       offsetFromCenter := Sub2(center, p), moved := true)
  }

  /** A line-based wheel movement replaces the wheel delta and marks the mouse as scrolled. */
  function MouseWheelMouse(m: Mouse, h: real, v: real): (r: Mouse)
    ensures r.wheelDelta.x == h && r.wheelDelta.y == v && r.scrolled
    ensures r == m.(wheelDelta := r.wheelDelta, scrolled := true)
  {
    m.(wheelDelta := Vec2(h, v), scrolled := true)
  }

  /** A button press or release; only the left and right buttons are tracked. */
  function MouseInputMouse(m: Mouse, button: MouseButton, state: ElementState): (r: Mouse)
    ensures button.Left? ==> r == m.(isLeftClicked := r.isLeftClicked)
    ensures button.Left? ==> (r.isLeftClicked <==> state == Pressed)
    ensures button.Right? ==> r == m.(isRightClicked := r.isRightClicked)
    ensures button.Right? ==> (r.isRightClicked <==> state == Pressed)
    ensures !button.Left? && !button.Right? ==> r == m
  {
    var clicked := state == Pressed;
    match button
    case Left => m.(isLeftClicked := clicked)
    case Right => m.(isRightClicked := clicked)
    case _ => m
  }

  /** Dispatch of one event to the mouse record. Pixel-based wheel deltas are not handled. */
  function HandleMouseEvent(m: Mouse, e: Event, center: Vec2): (r: Mouse)
    ensures e.NewEvents? ==> r == NewEventsMouse(m)
    ensures e.Window? && e.event.MouseInput? ==> r == MouseInputMouse(m, e.event.button, e.event.state)
    ensures e.Window? && e.event.CursorMoved? ==> r == CursorMovedMouse(m, e.event.position, center)
    ensures e.Window? && e.event.MouseWheel? && e.event.delta.LineDelta? ==>
      r == MouseWheelMouse(m, e.event.delta.h, e.event.delta.v)
    ensures e.OtherEvent? ==> r == m
    ensures e.Window? && e.event.MouseWheel? && e.event.delta.PixelDelta? ==> r == m
    ensures e.Window? && !e.event.MouseInput? && !e.event.CursorMoved? && !e.event.MouseWheel? ==> r == m
  {
    match e
    case NewEvents => NewEventsMouse(m)
    case Window(we) =>
      (match we
       case MouseInput(button, state) => MouseInputMouse(m, button, state)
       case CursorMoved(p) => CursorMovedMouse(m, p, center)
       case MouseWheel(LineDelta(h, v)) => MouseWheelMouse(m, h, v)
       case _ => m)
    case OtherEvent => m
  }

  /** A sequence of events applied in order, all seeing the same window centre. */
  function HandleMouseEvents(m: Mouse, es: seq<Event>, center: Vec2): Mouse
    decreases |es|
  {
    if |es| == 0 then m else HandleMouseEvents(HandleMouseEvent(m, es[0], center), es[1..], center)
  }

  predicate IsFrameStart(e: Event) { e.NewEvents? }

  predicate IsWheel(e: Event) {
    e.Window? && e.event.MouseWheel? && e.event.delta.LineDelta?
  }

  predicate IsCursorMove(e: Event) {
    e.Window? && e.event.CursorMoved?
  }

  /** The events delivered between two frame starts contain no frame start. */
  predicate WithinFrame(es: seq<Event>) {
    forall i :: 0 <= i < |es| ==> !IsFrameStart(es[i])
  }

  /** The delta of the last line-based wheel event of `es`, if any. */
  function LastWheel(es: seq<Event>): Option<Vec2>
    decreases |es|
  {
    if |es| == 0 then None
    else if IsWheel(es[|es| - 1]) then
      Some(Vec2(es[|es| - 1].event.delta.h, es[|es| - 1].event.delta.v))
    else LastWheel(es[..|es| - 1])
  }

  function HasCursorMove(es: seq<Event>): bool {
    exists i :: 0 <= i < |es| && IsCursorMove(es[i])
  }

  /** One frame: the frame start followed by the events of the frame. */
  function Frame(m: Mouse, es: seq<Event>, center: Vec2): Mouse {
    HandleMouseEvents(m, [NewEvents] + es, center)
  }

  lemma {:induction false} HandleMouseEventsSnoc(m: Mouse, es: seq<Event>, e: Event, center: Vec2)
    ensures HandleMouseEvents(m, es + [e], center) == HandleMouseEvent(HandleMouseEvents(m, es, center), e, center)
    decreases |es|
  {
    if |es| == 0 {
      assert es + [e] == [e];
    } else {
      assert (es + [e])[1..] == es[1..] + [e];
      HandleMouseEventsSnoc(HandleMouseEvent(m, es[0], center), es[1..], e, center);
    }
  }

  /** Within a frame, the wheel delta and the scrolled flag are those of the last wheel event;
      without one they are left as they were. */
  lemma {:induction false} WheelWithinFrame(m: Mouse, es: seq<Event>, center: Vec2)
    requires WithinFrame(es)
    ensures LastWheel(es).Some? ==>
      HandleMouseEvents(m, es, center).wheelDelta == LastWheel(es).value &&
      HandleMouseEvents(m, es, center).scrolled
    ensures LastWheel(es).None? ==>
      HandleMouseEvents(m, es, center).wheelDelta == m.wheelDelta &&
      HandleMouseEvents(m, es, center).scrolled == m.scrolled
    decreases |es|
  {
    if |es| > 0 {
      var init := es[..|es| - 1];
      var e := es[|es| - 1];
      assert es == init + [e];
      HandleMouseEventsSnoc(m, init, e, center);
      WheelWithinFrame(m, init, center);
    }
  }

  /** Within a frame without cursor motion, the position delta and the moved flag are untouched. */
  lemma {:induction false} NoMoveWithinFrame(m: Mouse, es: seq<Event>, center: Vec2)
    requires WithinFrame(es) && !HasCursorMove(es)
    ensures HandleMouseEvents(m, es, center).positionDelta == m.positionDelta
    ensures HandleMouseEvents(m, es, center).moved == m.moved
    decreases |es|
  {
    if |es| > 0 {
      assert !IsCursorMove(es[0]) && !IsFrameStart(es[0]);
      assert !HasCursorMove(es[1..]) by {
        forall i | 0 <= i < |es[1..]| ensures !IsCursorMove(es[1..][i]) {
          assert es[1..][i] == es[i + 1];
        }
      }
      NoMoveWithinFrame(HandleMouseEvent(m, es[0], center), es[1..], center);
    }
  }

  /** What the frame's update step sees as wheel delta after two consecutive frames: the last
      wheel event of the second frame, otherwise the last one of the first frame (a wheel
      event is seen by two consecutive updates), otherwise zero. The starting state is irrelevant. */
  lemma WheelSeenAfterTwoFrames(m: Mouse, e1: seq<Event>, e2: seq<Event>, center: Vec2)
    requires WithinFrame(e1) && WithinFrame(e2)
    ensures var r := Frame(Frame(m, e1, center), e2, center);
      r.wheelDelta ==
        (if LastWheel(e2).Some? then LastWheel(e2).value
         else if LastWheel(e1).Some? then LastWheel(e1).value
         else Zero2)
  {
    var m1 := NewEventsMouse(m);
    assert ([NewEvents] + e1)[1..] == e1;
    assert Frame(m, e1, center) == HandleMouseEvents(m1, e1, center);
    WheelWithinFrame(m1, e1, center);
    var f1 := HandleMouseEvents(m1, e1, center);
    var m2 := NewEventsMouse(f1);
    assert ([NewEvents] + e2)[1..] == e2;
    assert Frame(f1, e2, center) == HandleMouseEvents(m2, e2, center);
    WheelWithinFrame(m2, e2, center);
  }

  /** A frame without cursor motion that follows another such frame leaves a zero position
      delta and a lowered moved flag. */
  lemma PositionDeltaClearedAfterStillFrames(m: Mouse, e1: seq<Event>, e2: seq<Event>, center: Vec2)
    requires WithinFrame(e1) && WithinFrame(e2)
    requires !HasCursorMove(e1) && !HasCursorMove(e2)
    ensures Frame(Frame(m, e1, center), e2, center).positionDelta == Zero2
    ensures !Frame(Frame(m, e1, center), e2, center).moved
  {
    var m1 := NewEventsMouse(m);
    assert ([NewEvents] + e1)[1..] == e1;
    NoMoveWithinFrame(m1, e1, center);
    var f1 := HandleMouseEvents(m1, e1, center);
    var m2 := NewEventsMouse(f1);
    assert ([NewEvents] + e2)[1..] == e2;
    NoMoveWithinFrame(m2, e2, center);
  }

  predicate IsButtonEventFor(e: Event, b: MouseButton) {
    e.Window? && e.event.MouseInput? && e.event.button == b
  }

  /** The state carried by the last event for button `b` in `es`, if any. */
  function LastButtonState(es: seq<Event>, b: MouseButton): Option<ElementState>
    decreases |es|
  {
    if |es| == 0 then None
    else if IsButtonEventFor(es[|es| - 1], b) then Some(es[|es| - 1].event.state)
    else LastButtonState(es[..|es| - 1], b)
  }

  /** Whether the mouse record holds `b` (left or right) down. */
  function IsClicked(m: Mouse, b: MouseButton): bool {
    if b.Left? then m.isLeftClicked else if b.Right? then m.isRightClicked else false
  }

  /** Last write wins for the tracked buttons: after any event sequence, frame starts
      included, the left (or right) button is held exactly when the last event for it was a
      press, or, when there was none, when it was held before. */
  lemma {:induction false} ClickedIffLastPressed(m: Mouse, es: seq<Event>, b: MouseButton, center: Vec2)
    requires b.Left? || b.Right?
    ensures LastButtonState(es, b).Some? ==>
      (IsClicked(HandleMouseEvents(m, es, center), b) <==> LastButtonState(es, b).value == Pressed)
    ensures LastButtonState(es, b).None? ==>
      IsClicked(HandleMouseEvents(m, es, center), b) == IsClicked(m, b)
    decreases |es|
  {
    if |es| > 0 {
      var init := es[..|es| - 1];
      var e := es[|es| - 1];
      assert es == init + [e];
      HandleMouseEventsSnoc(m, init, e, center);
      ClickedIffLastPressed(m, init, b, center);
    }
  }

  // ---------------------------------------------------------------------------
  // Keyboard and the input record
  // ---------------------------------------------------------------------------

  type KeyMap = map<KeyCode, ElementState>

  datatype InputState = InputState(keystates: KeyMap, mouse: Mouse, allowed: bool)

  /** `Input::default`: no key known, default mouse, input allowed. */
  function DefaultInput(): (r: InputState)
    ensures forall k :: !IsKeyPressed(r, k)
    ensures r.mouse == DefaultMouse && r.allowed
  {
    InputState(map[], DefaultMouse, true)
  }

  /** `is_key_pressed`: the key is known and its last recorded state is a press. */
  predicate IsKeyPressed(inp: InputState, k: KeyCode) {
    k in inp.keystates && inp.keystates[k] == Pressed
  }

  /** One event: a keyboard event carrying a key code overwrites that key's state, and the
      event is then passed on to the mouse. */
  function HandleInputEvent(inp: InputState, e: Event, center: Vec2): (r: InputState)
    ensures r.allowed == inp.allowed
    ensures r.mouse == HandleMouseEvent(inp.mouse, e, center)
    ensures e.Window? && e.event.KeyboardInput? && e.event.keycode.Some? ==>
      r.keystates == inp.keystates[e.event.keycode.value := e.event.keyState]
    ensures !(e.Window? && e.event.KeyboardInput? && e.event.keycode.Some?) ==>
      r.keystates == inp.keystates
  {
    var keys :=
      if e.Window? && e.event.KeyboardInput? && e.event.keycode.Some?
      then inp.keystates[e.event.keycode.value := e.event.keyState]
      else inp.keystates;
    inp.(keystates := keys, mouse := HandleMouseEvent(inp.mouse, e, center))
  }

  function HandleInputEvents(inp: InputState, es: seq<Event>, center: Vec2): InputState
    decreases |es|
  {
    if |es| == 0 then inp else HandleInputEvents(HandleInputEvent(inp, es[0], center), es[1..], center)
  }

  predicate IsKeyEventFor(e: Event, k: KeyCode) {
    e.Window? && e.event.KeyboardInput? && e.event.keycode == Some(k)
  }

  /** The state carried by the last keyboard event for `k` in `es`, if any. */
  function LastKeyState(es: seq<Event>, k: KeyCode): Option<ElementState>
    decreases |es|
  {
    if |es| == 0 then None
    else if IsKeyEventFor(es[|es| - 1], k) then Some(es[|es| - 1].event.keyState)
    else LastKeyState(es[..|es| - 1], k)
  }

  lemma {:induction false} HandleInputEventsSnoc(inp: InputState, es: seq<Event>, e: Event, center: Vec2)
    ensures HandleInputEvents(inp, es + [e], center) == HandleInputEvent(HandleInputEvents(inp, es, center), e, center)
    decreases |es|
  {
    if |es| == 0 {
      assert es + [e] == [e];
    } else {
      assert (es + [e])[1..] == es[1..] + [e];
      HandleInputEventsSnoc(HandleInputEvent(inp, es[0], center), es[1..], e, center);
    }
  }

  /** Last write wins: after any event sequence, a key is pressed exactly when the last keyboard
      event for it was a press, or, when there was none, when it was pressed before. */
  lemma {:induction false} KeyPressedIffLastPressed(inp: InputState, es: seq<Event>, k: KeyCode, center: Vec2)
    ensures LastKeyState(es, k).Some? ==>
      (IsKeyPressed(HandleInputEvents(inp, es, center), k) <==> LastKeyState(es, k).value == Pressed)
    ensures LastKeyState(es, k).None? ==>
      (IsKeyPressed(HandleInputEvents(inp, es, center), k) <==> IsKeyPressed(inp, k))
    decreases |es|
  {
    if |es| > 0 {
      var init := es[..|es| - 1];
      var e := es[|es| - 1];
      assert es == init + [e];
      HandleInputEventsSnoc(inp, init, e, center);
      KeyPressedIffLastPressed(inp, init, k, center);
    }
  }

  // ---------------------------------------------------------------------------
  // Window bookkeeping
  // ---------------------------------------------------------------------------

  /** The window record. The frame clock is not modelled: the elapsed time is a parameter of
      the event handler. */
  datatype System = System(windowDimensions: Size, deltaTime: real, exitRequested: bool)

  function NewSystem(d: Size): (r: System)
    ensures r.windowDimensions == d && !r.exitRequested && r.deltaTime == 0.01
  {
    System(d, 0.01, false)
  }

  /** One event for the window record; `elapsedMicros` is the clock reading since the last frame. */
  function HandleSystemEvent(s: System, e: Event, elapsedMicros: nat): (r: System)
    ensures e.Window? && e.event.CloseRequested? ==> r == s.(exitRequested := true)
    ensures e.Window? && e.event.Resized? ==> r == s.(windowDimensions := e.event.size)
    ensures e.NewEvents? ==> r == s.(deltaTime := r.deltaTime) && r.deltaTime * 1000000.0 == elapsedMicros as real
    ensures e.OtherEvent? ==> r == s
    ensures e.Window? && !e.event.CloseRequested? && !e.event.Resized? ==> r == s
    ensures r.exitRequested <==> s.exitRequested || (e.Window? && e.event.CloseRequested?)
  {
    match e
    case NewEvents => s.(deltaTime := elapsedMicros as real / 1000000.0)
    case Window(we) =>
      (match we
       case CloseRequested => s.(exitRequested := true)
       case Resized(d) => s.(windowDimensions := d)
       case _ => s)
    case OtherEvent => s
  }

  /** The window centre: half of each window dimension. */
  function WindowCenter(s: System): (r: Vec2)
    ensures Scale2(r, 2.0) == Vec2(s.windowDimensions.width as real, s.windowDimensions.height as real)
  {
    Vec2(s.windowDimensions.width as real / 2.0, s.windowDimensions.height as real / 2.0)
  }

  /** The result of an f32 division: a finite value, an infinity, or NaN (for 0/0). */
  datatype F32Quotient = Finite(value: real) | PosInfinity | NegInfinity | NaN

  function F32Div(n: real, d: real): (r: F32Quotient)
    ensures d != 0.0 ==> r == Finite(n / d)
    ensures d == 0.0 ==> !r.Finite?
  {
    if d != 0.0 then Finite(n / d)
    else if n > 0.0 then PosInfinity
    else if n < 0.0 then NegInfinity
    else NaN
  }

  function MaxNat(a: nat, b: nat): nat { if a >= b then a else b }

  /** `System::aspect_ratio` as written: the height is passed through `max(height, 0)`, which on
      an unsigned value changes nothing, so a zero height reaches the division. */
  function SystemAspectRatio(s: System): (r: F32Quotient)
    ensures s.windowDimensions.height > 0 ==>
      r == Finite(s.windowDimensions.width as real / s.windowDimensions.height as real)
    ensures s.windowDimensions.height == 0 ==> !r.Finite?
  {
    var height := MaxNat(s.windowDimensions.height, 0);
    F32Div(s.windowDimensions.width as real, height as real)
  }

  /** The aspect ratio with the guard the code evidently intends, `max(height, 1)`, the form the
      OpenGL device uses for its own aspect ratio. */
  function GuardedAspectRatio(s: System): (r: real)
    ensures s.windowDimensions.height > 0 ==>
      r == s.windowDimensions.width as real / s.windowDimensions.height as real
    ensures s.windowDimensions.height == 0 ==> r == s.windowDimensions.width as real
    ensures r >= 0.0
  {
    var height := MaxNat(s.windowDimensions.height, 1);
    s.windowDimensions.width as real / height as real
  }

  /** A window minimised to zero height: the unguarded ratio is +infinity (NaN for a 0x0
      window), while the guarded one stays finite. */
  lemma ZeroHeightWindowAspectRatio()
    ensures var s := HandleSystemEvent(NewSystem(Size(800, 600)), Window(Resized(Size(800, 0))), 0);
      SystemAspectRatio(s) == PosInfinity && GuardedAspectRatio(s) == 800.0
    ensures var s := HandleSystemEvent(NewSystem(Size(800, 600)), Window(Resized(Size(0, 0))), 0);
      SystemAspectRatio(s) == NaN && GuardedAspectRatio(s) == 0.0
  {
  }
}
