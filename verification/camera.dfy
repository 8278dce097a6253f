/** The orbit camera's orientation record: spherical angles around a pivot, a clamped zoom
    radius and a pan offset. The trigonometric direction and vector normalisation are supplied
    as function values, so every statement here holds for any choice of them. */
module Camera {
  import opened Geometry
  import Input

  /** Pi as an f32 holds it; `to_radians` multiplies by pi/180. */
  const F32Pi: real := 3.1415927410125732421875

  function Radians(degrees: real): real {
    degrees * (F32Pi / 180.0)
  }

  /** The pitch (the y angle) is kept within [10 degrees, 170 degrees]. */
  const MinPitch: real := Radians(10.0)
  const MaxPitch: real := Radians(170.0)

  datatype Orientation = Orientation(
    minRadius: real,
    maxRadius: real,
    radius: real,
    offset: Vec3,
    sensitivity: Vec2,
    direction: Vec2)

  /** The transcendental pieces: the unit direction for a pair of angles (sines and cosines of
      yaw and pitch), and vector normalisation. */
  datatype Trig = Trig(direction: Vec2 -> Vec3, normalize: Vec3 -> Vec3)

  function Direction(o: Orientation, t: Trig): Vec3 {
    t.direction(o.direction)
  }

  function Right(o: Orientation, t: Trig): Vec3 {
    t.normalize(Cross(Direction(o, t), YAxis))
  }

  function Up(o: Orientation, t: Trig): Vec3 {
    Cross(Right(o, t), Direction(o, t))
  }

  /** The camera position: along the direction at the zoom radius, shifted by the pan offset. */
  function Position(o: Orientation, t: Trig): Vec3 {
    Add3(Scale3(Direction(o, t), o.radius), o.offset)
  }

  /** nalgebra's scalar clamp: the lower bound is tested first. */
  function Clamp(x: real, lo: real, hi: real): (r: real)
    ensures lo <= hi ==> lo <= r <= hi
    ensures lo <= x <= hi ==> r == x
    ensures lo <= hi && x < lo ==> r == lo
    ensures lo <= hi && x > hi ==> r == hi
  {
    if x > lo then (if x < hi then x else hi) else lo
  }

  /** The bounds every orientation built from the default keeps. */
  predicate Valid(o: Orientation) {
    && o.minRadius <= o.radius <= o.maxRadius
    && MinPitch <= o.direction.y <= MaxPitch
  }

  /** `Orientation::default`. */
  function DefaultOrientation(): (r: Orientation)
    ensures r.minRadius == 1.0 && r.maxRadius == 100.0 && r.radius == 5.0
    ensures r.offset == Zero3 && r.sensitivity == Vec2(1.0, 1.0)
    ensures r.direction.x == 0.0 && r.direction.y == Radians(45.0)
    ensures Valid(r)
  {
    Orientation(1.0, 100.0, 5.0, Vec3(0.0, 0.0, 0.0), Vec2(1.0, 1.0), Vec2(Radians(0.0), Radians(45.0)))
  }

  /** Turn by a mouse delta scaled by the sensitivity: the yaw is unbounded, the pitch clamped. */
  function Rotate(o: Orientation, delta: Vec2): (r: Orientation)
    ensures r == o.(direction := r.direction)
    ensures r.direction.x == o.direction.x + delta.x * o.sensitivity.x
    ensures MinPitch <= r.direction.y <= MaxPitch
    ensures var pitch := o.direction.y + delta.y * o.sensitivity.y;
      && (MinPitch <= pitch <= MaxPitch ==> r.direction.y == pitch)
      && (pitch < MinPitch ==> r.direction.y == MinPitch)
      && (pitch > MaxPitch ==> r.direction.y == MaxPitch)
  {
    var d := Mul2(delta, o.sensitivity);
    o.(direction := Vec2(o.direction.x + d.x, Clamp(o.direction.y + d.y, MinPitch, MaxPitch)))
  }

  /** The pitch after a turn is the clamped sum. */
  lemma RotatePitch(o: Orientation, delta: Vec2)
    ensures Rotate(o, delta).direction.y == Clamp(o.direction.y + delta.y * o.sensitivity.y, MinPitch, MaxPitch)
  {
  }

  /** Move the pivot within the camera's right/up plane. The second step reads `up` after the
      first has moved the offset, but the frame depends only on the angles, so both steps use
      the input orientation's frame. */
  function Pan(o: Orientation, t: Trig, delta: Vec2): (r: Orientation)
    ensures r == o.(offset := r.offset)
    ensures r.offset == Add3(Add3(o.offset, Scale3(Right(o, t), delta.x)), Scale3(Up(o, t), delta.y))
    ensures Position(r, t) == Add3(Position(o, t), Sub3(r.offset, o.offset))
  {
    var o1 := o.(offset := Add3(o.offset, Scale3(Right(o, t), delta.x)));
    o1.(offset := Add3(o1.offset, Scale3(Up(o1, t), delta.y)))
  }

  /** Move towards the pivot by `distance`, then clamp the radius: the minimum is enforced
      first and the maximum second. */
  function Zoom(o: Orientation, distance: real): (r: Orientation)
    ensures r == o.(radius := r.radius)
    ensures o.minRadius <= o.maxRadius ==> o.minRadius <= r.radius <= o.maxRadius
    ensures o.minRadius <= o.radius - distance <= o.maxRadius ==> r.radius == o.radius - distance
    ensures o.minRadius <= o.maxRadius && o.radius - distance < o.minRadius ==> r.radius == o.minRadius
    ensures o.minRadius <= o.maxRadius && o.radius - distance > o.maxRadius ==> r.radius == o.maxRadius
    ensures o.minRadius > o.maxRadius ==> r.radius == o.maxRadius
  {
    var radius := o.radius - distance;
    var radius := if radius < o.minRadius then o.minRadius else radius;
    var radius := if radius > o.maxRadius then o.maxRadius else radius;
    o.(radius := radius)
  }

  lemma ZoomZeroInBounds(o: Orientation)
    requires o.minRadius <= o.radius <= o.maxRadius
    ensures Zoom(o, 0.0) == o
  {
  }

  /** Two unclamped zooms add up. */
  lemma ZoomComposes(o: Orientation, a: real, b: real)
    requires o.minRadius <= o.radius - a <= o.maxRadius
    requires o.minRadius <= o.radius - a - b <= o.maxRadius
    ensures Zoom(Zoom(o, a), b) == Zoom(o, a + b)
  {
  }

  /** Panning does not turn the camera, so two pans add up to one pan by the summed delta. */
  lemma PanComposes(o: Orientation, t: Trig, a: Vec2, b: Vec2)
    ensures Pan(Pan(o, t, a), t, b) == Pan(o, t, Add2(a, b))
  {
    var p := Pan(o, t, a);
    assert p.direction == o.direction;
    assert Right(p, t) == Right(o, t) && Up(p, t) == Up(o, t);
    ScaleDistributes(Right(o, t), a.x, b.x);
    ScaleDistributes(Up(o, t), a.y, b.y);
  }

  lemma PanZero(o: Orientation, t: Trig)
    ensures Pan(o, t, Zero2) == o
  {
  }

  /** Every orientation step keeps the bounds. */
  lemma StepsPreserveValid(o: Orientation, t: Trig, delta: Vec2, distance: real)
    requires Valid(o)
    ensures Valid(Rotate(o, delta))
    ensures Valid(Pan(o, t, delta))
    ensures Valid(Zoom(o, distance))
  {
  }

  /** The camera-entity update of the orbit controller: zoom by the wheel, orbit while the left
      button is held (yaw inverted), pan while the right button is held; the camera entity's
      translation becomes the new position. */
  datatype OrbitUpdate = OrbitUpdate(orientation: Orientation, translation: Vec3)

  function OrbitStep(o: Orientation, t: Trig, mouse: Input.Mouse, deltaTime: real): (r: OrbitUpdate)
    ensures Valid(o) ==> Valid(r.orientation)
    ensures r.translation == Position(r.orientation, t)
    ensures r.orientation.minRadius == o.minRadius && r.orientation.maxRadius == o.maxRadius
    ensures r.orientation.sensitivity == o.sensitivity
    ensures r.orientation.radius == Zoom(o, mouse.wheelDelta.y * 0.3).radius
    ensures !mouse.isLeftClicked ==> r.orientation.direction == o.direction
    ensures mouse.isLeftClicked ==>
      r.orientation.direction.x == o.direction.x - mouse.positionDelta.x * deltaTime * o.sensitivity.x
    ensures mouse.isLeftClicked ==>
      r.orientation.direction.y == Clamp(o.direction.y + mouse.positionDelta.y * deltaTime * o.sensitivity.y, MinPitch, MaxPitch)
    ensures !mouse.isRightClicked ==> r.orientation.offset == o.offset
    ensures mouse.isRightClicked ==>
      r.orientation == Pan(r.orientation.(offset := o.offset), t, Scale2(mouse.positionDelta, deltaTime))
  {
    var zoomed := Zoom(o, mouse.wheelDelta.y * 0.3);
    var turned := OrbitTurn(zoomed, mouse, deltaTime);
    var panned := if mouse.isRightClicked then Pan(turned, t, Scale2(mouse.positionDelta, deltaTime)) else turned;
    OrbitUpdate(panned, Position(panned, t))
  }

  /** The orbit controller's turn while the left button is held: the cursor delta scaled by
      the frame time, with the horizontal component inverted. */
  function OrbitTurn(o: Orientation, mouse: Input.Mouse, deltaTime: real): (r: Orientation)
    ensures r == o.(direction := r.direction)
    ensures !mouse.isLeftClicked ==> r == o
    ensures mouse.isLeftClicked ==>
      r.direction.x == o.direction.x - mouse.positionDelta.x * deltaTime * o.sensitivity.x
    ensures mouse.isLeftClicked ==>
      r.direction.y == Clamp(o.direction.y + mouse.positionDelta.y * deltaTime * o.sensitivity.y, MinPitch, MaxPitch)
  {
    var mouseDelta := Scale2(mouse.positionDelta, deltaTime);
    var turnDelta := Vec2(-1.0 * mouseDelta.x, mouseDelta.y);
    RotatePitch(o, turnDelta);
    if mouse.isLeftClicked then Rotate(o, turnDelta) else o
  }

  /** The free-look controller's orientation update: turn by the cursor's offset from the
      window centre, scaled by the frame time. */
  function LookStep(o: Orientation, mouse: Input.Mouse, deltaTime: real): (r: Orientation)
    ensures Valid(o) ==> Valid(r)
    ensures r == o.(direction := r.direction)
    ensures r.direction.x == o.direction.x + mouse.offsetFromCenter.x * deltaTime * o.sensitivity.x
    ensures r.direction.y == Clamp(o.direction.y + mouse.offsetFromCenter.y * deltaTime * o.sensitivity.y, MinPitch, MaxPitch)
    ensures mouse.offsetFromCenter == Zero2 && MinPitch <= o.direction.y <= MaxPitch ==> r == o
  {
    Rotate(o, Scale2(mouse.offsetFromCenter, deltaTime))
  }
}
