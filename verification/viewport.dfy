/** The renderer's viewport rectangle and its guarded aspect ratio. */
module Viewport {

  datatype Viewport = Viewport(x: real, y: real, width: real, height: real, minDepth: real, maxDepth: real)

  /** The derived `Default`: every field zero. */
  function DefaultViewport(): (r: Viewport)
    ensures r.x == 0.0 && r.y == 0.0 && r.width == 0.0 && r.height == 0.0
    ensures r.minDepth == 0.0 && r.maxDepth == 0.0
  {
    Viewport(0.0, 0.0, 0.0, 0.0, 0.0, 0.0)
  }

  /** The divisor the aspect ratio uses: the height when positive, otherwise one. */
  function SafeHeight(v: Viewport): (h: real)
    ensures h > 0.0
    ensures v.height > 0.0 ==> h == v.height
    ensures v.height <= 0.0 ==> h == 1.0
  {
    if v.height > 0.0 then v.height else 1.0
  }

  /** Width over height, falling back to the bare width when the height is not positive. */
  function AspectRatio(v: Viewport): (r: real)
    ensures r * SafeHeight(v) == v.width
    ensures v.height > 0.0 ==> r * v.height == v.width
    ensures v.height <= 0.0 ==> r == v.width
  {
    v.width / SafeHeight(v)
  }

  lemma DefaultAspectRatioIsZero()
    ensures AspectRatio(DefaultViewport()) == 0.0
  {
  }

  /** The ratio only depends on width and height, and scaling both by the same positive factor
      leaves it unchanged. */
  lemma AspectRatioScaleInvariant(v: Viewport, k: real)
    requires k > 0.0 && v.height > 0.0
    ensures AspectRatio(v.(width := v.width * k, height := v.height * k)) == AspectRatio(v)
  {
    var w := v.(width := v.width * k, height := v.height * k);
    assert AspectRatio(w) * (v.height * k) == v.width * k;
    assert AspectRatio(v) * v.height == v.width;
    assert (AspectRatio(w) - AspectRatio(v)) * v.height * k == 0.0;
  }
}
