/** `render_scene`: one primary ray per pixel from the camera through a
    screen in the plane z = 0, spanning x ∈ [−1, 1] and y ∈ [1/ratio,
    −1/ratio] top to bottom, coloured by `get_current_color` and clipped to
    [0, 1]. */
module Render {
  import opened Basics
  import opened Vectors
  import opened Rays
  import opened Objects
  import opened Lights
  import opened Shading

  /** Rows of pixels, top row first. */
  type Image = seq<seq<Vec3>>

  /** Element `k` of `np.linspace(start, stop, n)`: `start + k·step` with
      `step = (stop − start) / (n − 1)`; a single sample is `start`. */
  function Linspace(start: real, stop: real, n: nat, k: nat): (r: real)
    requires k < n
    ensures k == 0 ==> r == start
    ensures 2 <= n && k == n - 1 ==> r == stop
    ensures start <= stop ==> start <= r <= stop
    ensures stop <= start ==> stop <= r <= start
  {
    if n == 1 then start
    else
      var step := (stop - start) / ((n - 1) as real);
      assert ((n - 1) as real) * step == stop - start;
      PartOfSpan(k as real, (n - 1) as real, step);
      start + (k as real) * step
  }

  /** `k · step` lies between 0 and `m · step` for `0 ≤ k ≤ m`. */
  lemma PartOfSpan(k: real, m: real, step: real)
    requires 0.0 <= k <= m
    ensures 0.0 <= step ==> 0.0 <= k * step <= m * step
    ensures step <= 0.0 ==> m * step <= k * step <= 0.0
  {
    if 0.0 <= step {
      assert k * step <= m * step by { assert (m - k) * step >= 0.0; }
    } else {
      assert m * step <= k * step by { assert (m - k) * (-step) >= 0.0; }
    }
  }

  /** The samples are evenly spaced. */
  lemma LinspaceEvenlySpaced(start: real, stop: real, n: nat, k: nat)
    requires 2 <= n && k + 1 < n
    ensures Linspace(start, stop, n, k + 1) - Linspace(start, stop, n, k) == (stop - start) / ((n - 1) as real)
  {
  }

  /** `np.clip(c, 0, 1)` on one component. */
  function Clamp01(x: real): (r: real)
    ensures 0.0 <= r <= 1.0
    ensures 0.0 <= x <= 1.0 ==> r == x
  {
    if x < 0.0 then 0.0 else if x > 1.0 then 1.0 else x
  }

  predicate InUnitCube(c: Vec3) {
    0.0 <= c.x <= 1.0 && 0.0 <= c.y <= 1.0 && 0.0 <= c.z <= 1.0
  }

  /** `np.clip(color, 0, 1)`: the result is a displayable colour, and a
      displayable colour is left alone. */
  function Clip(c: Vec3): (r: Vec3)
    ensures InUnitCube(r)
    ensures InUnitCube(c) ==> r == c
  {
    Vec3(Clamp01(c.x), Clamp01(c.y), Clamp01(c.z))
  }

  /** Clipping twice is clipping once. */
  lemma ClipIdempotent(c: Vec3)
    ensures Clip(Clip(c)) == Clip(c)
  {
  }

  /** The screen point of pixel (i, j): `[x, y, 0]` with `x` from
      `linspace(-1, 1, width)` and `y` from `linspace(1/ratio, -1/ratio,
      height)`, `ratio = width / height`. */
  function PixelPosition(width: nat, height: nat, i: nat, j: nat): (r: Vec3)
    requires i < height && j < width
    ensures r.z == 0.0
    ensures -1.0 <= r.x <= 1.0
    ensures j == 0 ==> r.x == -1.0
    ensures -((height as real) / (width as real)) <= r.y <= (height as real) / (width as real)
    ensures i == 0 ==> r.y == (height as real) / (width as real)
  {
    var ratio := (width as real) / (height as real);
    assert 1.0 / ratio == (height as real) / (width as real);
    Vec3(Linspace(-1.0, 1.0, width, j), Linspace(1.0 / ratio, -1.0 / ratio, height, i), 0.0)
  }

  /** The screen spans x from −1 (first column) to 1 (last column) and y
      from height/width (top row) to −height/width (bottom row). */
  lemma ScreenCorners(width: nat, height: nat)
    requires 2 <= width && 2 <= height
    ensures PixelPosition(width, height, 0, 0) == Vec3(-1.0, (height as real) / (width as real), 0.0)
    ensures PixelPosition(width, height, height - 1, width - 1) == Vec3(1.0, -((height as real) / (width as real)), 0.0)
  {
    var ratio := (width as real) / (height as real);
    assert 1.0 / ratio == (height as real) / (width as real);
  }

  /** The primary ray of pixel (i, j), from the camera through its screen
      point. */
  function PixelRay(num: Numerics, camera: Vec3, width: nat, height: nat, i: nat, j: nat): (r: Ray)
    requires i < height && j < width
    ensures r.origin == camera
  {
    MakeRay(num, camera, Sub(PixelPosition(width, height, i, j), camera))
  }

  /** `image[i, j]`: black when the primary ray meets nothing; otherwise the
      clipped colour at the nearest hit point `camera + t·direction`.
      `None` when `get_current_color` raises. */
  function PixelColor(num: Numerics, camera: Vec3, scene: Scene, maxDepth: nat, width: nat, height: nat, i: nat, j: nat): (r: Option<Vec3>)
    requires i < height && j < width
    requires ValidLights(scene)
    ensures |scene.lights| > 0 ==> r.Some?
    ensures r.Some? ==> InUnitCube(r.value)
    ensures Nearest(num, PixelRay(num, camera, width, height, i, j), scene.objects).Miss? ==> r == Some(Zero)
  {
    var ray := PixelRay(num, camera, width, height, i, j);
    var hit := Nearest(num, ray, scene.objects);
    if hit.At? then
      var hitPoint := Add(camera, Scale(hit.dist.v, ray.direction));
      match GetCurrentColor(num, scene, Some(hit.obj), ray, hitPoint, maxDepth, 0)
      case None => None
      case Some(c) => Some(Clip(c))
    else Some(Clip(Zero))
  }

  /** A pixel that meets an object shows the clipped colour seen at the
      nearest hit, one ray length along the primary ray. */
  lemma PixelShowsNearestHit(num: Numerics, camera: Vec3, scene: Scene, maxDepth: nat, width: nat, height: nat, i: nat, j: nat)
    requires i < height && j < width && ValidLights(scene) && |scene.lights| > 0
    requires Nearest(num, PixelRay(num, camera, width, height, i, j), scene.objects).At?
    ensures var ray := PixelRay(num, camera, width, height, i, j);
            var hit := Nearest(num, ray, scene.objects);
            PixelColor(num, camera, scene, maxDepth, width, height, i, j) ==
              Some(Clip(GetCurrentColor(num, scene, Some(hit.obj), ray, PointAt(ray, hit.dist.v), maxDepth, 0).value))
  {
  }

  /** Some pixel's colour cannot be computed. */
  predicate SomePixelFails(num: Numerics, camera: Vec3, scene: Scene, maxDepth: nat, width: nat, height: nat)
    requires ValidLights(scene)
  {
    exists i: nat, j: nat | i < height && j < width :: PixelColor(num, camera, scene, maxDepth, width, height, i, j).None?
  }

  /** `render_scene(camera, ambient, lights, objects, (width, height),
      max_depth)`. `None` when the source raises: a zero or negative screen
      size (division by zero, or a negative array dimension) or a failing
      pixel. */
  function RenderScene(num: Numerics, camera: Vec3, scene: Scene, width: int, height: int, maxDepth: nat): (r: Option<Image>)
    requires ValidLights(scene)
    ensures r.Some? ==> 1 <= width && 1 <= height && |r.value| == height
    ensures r.Some? ==> forall i :: 0 <= i < |r.value| ==> |r.value[i]| == width
    ensures r.Some? ==> forall i, j :: 0 <= i < |r.value| && 0 <= j < |r.value[i]| ==> InUnitCube(r.value[i][j])
    ensures |scene.lights| > 0 ==> (r.Some? <==> 1 <= width && 1 <= height)
  {
    if width <= 0 || height <= 0 then None
    else if SomePixelFails(num, camera, scene, maxDepth, width, height) then None
    else
      Some(seq(height, i requires 0 <= i < height =>
             seq(width, j requires 0 <= j < width =>
               PixelColor(num, camera, scene, maxDepth, width, height, i, j).value)))
  }

  /** Each pixel of the image is the pixel computed for its row and column. */
  lemma RenderedPixel(num: Numerics, camera: Vec3, scene: Scene, width: int, height: int, maxDepth: nat, i: nat, j: nat)
    requires ValidLights(scene)
    requires RenderScene(num, camera, scene, width, height, maxDepth).Some?
    requires i < height && j < width
    ensures PixelColor(num, camera, scene, maxDepth, width, height, i, j).Some?
    ensures RenderScene(num, camera, scene, width, height, maxDepth).value[i][j] ==
            PixelColor(num, camera, scene, maxDepth, width, height, i, j).value
  {
  }

  /** A scene with no objects renders black everywhere. */
  lemma EmptySceneIsBlack(num: Numerics, camera: Vec3, scene: Scene, width: int, height: int, maxDepth: nat)
    requires ValidLights(scene) && |scene.objects| == 0
    requires 1 <= width && 1 <= height
    ensures RenderScene(num, camera, scene, width, height, maxDepth).Some?
    ensures forall i, j :: 0 <= i < height && 0 <= j < width ==>
              RenderScene(num, camera, scene, width, height, maxDepth).value[i][j] == Zero
  {
    forall i: nat, j: nat | i < height && j < width
      ensures PixelColor(num, camera, scene, maxDepth, width, height, i, j) == Some(Zero)
    {
      NearestOfNothing(num, PixelRay(num, camera, width, height, i, j));
    }
  }
}
