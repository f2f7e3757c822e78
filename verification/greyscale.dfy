/** Colour pictures, their greyscale version (`get_greyscale_image`) and the
    energy map of the seam carver (`gradient_magnitude`). */
module Greyscale {
  import opened Vectors
  import opened Images

  /** One pixel: red, green and blue intensities. Channels past the third
      are never read. */
  datatype Rgb = Rgb(r: real, g: real, b: real)

  /** A single-channel picture. */
  type Grid = Picture<real>

  /** `greyscale_wt`: the luma weights of red, green and blue. */
  const GreyscaleWt := Rgb(0.299, 0.587, 0.114)

  /** The weighted sum of one pixel's channels. */
  function Luma(p: Rgb, wts: Rgb): real {
    wts.r * p.r + wts.g * p.g + wts.b * p.b
  }

  /** `get_greyscale_image(image, colour_wts)`: every pixel replaced by its
      weighted channel sum, the shape kept. */
  function GetGreyscaleImage(img: Picture<Rgb>, wts: Rgb): (g: Grid)
    requires Rectangular(img)
    ensures Rectangular(g) && |g| == |img| && Width(g) == Width(img)
    ensures forall i, j :: 0 <= i < |img| && 0 <= j < Width(img) ==> g[i][j] == Luma(img[i][j], wts)
  {
    seq(|img|, i requires 0 <= i < |img| =>
      seq(Width(img), j requires 0 <= j < Width(img) => Luma(img[i][j], wts)))
  }

  /** The weights of `greyscale_wt` add up to one ... */
  lemma GreyscaleWtSumsToOne()
    ensures GreyscaleWt.r + GreyscaleWt.g + GreyscaleWt.b == 1.0
  {
  }

  /** ... so with them a grey pixel keeps its intensity, and a picture that
      is already grey is left as it is. */
  lemma GreyPixelsKeepTheirValue(img: Picture<Rgb>)
    requires Rectangular(img)
    requires forall i, j :: 0 <= i < |img| && 0 <= j < Width(img) ==> img[i][j].r == img[i][j].g == img[i][j].b
    ensures forall i, j :: 0 <= i < |img| && 0 <= j < Width(img) ==>
              GetGreyscaleImage(img, GreyscaleWt)[i][j] == img[i][j].r
  {
    forall i, j | 0 <= i < |img| && 0 <= j < Width(img)
      ensures Luma(img[i][j], GreyscaleWt) == img[i][j].r
    {
      var v := img[i][j].r;
      assert Luma(img[i][j], GreyscaleWt) == (0.299 + 0.587 + 0.114) * v;
    }
  }

  /** The greyscale of a picture with non-negative weights and channels is
      non-negative. */
  lemma GreyscaleNonNegative(img: Picture<Rgb>, wts: Rgb)
    requires Rectangular(img)
    requires 0.0 <= wts.r && 0.0 <= wts.g && 0.0 <= wts.b
    requires forall i, j :: 0 <= i < |img| && 0 <= j < Width(img) ==>
               0.0 <= img[i][j].r && 0.0 <= img[i][j].g && 0.0 <= img[i][j].b
    ensures forall i, j :: 0 <= i < |img| && 0 <= j < Width(img) ==> 0.0 <= GetGreyscaleImage(img, wts)[i][j]
  {
    forall i, j | 0 <= i < |img| && 0 <= j < Width(img)
      ensures 0.0 <= Luma(img[i][j], wts)
    {
      var p := img[i][j];
      assert 0.0 <= wts.r * p.r && 0.0 <= wts.g * p.g && 0.0 <= wts.b * p.b;
    }
  }

  /** The gradient magnitude from the two differences. */
  function Magnitude(num: Numerics, dx: real, dy: real): real {
    num.sqrt(dx * dx + dy * dy)
  }

  /** The gradient at (i, j) as `gradient_magnitude` fills it: the inner
      pixels first, then the last row, the last column and the corner,
      each with its own pair of differences. */
  function GradientAt(num: Numerics, g: Grid, i: nat, j: nat): real
    requires Rectangular(g) && i < |g| && j < Width(g)
  {
    var h, w := |g|, Width(g);
    if i < h - 1 && j < w - 1 then
      Magnitude(num, g[i + 1][j] - g[i][j], g[i][j + 1] - g[i][j])
    else if j < w - 1 then
      Magnitude(num, g[0][j] - g[h - 1][j], g[h - 1][j + 1] - g[h - 1][j])
    else if i < h - 1 then
      Magnitude(num, g[i + 1][w - 1] - g[i][w - 1], g[i][0] - g[i][w - 1])
    else
      Magnitude(num, g[0][w - 1] - g[h - 1][w - 1], g[h - 1][0] - g[h - 1][w - 1])
  }

  /** The gradient with the picture wrapped around at its edges: the
      difference to the next row and to the next column, modulo the
      height and the width. */
  function WrappedGradient(num: Numerics, g: Grid, i: nat, j: nat): real
    requires Rectangular(g) && i < |g| && j < Width(g)
  {
    Magnitude(num, g[(i + 1) % |g|][j] - g[i][j], g[i][(j + 1) % Width(g)] - g[i][j])
  }

  /** The four cases of `gradient_magnitude` are the one wrapped-around rule. */
  lemma GradientWrapsAround(num: Numerics, g: Grid, i: nat, j: nat)
    requires Rectangular(g) && i < |g| && j < Width(g)
    ensures GradientAt(num, g, i, j) == WrappedGradient(num, g, i, j)
  {
    var h, w := |g|, Width(g);
    var ni, nj := Next(i, h), Next(j, w);
    NextWraps(i, h);
    NextWraps(j, w);
    assert WrappedGradient(num, g, i, j) == Magnitude(num, g[ni][j] - g[i][j], g[i][nj] - g[i][j]);
  }

  /** The row or column after `i`, wrapping at `n`. */
  function Next(i: nat, n: nat): nat
    requires i < n
  {
    if i < n - 1 then i + 1 else 0
  }

  lemma NextWraps(i: nat, n: nat)
    requires i < n
    ensures (i + 1) % n == Next(i, n)
  {
  }

  /** `gradient_magnitude(image, colour_wts)` on a picture with at least one
      row and one column (an empty picture makes the source index out of
      range). The result has the picture's shape, is never negative, and
      is the wrapped-around gradient of the greyscale picture. */
  function GradientMagnitude(num: Numerics, img: Picture<Rgb>, wts: Rgb): (e: Grid)
    requires Rectangular(img) && 1 <= |img| && 1 <= Width(img)
    ensures Rectangular(e) && |e| == |img| && Width(e) == Width(img)
    ensures forall i, j :: 0 <= i < |e| && 0 <= j < Width(e) ==> 0.0 <= e[i][j]
    ensures forall i, j :: 0 <= i < |e| && 0 <= j < Width(e) ==>
              e[i][j] == WrappedGradient(num, GetGreyscaleImage(img, wts), i, j)
  {
    var g := GetGreyscaleImage(img, wts);
    var e := seq(|img|, i requires 0 <= i < |img| =>
               seq(Width(img), j requires 0 <= j < Width(img) => GradientAt(num, g, i, j)));
    assert forall i, j :: 0 <= i < |e| && 0 <= j < Width(e) ==> e[i][j] == GradientAt(num, g, i, j);
    AllWrapAround(num, g);
    e
  }

  lemma AllWrapAround(num: Numerics, g: Grid)
    requires Rectangular(g)
    ensures forall i, j :: 0 <= i < |g| && 0 <= j < Width(g) ==> GradientAt(num, g, i, j) == WrappedGradient(num, g, i, j)
  {
    forall i, j | 0 <= i < |g| && 0 <= j < Width(g)
      ensures GradientAt(num, g, i, j) == WrappedGradient(num, g, i, j)
    {
      GradientWrapsAround(num, g, i, j);
    }
  }
}
