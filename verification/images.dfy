/** Pictures as rows of pixels, and the quarter turns `np.rot90(image, k=1)`
    and `np.rot90(image, k=3)` that the seam carver uses to turn horizontal
    seams into vertical ones. */
module Images {

  /** Rows of pixels, top row first. A picture with no rows has width 0. */
  type Picture<T> = seq<seq<T>>

  function Width<T>(img: Picture<T>): nat {
    if |img| == 0 then 0 else |img[0]|
  }

  /** Every row has the same length. */
  predicate Rectangular<T>(img: Picture<T>) {
    forall i :: 0 <= i < |img| ==> |img[i]| == Width(img)
  }

  /** `np.rot90(image, k=1)`: a counter-clockwise quarter turn. The last
      column becomes the first row. */
  function Rot90<T>(img: Picture<T>): (r: Picture<T>)
    requires Rectangular(img)
    ensures Rectangular(r)
    ensures |r| == Width(img)
    ensures |r| > 0 ==> Width(r) == |img|
    ensures forall i, j :: 0 <= i < |r| && 0 <= j < |img| ==> r[i][j] == img[j][Width(img) - 1 - i]
  {
    seq(Width(img), i requires 0 <= i < Width(img) =>
      seq(|img|, j requires 0 <= j < |img| => img[j][Width(img) - 1 - i]))
  }

  /** `np.rot90(image, k=3)`: a clockwise quarter turn. The first column,
      read bottom to top, becomes the first row. */
  function Rot270<T>(img: Picture<T>): (r: Picture<T>)
    requires Rectangular(img)
    ensures Rectangular(r)
    ensures |r| == Width(img)
    ensures |r| > 0 ==> Width(r) == |img|
    ensures forall i, j :: 0 <= i < |r| && 0 <= j < |img| ==> r[i][j] == img[|img| - 1 - j][i]
  {
    seq(Width(img), i requires 0 <= i < Width(img) =>
      seq(|img|, j requires 0 <= j < |img| => img[|img| - 1 - j][i]))
  }

  /** Turning back undoes a turn. A picture whose rows are empty has no
      rows once turned, so it needs at least one column (or no rows). */
  lemma Rot270Rot90<T>(img: Picture<T>)
    requires Rectangular(img)
    requires |img| == 0 || Width(img) > 0
    ensures Rot270(Rot90(img)) == img
  {
    var r := Rot270(Rot90(img));
    assert |r| == |img|;
    forall i | 0 <= i < |img|
      ensures r[i] == img[i]
    {
      assert |r[i]| == |img[i]|;
      forall j | 0 <= j < |img[i]|
        ensures r[i][j] == img[i][j]
      {
        assert r[i][j] == Rot90(img)[Width(img) - 1 - j][i];
      }
    }
  }

  lemma Rot90Rot270<T>(img: Picture<T>)
    requires Rectangular(img)
    requires |img| == 0 || Width(img) > 0
    ensures Rot90(Rot270(img)) == img
  {
    var r := Rot90(Rot270(img));
    assert |r| == |img|;
    forall i | 0 <= i < |img|
      ensures r[i] == img[i]
    {
      assert |r[i]| == |img[i]|;
      forall j | 0 <= j < |img[i]|
        ensures r[i][j] == img[i][j]
      {
        assert r[i][j] == Rot270(img)[j][|img| - 1 - i];
      }
    }
  }
}
