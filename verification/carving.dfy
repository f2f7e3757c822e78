/** Seam carving on whole pictures: `get_vertical_seams`,
    `get_horizontal_seams`, `colouring_seams` and the three schemes of
    `reshape_seam_carving`.

    The carving loop does not depend on how a seam is chosen, only on the
    chosen path being a seam; so the operations here take the seam finder
    as a parameter, and the source's finder is `CheapestSeam(num)`
    (`calculate_cost_matrix` followed by `find_seam`). A picture with no
    rows or no columns makes the source index out of range as soon as it
    computes a cost matrix; the model answers `None` there. */
module Carving {
  import opened Basics
  import opened Vectors
  import opened Images
  import opened Greyscale
  import opened Seams

  /** Chooses the seam to remove from a picture. */
  type Finder = Picture<Rgb> -> seq<Pixel>

  /** The finder returns a seam of every picture with a row and a column. */
  ghost predicate FindsSeams(find: Finder) {
    forall img {:trigger find(img)} :: Rectangular(img) && 1 <= |img| && 1 <= Width(img) ==> IsSeam(find(img), |img|, Width(img))
  }

  /** The seam finder of `get_vertical_seams`: `find_seam` on the cost
      matrix and back-pointers of `calculate_cost_matrix`. */
  function CheapestSeam(num: Numerics): Finder {
    img =>
      if Rectangular(img) && 1 <= |img| && 1 <= Width(img) then
        var mb := CalculateCostMatrix(num, img);
        FindSeam(mb.0, mb.1)
      else []
  }

  /** The finder of `get_vertical_seams` returns seams. */
  lemma CheapestSeamFindsSeams(num: Numerics)
    ensures FindsSeams(CheapestSeam(num))
  {
    forall img | Rectangular(img) && 1 <= |img| && 1 <= Width(img)
      ensures IsSeam(CheapestSeam(num)(img), |img|, Width(img))
    {
      CheapestSeamIsTraced(num, img);
    }
  }

  /** Its seam is the one `find_seam` traces on the cost matrix and
      back-pointers of the picture. */
  lemma CheapestSeamIsTraced(num: Numerics, img: Picture<Rgb>)
    requires Rectangular(img) && 1 <= |img| && 1 <= Width(img)
    ensures var mb := CalculateCostMatrix(num, img);
            CheapestSeam(num)(img) == FindSeam(mb.0, mb.1)
  {
  }

  /** The seam finder with back-pointers that record where each cost came
      from (`Seams.FindSeamWithEdges`): it returns a cheapest seam where
      the source's may not. */
  function CheapestSeamWithEdges(num: Numerics): Finder {
    img =>
      if Rectangular(img) && 1 <= |img| && 1 <= Width(img) then
        var e := GradientMagnitude(num, img, GreyscaleWt);
        var g := GetGreyscaleImage(img, GreyscaleWt);
        FindSeamWithEdges(CalculateCost(e, g), g)
      else []
  }

  /** The corrected finder returns seams too, so every carving property
      here holds for it; and, unless a cost passes `sys.maxsize`, no seam
      is cheaper than the one it returns. */
  lemma CheapestSeamWithEdgesFindsSeams(num: Numerics)
    ensures FindsSeams(CheapestSeamWithEdges(num))
    ensures forall img, t ::
              (Rectangular(img) && 1 <= |img| && 1 <= Width(img) && IsSeam(t, |img|, Width(img)) &&
               BelowMaxSize(GradientMagnitude(num, img, GreyscaleWt), GetGreyscaleImage(img, GreyscaleWt))) ==>
                SeamCost(GradientMagnitude(num, img, GreyscaleWt), GetGreyscaleImage(img, GreyscaleWt), CheapestSeamWithEdges(num)(img)) <=
                SeamCost(GradientMagnitude(num, img, GreyscaleWt), GetGreyscaleImage(img, GreyscaleWt), t)
  {
    forall img, t | Rectangular(img) && 1 <= |img| && 1 <= Width(img) && IsSeam(t, |img|, Width(img)) &&
                    BelowMaxSize(GradientMagnitude(num, img, GreyscaleWt), GetGreyscaleImage(img, GreyscaleWt))
      ensures SeamCost(GradientMagnitude(num, img, GreyscaleWt), GetGreyscaleImage(img, GreyscaleWt), CheapestSeamWithEdges(num)(img)) <=
              SeamCost(GradientMagnitude(num, img, GreyscaleWt), GetGreyscaleImage(img, GreyscaleWt), t)
    {
      FoundSeamIsCheapest(GradientMagnitude(num, img, GreyscaleWt), GetGreyscaleImage(img, GreyscaleWt));
    }
  }

  /** The seams found, each in the picture it was removed from, and the
      picture that remains. */
  type Carved = (seq<seq<Pixel>>, Picture<Rgb>)

  /** The picture without the seam the finder chooses: one column
      narrower. */
  function CarveOnce(find: Finder, img: Picture<Rgb>): (r: Picture<Rgb>)
    requires FindsSeams(find) && Rectangular(img) && 1 <= |img| && 1 <= Width(img)
    ensures r == RemoveSeam(img, find(img))
    ensures Rectangular(r) && |r| == |img| && Width(r) == Width(img) - 1
  {
    RemoveSeamShape(img, find(img));
    RemoveSeam(img, find(img))
  }

  /** `get_vertical_seams(image, k)`: `k` times, choose a seam and remove
      it. It succeeds exactly when the picture has a row and at least `k`
      columns (or `k` is not positive); then it lists `k` seams and the
      picture left is `k` columns narrower. */
  function GetVerticalSeams(find: Finder, img: Picture<Rgb>, k: int): (r: Option<Carved>)
    requires FindsSeams(find) && Rectangular(img)
    ensures r.Some? <==> k <= 0 || (1 <= |img| && k <= Width(img))
    ensures r.Some? && k <= 0 ==> r.value == ([], img)
    ensures r.Some? && 0 < k ==>
              |r.value.0| == k && Rectangular(r.value.1) &&
              |r.value.1| == |img| && Width(r.value.1) == Width(img) - k
    decreases if k > 0 then k else 0
  {
    if k <= 0 then Some(([], img))
    else if |img| == 0 || Width(img) == 0 then None
    else
      var rest := CarveOnce(find, img);
      Prepend(find(img), GetVerticalSeams(find, rest, k - 1))
  }

  /** A seam listed in front of the seams found after it. */
  function Prepend(seam: seq<Pixel>, more: Option<Carved>): Option<Carved> {
    if more.None? then None else Some(([seam] + more.value.0, more.value.1))
  }

  /** One round of `get_vertical_seams`, then the rounds after it. */
  lemma VerticalSeamsUnfold(find: Finder, img: Picture<Rgb>, k: int)
    requires FindsSeams(find) && Rectangular(img) && 0 < k && 1 <= |img| && 1 <= Width(img)
    ensures GetVerticalSeams(find, img, k) == Prepend(find(img), GetVerticalSeams(find, CarveOnce(find, img), k - 1))
  {
  }

  /** The `i`-th seam listed by `get_vertical_seams` is a seam of a picture
      `i` columns narrower than the original. */
  lemma {:induction false} VerticalSeamsAreSeams(find: Finder, img: Picture<Rgb>, k: int)
    requires FindsSeams(find) && Rectangular(img) && GetVerticalSeams(find, img, k).Some?
    ensures forall i :: 0 <= i < |GetVerticalSeams(find, img, k).value.0| ==>
              i <= Width(img) && IsSeam(GetVerticalSeams(find, img, k).value.0[i], |img|, Width(img) - i)
    decreases if k > 0 then k else 0
  {
    if k > 0 {
      var rest := CarveOnce(find, img);
      VerticalSeamsAreSeams(find, rest, k - 1);
      ConsSeam(find(img), GetVerticalSeams(find, rest, k - 1).value.0, |img|, Width(img), Width(rest));
    }
  }

  /** A seam of a picture, followed by seams of ever narrower pictures
      starting one column narrower. */
  lemma ConsSeam(seam: seq<Pixel>, seams: seq<seq<Pixel>>, h: nat, w: nat, w1: nat)
    requires w1 + 1 == w && |seams| <= w1
    requires IsSeam(seam, h, w)
    requires forall i :: 0 <= i < |seams| ==> IsSeam(seams[i], h, w1 - i)
    ensures forall i :: 0 <= i < |seams| + 1 ==> IsSeam(([seam] + seams)[i], h, w - i)
  {
    var all := [seam] + seams;
    forall i | 0 <= i < |seams| + 1
      ensures IsSeam(all[i], h, w - i)
    {
      if i > 0 {
        assert all[i] == seams[i - 1];
      }
    }
  }

  /** `b` more vertical seams removed from what an earlier carving left,
      listed after the earlier ones. */
  function ThenVertical(find: Finder, first: Option<Carved>, b: int): Option<Carved>
    requires FindsSeams(find) && (first.Some? ==> Rectangular(first.value.1))
  {
    if first.None? then None
    else
      var second := GetVerticalSeams(find, first.value.1, b);
      if second.None? then None else Some((first.value.0 + second.value.0, second.value.1))
  }

  lemma PrependThenVertical(find: Finder, seam: seq<Pixel>, first: Option<Carved>, b: int)
    requires FindsSeams(find) && (first.Some? ==> Rectangular(first.value.1))
    ensures ThenVertical(find, Prepend(seam, first), b) == Prepend(seam, ThenVertical(find, first, b))
  {
    if first.Some? {
      var second := GetVerticalSeams(find, first.value.1, b);
      if second.Some? {
        assert [seam] + (first.value.0 + second.value.0) == ([seam] + first.value.0) + second.value.0;
      }
    }
  }

  /** Removing `a + b` seams is removing `a` seams and then `b` more from
      what is left: the seam lists are concatenated and the pictures left
      agree. */
  lemma {:induction false} VerticalSeamsCompose(find: Finder, img: Picture<Rgb>, a: nat, b: nat)
    requires FindsSeams(find) && Rectangular(img)
    ensures GetVerticalSeams(find, img, a + b) == ThenVertical(find, GetVerticalSeams(find, img, a), b)
    decreases a, 1
  {
    if a == 0 {
      ComposeNone(find, img, b);
    } else if |img| == 0 || Width(img) == 0 {
    } else {
      ComposeStep(find, img, a, b);
    }
  }

  lemma ComposeNone(find: Finder, img: Picture<Rgb>, b: nat)
    requires FindsSeams(find) && Rectangular(img)
    ensures GetVerticalSeams(find, img, b) == ThenVertical(find, GetVerticalSeams(find, img, 0), b)
  {
    if GetVerticalSeams(find, img, b).Some? {
      assert [] + GetVerticalSeams(find, img, b).value.0 == GetVerticalSeams(find, img, b).value.0;
    }
  }

  /** The step of `VerticalSeamsCompose`: the first seam, then the rest
      of the picture. */
  lemma {:induction false} ComposeStep(find: Finder, img: Picture<Rgb>, a: nat, b: nat)
    requires FindsSeams(find) && Rectangular(img) && 0 < a && 1 <= |img| && 1 <= Width(img)
    ensures GetVerticalSeams(find, img, a + b) == ThenVertical(find, GetVerticalSeams(find, img, a), b)
    decreases a, 0
  {
    var rest := CarveOnce(find, img);
    var first := GetVerticalSeams(find, rest, a - 1);
    calc {
      GetVerticalSeams(find, img, a + b);
      { VerticalSeamsUnfold(find, img, a + b); }
      Prepend(find(img), GetVerticalSeams(find, rest, (a - 1) + b));
      { VerticalSeamsCompose(find, rest, a - 1, b); }
      Prepend(find(img), ThenVertical(find, first, b));
      { PrependThenVertical(find, find(img), first, b); }
      ThenVertical(find, Prepend(find(img), first), b);
      { VerticalSeamsUnfold(find, img, a); }
      ThenVertical(find, GetVerticalSeams(find, img, a), b);
    }
  }

  /** A seam pixel `[row, column]` listed as `[column, row]`
      (`np.flip(seams, axis=2)`). */
  function Swap(p: Pixel): Pixel {
    (p.1, p.0)
  }

  function SwapAll(seams: seq<seq<Pixel>>): (r: seq<seq<Pixel>>)
    ensures |r| == |seams|
    ensures forall i :: 0 <= i < |seams| ==> |r[i]| == |seams[i]|
    ensures forall i, m :: 0 <= i < |seams| && 0 <= m < |seams[i]| ==> r[i][m] == Swap(seams[i][m])
  {
    seq(|seams|, i requires 0 <= i < |seams| => seq(|seams[i]|, m requires 0 <= m < |seams[i]| => Swap(seams[i][m])))
  }

  /** `get_horizontal_seams(image, k)`: turn the picture a quarter turn
      counter-clockwise, remove `k` vertical seams, list their pixels with
      the two coordinates exchanged, and turn back. A negative `k` fails
      (`np.flip` of an empty list has no axis 2). numpy keeps the shape of
      a picture without columns through both turns, which rows of pixels
      cannot, so that case is answered directly. It succeeds exactly when
      `k` is 0, or the picture has a column and at least `k` rows; then it
      lists `k` seams and the picture left is `k` rows shorter. */
  function GetHorizontalSeams(find: Finder, img: Picture<Rgb>, k: int): (r: Option<Carved>)
    requires FindsSeams(find) && Rectangular(img)
    ensures r.Some? <==> k == 0 || (0 < k && 1 <= Width(img) && k <= |img|)
    ensures r.Some? && k == 0 ==> r.value == ([], img)
    ensures r.Some? && 0 < k ==>
              |r.value.0| == k && Rectangular(r.value.1) && |r.value.1| == |img| - k &&
              (|r.value.1| > 0 ==> Width(r.value.1) == Width(img))
  {
    if k < 0 then None
    else if Width(img) == 0 && k == 0 then Some(([], img))
    else
      var turned := Rot90(img);
      var v := GetVerticalSeams(find, turned, k);
      if v.None? then None
      else if k == 0 then
        Rot270Rot90(img);
        Some((v.value.0, Rot270(v.value.1)))
      else
        Some((SwapAll(v.value.0), Rot270(v.value.1)))
  }

  /** Seam `i` of `get_horizontal_seams` lists one pixel per column, from
      the last column to the first, its row inside a picture `i` rows
      shorter than the original. */
  lemma HorizontalSeamsAreSeams(find: Finder, img: Picture<Rgb>, k: int)
    requires FindsSeams(find) && Rectangular(img) && 0 < k && GetHorizontalSeams(find, img, k).Some?
    ensures var seams := GetHorizontalSeams(find, img, k).value.0;
            forall i :: 0 <= i < k ==>
              |seams[i]| == Width(img) &&
              forall m :: 0 <= m < Width(img) ==>
                seams[i][m].1 == Width(img) - 1 - m && 0 <= seams[i][m].0 < |img| - i
  {
    VerticalSeamsAreSeams(find, Rot90(img), k);
  }

  /** One horizontal seam removes one pixel from every column, keeping the
      others in order; but the entry that lists column `width − 1 − m` is
      the one removed from column `m`: the listed columns are mirrored,
      because the quarter turn reverses the column order and the exchange
      of coordinates does not undo that. */
  lemma HorizontalSeamListsMirroredColumns(find: Finder, img: Picture<Rgb>)
    requires FindsSeams(find) && Rectangular(img) && 1 <= |img| && 1 <= Width(img)
    ensures var r := GetHorizontalSeams(find, img, 1).value;
            forall m :: 0 <= m < Width(img) ==> r.0[0][m].1 == Width(img) - 1 - m
    ensures var r := GetHorizontalSeams(find, img, 1).value;
            forall m, i :: 0 <= m < Width(img) && 0 <= i < |img| - 1 ==>
              r.1[i][m] == if i < r.0[0][m].0 then img[i][m] else img[i + 1][m]
  {
    var seam := find(Rot90(img));
    var r := GetHorizontalSeams(find, img, 1).value;
    OneHorizontalSeam(find, img);
    forall m, i | 0 <= m < Width(img) && 0 <= i < |img| - 1
      ensures r.1[i][m] == if i < r.0[0][m].0 then img[i][m] else img[i + 1][m]
    {
      assert r.0[0][m] == Swap(seam[m]);
      TurnedRemoval(img, seam, m, i);
    }
  }

  /** Where pixel `(row, column)` of the picture turned a quarter turn
      counter-clockwise lies in the original picture of `w` columns: row
      `column`, column `w − 1 − row`. */
  function Unturn(p: Pixel, w: int): Pixel {
    (p.1, w - 1 - p.0)
  }

  function UnturnAll(seams: seq<seq<Pixel>>, w: int): (r: seq<seq<Pixel>>)
    ensures |r| == |seams|
    ensures forall i :: 0 <= i < |seams| ==> |r[i]| == |seams[i]|
    ensures forall i, m :: 0 <= i < |seams| && 0 <= m < |seams[i]| ==> r[i][m] == Unturn(seams[i][m], w)
  {
    seq(|seams|, i requires 0 <= i < |seams| => seq(|seams[i]|, m requires 0 <= m < |seams[i]| => Unturn(seams[i][m], w)))
  }

  /** `get_horizontal_seams` with the listing corrected: every seam pixel
      found in the turned picture is mapped back through the turn instead
      of having its two coordinates exchanged. It succeeds exactly when
      the source's version does and leaves the same picture. */
  function GetHorizontalSeamsUnturned(find: Finder, img: Picture<Rgb>, k: int): (r: Option<Carved>)
    requires FindsSeams(find) && Rectangular(img)
    ensures r.Some? <==> GetHorizontalSeams(find, img, k).Some?
    ensures r.Some? ==> r.value.1 == GetHorizontalSeams(find, img, k).value.1
    ensures r.Some? ==> |r.value.0| == |GetHorizontalSeams(find, img, k).value.0|
  {
    if k < 0 then None
    else if Width(img) == 0 && k == 0 then Some(([], img))
    else
      var turned := Rot90(img);
      var v := GetVerticalSeams(find, turned, k);
      if v.None? then None
      else Some((UnturnAll(v.value.0, Width(img)), Rot270(v.value.1)))
  }

  /** The two listings are mirror images: the corrected one names the
      same row as the source's, in column `width − 1 − c` where the
      source's names column `c`. */
  lemma ListingsAreMirrored(find: Finder, img: Picture<Rgb>, k: int)
    requires FindsSeams(find) && Rectangular(img) && 0 < k && GetHorizontalSeams(find, img, k).Some?
    ensures var asWritten := GetHorizontalSeams(find, img, k).value.0;
            var corrected := GetHorizontalSeamsUnturned(find, img, k).value.0;
            forall i :: 0 <= i < k ==>
              |corrected[i]| == |asWritten[i]| == Width(img) &&
              forall m :: 0 <= m < Width(img) ==>
                corrected[i][m] == (asWritten[i][m].0, Width(img) - 1 - asWritten[i][m].1)
  {
    HorizontalSeamsAreSeams(find, img, k);
  }

  /** The corrected listing names the pixels the seam removes: its entry
      `m` is in column `m`, and the rows of column `m` below the row it
      names move up by one, the rows above it stay. */
  lemma UnturnedListsRemovedPixels(find: Finder, img: Picture<Rgb>)
    requires FindsSeams(find) && Rectangular(img) && 1 <= |img| && 1 <= Width(img)
    ensures var r := GetHorizontalSeamsUnturned(find, img, 1).value;
            |r.0| == 1 && |r.0[0]| == Width(img) &&
            (forall m :: 0 <= m < Width(img) ==> r.0[0][m].1 == m && 0 <= r.0[0][m].0 < |img|) &&
            forall m, i :: 0 <= m < Width(img) && 0 <= i < |img| - 1 ==>
              r.1[i][m] == if i < r.0[0][m].0 then img[i][m] else img[i + 1][m]
  {
    HorizontalSeamsAreSeams(find, img, 1);
    HorizontalSeamListsMirroredColumns(find, img);
    ListingsAreMirrored(find, img, 1);
  }

  /** One horizontal seam is the seam of the turned picture, its
      coordinates exchanged, and the turned picture without it, turned
      back. */
  lemma OneHorizontalSeam(find: Finder, img: Picture<Rgb>)
    requires FindsSeams(find) && Rectangular(img) && 1 <= |img| && 1 <= Width(img)
    ensures var turned := Rot90(img);
            IsSeam(find(turned), Width(img), |img|) &&
            GetHorizontalSeams(find, img, 1).value == (SwapAll([find(turned)]), Rot270(RemoveSeam(turned, find(turned))))
  {
    var turned := Rot90(img);
    var seam := find(turned);
    var carved := CarveOnce(find, turned);
    VerticalSeamsUnfold(find, turned, 1);
    assert GetVerticalSeams(find, carved, 0) == Some(([], carved));
    assert [seam] + [] == [seam];
  }

  /** Removing a seam from the turned picture and turning back removes,
      from column `m`, the pixel in the row listed by the seam's entry `m`. */
  lemma TurnedRemoval(img: Picture<Rgb>, seam: seq<Pixel>, m: nat, i: nat)
    requires Rectangular(img) && 1 <= |img| && 1 <= Width(img)
    requires IsSeam(seam, Width(img), |img|)
    requires m < Width(img) && i < |img| - 1
    ensures seam[m].0 == Width(img) - 1 - m
    ensures Rot270(RemoveSeam(Rot90(img), seam))[i][m] == if i < seam[m].1 then img[i][m] else img[i + 1][m]
  {
    var w := Width(img);
    var turned := Rot90(img);
    var carved := RemoveSeam(turned, seam);
    RemoveSeamShape(turned, seam);
    assert Rot270(carved)[i][m] == carved[w - 1 - m][i];
    assert SeamColumn(seam, w, |img|, w - 1 - m) == seam[m].1;
  }

  /** The pixel `p` lies inside the picture. */
  predicate Inside<T>(img: Picture<T>, p: Pixel) {
    0 <= p.0 < |img| && 0 <= p.1 < Width(img)
  }

  /** Paints the pixels of one seam, first to last. */
  function Paint<T>(img: Picture<T>, s: seq<Pixel>, colour: T): (r: Picture<T>)
    requires Rectangular(img) && forall m :: 0 <= m < |s| ==> Inside(img, s[m])
    ensures Rectangular(r) && |r| == |img| && Width(r) == Width(img)
    ensures forall i, j :: 0 <= i < |img| && 0 <= j < Width(img) ==>
              r[i][j] == if (i, j) in s then colour else img[i][j]
    decreases |s|
  {
    if |s| == 0 then img
    else
      var p := s[0];
      assert Inside(img, p);
      var next := img[p.0 := img[p.0][p.1 := colour]];
      assert Width(next) == Width(img) && Rectangular(next);
      forall m | 0 <= m < |s[1..]|
        ensures Inside(next, s[1..][m])
      {
        assert s[1..][m] == s[m + 1] && Inside(img, s[m + 1]);
      }
      var r := Paint(next, s[1..], colour);
      assert forall i, j :: (i, j) in s <==> (i, j) == p || (i, j) in s[1..];
      r
  }

  /** The pixel (i, j) lies on one of the seams. */
  predicate OnSeams(seams: seq<seq<Pixel>>, i: int, j: int) {
    exists k :: 0 <= k < |seams| && (i, j) in seams[k]
  }

  /** `colouring_seams(image, seams, colour)`: every pixel of every seam
      takes the colour; every other pixel keeps its value. */
  function ColouringSeams<T>(img: Picture<T>, seams: seq<seq<Pixel>>, colour: T): (r: Picture<T>)
    requires Rectangular(img)
    requires forall k, m :: 0 <= k < |seams| && 0 <= m < |seams[k]| ==> Inside(img, seams[k][m])
    ensures Rectangular(r) && |r| == |img| && Width(r) == Width(img)
    ensures forall i, j :: 0 <= i < |img| && 0 <= j < Width(img) ==>
              r[i][j] == if OnSeams(seams, i, j) then colour else img[i][j]
    decreases |seams|
  {
    if |seams| == 0 then img
    else
      var first := Paint(img, seams[0], colour);
      forall k, m | 0 <= k < |seams[1..]| && 0 <= m < |seams[1..][k]|
        ensures Inside(first, seams[1..][k][m])
      {
        assert seams[1..][k] == seams[k + 1] && Inside(img, seams[k + 1][m]);
      }
      var r := ColouringSeams(first, seams[1..], colour);
      assert forall i, j :: OnSeams(seams, i, j) <==> (i, j) in seams[0] || OnSeams(seams[1..], i, j) by {
        forall i, j ensures OnSeams(seams, i, j) ==> (i, j) in seams[0] || OnSeams(seams[1..], i, j) {
          if OnSeams(seams, i, j) {
            var k :| 0 <= k < |seams| && (i, j) in seams[k];
            if k > 0 {
              assert seams[1..][k - 1] == seams[k];
            }
          }
        }
        forall i, j ensures OnSeams(seams[1..], i, j) ==> OnSeams(seams, i, j) {
          if OnSeams(seams[1..], i, j) {
            var k :| 0 <= k < |seams[1..]| && (i, j) in seams[1..][k];
            assert seams[k + 1] == seams[1..][k];
          }
        }
      }
      r
  }

  /** Colouring the same seams twice changes nothing more. */
  lemma ColouringIsIdempotent<T>(img: Picture<T>, seams: seq<seq<Pixel>>, colour: T)
    requires Rectangular(img)
    requires forall k, m :: 0 <= k < |seams| && 0 <= m < |seams[k]| ==> Inside(img, seams[k][m])
    ensures ColouringSeams(ColouringSeams(img, seams, colour), seams, colour) == ColouringSeams(img, seams, colour)
  {
    var once := ColouringSeams(img, seams, colour);
    var twice := ColouringSeams(once, seams, colour);
    assert |twice| == |once|;
    forall i | 0 <= i < |once|
      ensures twice[i] == once[i]
    {
      assert |twice[i]| == |once[i]|;
    }
  }

  /** The seams of `get_vertical_seams` all lie inside the original
      picture, so they can be coloured on it. */
  lemma VerticalSeamsInsidePicture(find: Finder, img: Picture<Rgb>, k: int)
    requires FindsSeams(find) && Rectangular(img) && GetVerticalSeams(find, img, k).Some?
    ensures var seams := GetVerticalSeams(find, img, k).value.0;
            forall s, m :: 0 <= s < |seams| && 0 <= m < |seams[s]| ==> Inside(img, seams[s][m])
  {
    var seams := GetVerticalSeams(find, img, k).value.0;
    VerticalSeamsAreSeams(find, img, k);
    forall s, m | 0 <= s < |seams| && 0 <= m < |seams[s]|
      ensures Inside(img, seams[s][m])
    {
      assert IsSeam(seams[s], |img|, Width(img) - s);
    }
  }

  /** Scheme 0 of `reshape_seam_carving`: all vertical seams, then all
      horizontal ones. */
  function VerticalFirst(find: Finder, img: Picture<Rgb>, rows: int, cols: int): (r: Option<Picture<Rgb>>)
    requires FindsSeams(find) && Rectangular(img)
    ensures r.Some? ==> Rectangular(r.value)
    ensures 0 <= rows < |img| && 0 <= cols < Width(img) ==>
              r.Some? && |r.value| == |img| - rows && Width(r.value) == Width(img) - cols
    ensures 1 <= |img| && 0 <= cols < Width(img) && rows == |img| ==> r.Some? && |r.value| == 0
    ensures 1 <= |img| && 1 <= Width(img) && cols == Width(img) && 0 <= rows <= |img| ==>
              (r.Some? <==> rows == 0) && (r.Some? ==> |r.value| == |img| && Width(r.value) == 0)
  {
    var v := GetVerticalSeams(find, img, cols);
    if v.None? then None
    else
      var h := GetHorizontalSeamsUnturned(find, v.value.1, rows);
      if h.None? then None else Some(h.value.1)
  }

  /** Scheme 1 of `reshape_seam_carving`: all horizontal seams, then all
      vertical ones. */
  function HorizontalFirst(find: Finder, img: Picture<Rgb>, rows: int, cols: int): (r: Option<Picture<Rgb>>)
    requires FindsSeams(find) && Rectangular(img)
    ensures r.Some? ==> Rectangular(r.value)
    ensures 0 <= rows < |img| && 0 <= cols < Width(img) ==>
              r.Some? && |r.value| == |img| - rows && Width(r.value) == Width(img) - cols
    ensures 1 <= Width(img) && 0 <= rows < |img| && cols == Width(img) ==>
              r.Some? && |r.value| == |img| - rows && Width(r.value) == 0
    ensures 1 <= |img| && 1 <= Width(img) && rows == |img| && 0 <= cols <= Width(img) ==>
              (r.Some? <==> cols == 0) && (r.Some? ==> |r.value| == 0)
  {
    var h := GetHorizontalSeamsUnturned(find, img, rows);
    if h.None? then None
    else
      var v := GetVerticalSeams(find, h.value.1, cols);
      if v.None? then None else Some(v.value.1)
  }

  /** Scheme 2 of `reshape_seam_carving`: while seams remain, remove one
      vertical seam (if any remain) and then one horizontal seam (if any
      remain). With counts that leave at least one row and one column, it
      succeeds with a picture exactly that much smaller. */
  function Alternate(find: Finder, img: Picture<Rgb>, rows: int, cols: int): (r: Option<Picture<Rgb>>)
    requires FindsSeams(find) && Rectangular(img)
    ensures r.Some? ==> Rectangular(r.value)
    ensures 0 <= rows < |img| && 0 <= cols < Width(img) ==>
              r.Some? && |r.value| == |img| - rows && Width(r.value) == Width(img) - cols
    decreases (if rows > 0 then rows else 0) + (if cols > 0 then cols else 0)
  {
    if rows <= 0 && cols <= 0 then Some(img)
    else
      var afterVertical := if cols > 0 then
                             var v := GetVerticalSeams(find, img, 1);
                             if v.None? then None else Some(v.value.1)
                           else Some(img);
      if afterVertical.None? then None
      else
        var a := afterVertical.value;
        var afterHorizontal := if rows > 0 then
                                 var h := GetHorizontalSeamsUnturned(find, a, 1);
                                 if h.None? then None else Some(h.value.1)
                               else Some(a);
        if afterHorizontal.None? then None
        else Alternate(find, afterHorizontal.value, if rows > 0 then rows - 1 else rows, if cols > 0 then cols - 1 else cols)
  }

  /** With no rows to remove, alternating is removing all the vertical
      seams at once. */
  lemma {:induction false} AlternateWithoutRows(find: Finder, img: Picture<Rgb>, cols: nat)
    requires FindsSeams(find) && Rectangular(img)
    ensures Alternate(find, img, 0, cols) == Remaining(GetVerticalSeams(find, img, cols))
    decreases cols
  {
    if cols > 0 {
      VerticalSeamsCompose(find, img, 1, cols - 1);
      AlternateVerticalStep(find, img, cols);
      var first := GetVerticalSeams(find, img, 1);
      if first.Some? {
        AlternateWithoutRows(find, first.value.1, cols - 1);
        assert Remaining(ThenVertical(find, first, cols - 1)) == Remaining(GetVerticalSeams(find, first.value.1, cols - 1));
      }
    }
  }

  /** The picture a carving leaves, if it succeeds. */
  function Remaining(c: Option<Carved>): Option<Picture<Rgb>> {
    if c.None? then None else Some(c.value.1)
  }

  /** One round of the alternating scheme when no rows remain. */
  lemma AlternateVerticalStep(find: Finder, img: Picture<Rgb>, cols: nat)
    requires FindsSeams(find) && Rectangular(img) && 0 < cols
    ensures var v := GetVerticalSeams(find, img, 1);
            Alternate(find, img, 0, cols) == if v.None? then None else Alternate(find, v.value.1, 0, cols - 1)
  {
  }

  /** Hence, when only the width changes, scheme 2 (alternating) gives the
      picture of scheme 0 (vertical seams first). */
  lemma SchemesAgreeOnWidth(find: Finder, img: Picture<Rgb>, cols: nat)
    requires FindsSeams(find) && Rectangular(img)
    ensures Alternate(find, img, 0, cols) == VerticalFirst(find, img, 0, cols)
  {
    AlternateWithoutRows(find, img, cols);
    VerticalFirstWithoutRows(find, img, cols);
  }

  lemma VerticalFirstWithoutRows(find: Finder, img: Picture<Rgb>, cols: int)
    requires FindsSeams(find) && Rectangular(img)
    ensures VerticalFirst(find, img, 0, cols) == Remaining(GetVerticalSeams(find, img, cols))
  {
  }

  /** `reshape_seam_carving(image, new_shape, scheme)` for a target no
      larger than the picture (the source asks again until it is). Scheme 0
      removes the vertical seams first, scheme 1 the horizontal ones first,
      scheme 2 alternates; any other scheme returns the picture unchanged.
      With a target of at least one row and one column every scheme
      reaches exactly the target shape. */
  function ReshapeSeamCarving(find: Finder, img: Picture<Rgb>, newHeight: int, newWidth: int, scheme: int): (r: Option<Picture<Rgb>>)
    requires FindsSeams(find) && Rectangular(img) && newHeight <= |img| && newWidth <= Width(img)
    ensures scheme != 0 && scheme != 1 && scheme != 2 ==> r == Some(img)
    ensures r.Some? ==> Rectangular(r.value)
    ensures 0 <= scheme <= 2 && 1 <= newHeight && 1 <= newWidth ==>
              r.Some? && |r.value| == newHeight && Width(r.value) == newWidth
    ensures scheme == 0 && 1 <= |img| && newHeight == 0 && 1 <= newWidth ==> r.Some? && |r.value| == 0
    ensures scheme == 0 && 1 <= |img| && 1 <= Width(img) && 0 <= newHeight && newWidth == 0 ==>
              (r.Some? <==> newHeight == |img|) && (r.Some? ==> |r.value| == |img| && Width(r.value) == 0)
    ensures scheme == 1 && 1 <= newHeight && newWidth == 0 && 1 <= Width(img) ==>
              r.Some? && |r.value| == newHeight && Width(r.value) == 0
    ensures scheme == 1 && 1 <= |img| && 1 <= Width(img) && newHeight == 0 && 0 <= newWidth ==>
              (r.Some? <==> newWidth == Width(img)) && (r.Some? ==> |r.value| == 0)
  {
    var rows, cols := |img| - newHeight, Width(img) - newWidth;
    if scheme == 0 then
      VerticalFirst(find, img, rows, cols)
    else if scheme == 1 then
      HorizontalFirst(find, img, rows, cols)
    else if scheme == 2 then
      Alternate(find, img, rows, cols)
    else
      Some(img)
  }
}
