/** The dynamic programme of the seam carver on one picture: the
    forward-energy edge costs (`calc_edges`), the cheapest predecessor
    (`find_min_neighbor_cost`), the cost matrix `M` (`calculate_cost`), the
    back-pointers (`calculate_cost_matrix`), the traced seam (`find_seam`)
    and its removal (`remove_seam`). */
module Seams {
  import opened Vectors
  import opened Images
  import opened Greyscale

  /** `sys.maxsize`, the cost of a predecessor that does not exist. */
  const MaxSize: real := 9223372036854775807.0

  function Abs(x: real): real {
    if x < 0.0 then -x else x
  }

  function Min(a: real, b: real): real {
    if a <= b then a else b
  }

  function MinNat(a: nat, b: nat): nat {
    if a <= b then a else b
  }

  /** `np.argmin`: the first position of a least element. */
  function ArgMin(s: seq<real>): (r: nat)
    requires |s| > 0
    ensures r < |s|
    ensures forall k :: 0 <= k < |s| ==> s[r] <= s[k]
    ensures forall k :: 0 <= k < r ==> s[r] < s[k]
  {
    if |s| == 1 then 0
    else
      var init := s[..|s| - 1];
      var m := ArgMin(init);
      assert forall k :: 0 <= k < |init| ==> s[k] == init[k];
      if s[|s| - 1] < s[m] then |s| - 1 else m
  }

  /** Those two properties pin the position down: no other position is the
      first least element. */
  lemma ArgMinIsUnique(s: seq<real>, k: nat)
    requires k < |s|
    requires forall i :: 0 <= i < |s| ==> s[k] <= s[i]
    requires forall i :: 0 <= i < k ==> s[k] < s[i]
    ensures k == ArgMin(s)
  {
  }

  /** The three predecessors of a pixel in the row above. */
  datatype Neighbour = Left | Vertical | Right

  /** `calc_edges(image, r, c, neighbour)` on the greyscale picture `g`: the
      cost of the pixels that become adjacent when the seam passes from the
      given predecessor to (r, c). The source only asks for a left
      predecessor away from the first column and a right one away from the
      last. */
  function CalcEdges(g: Grid, r: nat, c: nat, n: Neighbour): (cost: real)
    requires Rectangular(g) && 1 <= r < |g| && c < Width(g)
    requires n == Left ==> 0 < c
    requires n == Right ==> c + 1 < Width(g)
    ensures 0.0 <= cost
    ensures n == Vertical && (c == 0 || c == Width(g) - 1) ==> cost == 0.0
  {
    var w := Width(g);
    if n == Vertical && (c == 0 || c == w - 1) then 0.0
    else
      var across := if c != 0 && c != w - 1 then Abs(g[r][c + 1] - g[r][c - 1]) else 0.0;
      match n
      case Left => across + Abs(g[r - 1][c] - g[r][c - 1])
      case Right => across + Abs(g[r][c + 1] - g[r - 1][c])
      case Vertical => across
  }

  /** The picture seen in a mirror: every row reversed. */
  function MirrorRows(g: Grid): (m: Grid)
    requires Rectangular(g)
    ensures Rectangular(m) && |m| == |g| && Width(m) == Width(g)
    ensures forall i, j :: 0 <= i < |g| && 0 <= j < Width(g) ==> m[i][j] == g[i][Width(g) - 1 - j]
  {
    seq(|g|, i requires 0 <= i < |g| =>
      seq(Width(g), j requires 0 <= j < Width(g) => g[i][Width(g) - 1 - j]))
  }

  /** The edge costs do not prefer a side: in the mirrored picture a left
      predecessor costs what the right one costs in the original, and the
      vertical one costs the same. */
  lemma CalcEdgesMirror(g: Grid, r: nat, c: nat)
    requires Rectangular(g) && 1 <= r < |g| && c < Width(g)
    ensures c + 1 < Width(g) ==>
              CalcEdges(MirrorRows(g), r, Width(g) - 1 - c, Left) == CalcEdges(g, r, c, Right)
    ensures CalcEdges(MirrorRows(g), r, Width(g) - 1 - c, Vertical) == CalcEdges(g, r, c, Vertical)
  {
    var m, w := MirrorRows(g), Width(g);
    var c' := w - 1 - c;
    if c != 0 && c != w - 1 {
      assert m[r][c' + 1] == g[r][c - 1] && m[r][c' - 1] == g[r][c + 1];
      assert Abs(m[r][c' + 1] - m[r][c' - 1]) == Abs(g[r][c + 1] - g[r][c - 1]);
    }
    if c + 1 < w {
      assert m[r - 1][c'] == g[r - 1][c] && m[r][c' - 1] == g[r][c + 1];
      assert Abs(m[r - 1][c'] - m[r][c' - 1]) == Abs(g[r][c + 1] - g[r - 1][c]);
    }
  }

  /** `find_min_neighbor_cost(M, image, r, c)` with `prev` the finished row
      `r − 1` of `M`: the least of the three predecessor costs plus their
      edge costs, a missing predecessor counting as `sys.maxsize`. The
      result is at most every existing candidate and, unless the vertical
      candidate itself exceeds `sys.maxsize`, it is one of them: it is the
      minimum over the predecessors that exist. */
  function MinNeighbourCost(prev: seq<real>, g: Grid, r: nat, c: nat): (m: real)
    requires Rectangular(g) && 1 <= r < |g| && c < Width(g) && |prev| == Width(g)
    ensures m <= prev[c] + CalcEdges(g, r, c, Vertical)
    ensures 0 < c ==> m <= prev[c - 1] + CalcEdges(g, r, c, Left)
    ensures c + 1 < Width(g) ==> m <= prev[c + 1] + CalcEdges(g, r, c, Right)
    ensures prev[c] + CalcEdges(g, r, c, Vertical) <= MaxSize ==>
              m == prev[c] + CalcEdges(g, r, c, Vertical) ||
              (0 < c && m == prev[c - 1] + CalcEdges(g, r, c, Left)) ||
              (c + 1 < Width(g) && m == prev[c + 1] + CalcEdges(g, r, c, Right))
  {
    var left := if c != 0 then prev[c - 1] + CalcEdges(g, r, c, Left) else MaxSize;
    var right := if c != Width(g) - 1 then prev[c + 1] + CalcEdges(g, r, c, Right) else MaxSize;
    var vertical := prev[c] + CalcEdges(g, r, c, Vertical);
    Min(Min(left, vertical), right)
  }

  /** The energy map and the greyscale picture of one colour picture. */
  predicate SameShape(e: Grid, g: Grid) {
    Rectangular(e) && Rectangular(g) && |e| == |g| && Width(e) == Width(g)
  }

  /** Rows `0 .. n − 1` of the cost matrix `M` of `calculate_cost(e, g)`:
      row 0 is the energy, and every later entry is its energy plus the
      cheapest predecessor in the finished row above. */
  function CostRows(e: Grid, g: Grid, n: nat): (m: Grid)
    requires SameShape(e, g) && 1 <= n <= |e|
    ensures |m| == n
    ensures forall i :: 0 <= i < n ==> |m[i]| == Width(e)
    ensures m[0] == e[0]
    ensures forall i, c {:trigger e[i][c]} :: 1 <= i < n && 0 <= c < Width(e) ==>
              m[i][c] == e[i][c] + MinNeighbourCost(m[i - 1], g, i, c)
  {
    if n == 1 then [e[0]]
    else
      var above := CostRows(e, g, n - 1);
      var row := seq(Width(e), c requires 0 <= c < Width(e) => e[n - 1][c] + MinNeighbourCost(above[n - 2], g, n - 1, c));
      above + [row]
  }

  /** `calculate_cost(energy_map, image)`: the cost matrix `M`. */
  function CalculateCost(e: Grid, g: Grid): (m: Grid)
    requires SameShape(e, g) && 1 <= |e|
    ensures Rectangular(m) && |m| == |e| && Width(m) == Width(e)
    ensures m[0] == e[0]
    ensures forall i, c {:trigger e[i][c]} :: 1 <= i < |e| && 0 <= c < Width(e) ==>
              m[i][c] == e[i][c] + MinNeighbourCost(m[i - 1], g, i, c)
  {
    CostRows(e, g, |e|)
  }

  /** `calculate_cost` as the source writes it: `M` starts as a copy of the
      energy and is updated in place, row by row, left to right. The loops
      compute the cost matrix. */
  method CalculateCostInPlace(e: Grid, g: Grid) returns (m: Grid)
    requires SameShape(e, g) && 1 <= |e|
    ensures m == CalculateCost(e, g)
  {
    ghost var spec := CalculateCost(e, g);
    var w := Width(e);
    m := e;
    var row := 1;
    while row < |e|
      invariant 1 <= row <= |e| && |m| == |e|
      invariant forall i :: 0 <= i < row ==> m[i] == spec[i]
      invariant forall i :: row <= i < |e| ==> m[i] == e[i]
    {
      var col := 0;
      while col < w
        invariant 0 <= col <= w && |m| == |e| && |m[row]| == w
        invariant forall i :: 0 <= i < row ==> m[i] == spec[i]
        invariant forall i :: row < i < |e| ==> m[i] == e[i]
        invariant forall c :: 0 <= c < col ==> m[row][c] == spec[row][c]
        invariant forall c :: col <= c < w ==> m[row][c] == e[row][c]
      {
        var add := MinNeighbourCost(m[row - 1], g, row, col);
        m := m[row := m[row][col := m[row][col] + add]];
        col := col + 1;
      }
      assert m[row] == spec[row];
      row := row + 1;
    }
  }

  /** With non-negative energy every entry of `M` is at least its own
      energy, and so never negative: the costs only accumulate. */
  lemma {:induction false} CostAtLeastEnergy(e: Grid, g: Grid, i: nat)
    requires SameShape(e, g) && i < |e|
    requires forall r, c :: 0 <= r < |e| && 0 <= c < Width(e) ==> 0.0 <= e[r][c]
    ensures forall c :: 0 <= c < Width(e) ==> e[i][c] <= CalculateCost(e, g)[i][c]
    ensures forall c :: 0 <= c < Width(e) ==> 0.0 <= CalculateCost(e, g)[i][c]
  {
    var m := CalculateCost(e, g);
    if i > 0 {
      CostAtLeastEnergy(e, g, i - 1);
      forall c | 0 <= c < Width(e)
        ensures e[i][c] <= m[i][c]
      {
        NonNegativeMinimum(m[i - 1], g, i, c);
      }
    }
  }

  /** When every existing candidate is non-negative, so is the cheapest. */
  lemma NonNegativeMinimum(prev: seq<real>, g: Grid, r: nat, c: nat)
    requires Rectangular(g) && 1 <= r < |g| && c < Width(g) && |prev| == Width(g)
    requires forall k :: 0 <= k < |prev| ==> 0.0 <= prev[k]
    ensures 0.0 <= MinNeighbourCost(prev, g, r, c)
  {
    var left := if c != 0 then prev[c - 1] + CalcEdges(g, r, c, Left) else MaxSize;
    var right := if c != Width(g) - 1 then prev[c + 1] + CalcEdges(g, r, c, Right) else MaxSize;
    assert 0.0 <= left && 0.0 <= right;
  }

  /** The back-pointer of pixel `j`: the first cheapest entry of `prev`
      among columns `j − 1`, `j`, `j + 1` that exist, found by scanning
      them left to right. */
  function BackPointer(prev: seq<real>, j: nat): (b: nat)
    requires j < |prev|
    ensures b < |prev| && b <= j + 1 && j <= b + 1
    ensures forall k :: 0 <= k < |prev| && k <= j + 1 && j <= k + 1 ==> prev[b] <= prev[k]
    ensures forall k :: 0 <= k < b && j <= k + 1 ==> prev[b] < prev[k]
  {
    var lo := if j == 0 then 0 else j - 1;
    var hi := MinNat(j + 2, |prev|);
    var b := if lo + 1 < hi && prev[lo + 1] < prev[lo] then lo + 1 else lo;
    if lo + 2 < hi && prev[lo + 2] < prev[b] then lo + 2 else b
  }

  /** It is `np.argmin` of the slice `M[i−1, j:j+2]` (first column) or
      `M[i−1, j−1:j+2]` (the others), shifted back to a column of the row. */
  lemma BackPointerIsSliceArgMin(prev: seq<real>, j: nat)
    requires j < |prev|
    ensures var lo := if j == 0 then 0 else j - 1;
            BackPointer(prev, j) == lo + ArgMin(prev[lo..MinNat(j + 2, |prev|)])
  {
    var lo := if j == 0 then 0 else j - 1;
    var w := prev[lo..MinNat(j + 2, |prev|)];
    var b := BackPointer(prev, j);
    assert forall k :: 0 <= k < |w| ==> w[k] == prev[lo + k];
    ArgMinIsUnique(w, b - lo);
  }

  /** The back-pointers of `calculate_cost_matrix`: row 0 is all zeros, and
      every later pixel points at its first cheapest predecessor in `M`. */
  function Backtrack(m: Grid): (bt: seq<seq<nat>>)
    requires Rectangular(m)
    ensures |bt| == |m| && forall i :: 0 <= i < |m| ==> |bt[i]| == Width(m)
    ensures forall i :: 1 <= i < |m| ==> bt[i] == BackRow(m[i - 1])
    ensures |m| > 0 ==> forall j :: 0 <= j < Width(m) ==> bt[0][j] == 0
  {
    if |m| == 0 then []
    else [seq(Width(m), j => 0)] + seq(|m| - 1, i requires 0 <= i < |m| - 1 => BackRow(m[i]))
  }

  /** The back-pointers of the row below `prev`. */
  function BackRow(prev: seq<real>): (r: seq<nat>)
    ensures |r| == |prev| && forall j :: 0 <= j < |prev| ==> r[j] == BackPointer(prev, j)
  {
    seq(|prev|, j requires 0 <= j < |prev| => BackPointer(prev, j))
  }

  /** Every back-pointer below the first row names a column of the picture
      next to or equal to its own. */
  lemma BackPointersAreAdjacent(m: Grid)
    requires Rectangular(m)
    ensures forall i, j :: 1 <= i < |m| && 0 <= j < Width(m) ==>
              Backtrack(m)[i][j] < Width(m) && j - 1 <= Backtrack(m)[i][j] <= j + 1
  {
  }

  /** `calculate_cost_matrix(image)`: the cost matrix of the picture's
      gradient energy and greyscale, with its back-pointers. The picture
      needs a row and a column (the gradient indexes its first row and last
      column). */
  function CalculateCostMatrix(num: Numerics, img: Picture<Rgb>): (r: (Grid, seq<seq<nat>>))
    requires Rectangular(img) && 1 <= |img| && 1 <= Width(img)
    ensures Rectangular(r.0) && |r.0| == |img| && Width(r.0) == Width(img)
    ensures r.1 == Backtrack(r.0)
  {
    var e := GradientMagnitude(num, img, GreyscaleWt);
    var g := GetGreyscaleImage(img, GreyscaleWt);
    var m := CalculateCost(e, g);
    (m, Backtrack(m))
  }

  /** A pixel position `[row, column]`. */
  type Pixel = (int, int)

  /** A vertical seam of a `h × w` picture as `find_seam` lists it: one
      pixel per row from the bottom row up, inside the picture, each column
      at most one away from the one below it. */
  predicate IsSeam(s: seq<Pixel>, h: nat, w: nat) {
    |s| == h &&
    (forall k :: 0 <= k < h ==> s[k].0 == h - 1 - k && 0 <= s[k].1 < w) &&
    (forall k :: 0 <= k < h - 1 ==> Step(s, k))
  }

  /** Entry `k + 1` of the seam is at most one column away from entry `k`. */
  predicate Step(s: seq<Pixel>, k: nat)
    requires k + 1 < |s|
  {
    -1 <= s[k + 1].1 - s[k].1 <= 1
  }

  /** Back-pointers that stay in the picture and move by at most one column. */
  predicate Adjacent(bt: seq<seq<nat>>, w: nat) {
    (forall i :: 0 <= i < |bt| ==> |bt[i]| == w) &&
    (forall i, j :: 1 <= i < |bt| && 0 <= j < w ==> bt[i][j] < w && j <= bt[i][j] + 1 && bt[i][j] <= j + 1)
  }

  /** The loop of `find_seam` from row `row` and column `j` up to row 0. */
  function Trace(bt: seq<seq<nat>>, w: nat, row: nat, j: nat): (s: seq<Pixel>)
    requires Adjacent(bt, w) && row < |bt| && j < w
    ensures IsSeam(s, row + 1, w)
    ensures s[0] == (row, j)
    ensures forall k :: 0 <= k < row ==> s[k + 1].1 == bt[row - k][s[k].1]
    decreases row
  {
    if row == 0 then [(0, j)]
    else
      var rest := Trace(bt, w, row - 1, bt[row][j]);
      [(row, j)] + rest
  }

  /** `find_seam(M, backtrack)`: starting at the first cheapest entry of the
      last row of `M`, follow the back-pointers to the top. */
  function FindSeam(m: Grid, bt: seq<seq<nat>>): (s: seq<Pixel>)
    requires Rectangular(m) && 1 <= |m| && 1 <= Width(m)
    requires bt == Backtrack(m)
    ensures IsSeam(s, |m|, Width(m))
    ensures s[0] == (|m| - 1, ArgMin(m[|m| - 1]))
    ensures forall k :: 0 <= k < |m| - 1 ==> s[k + 1].1 == BackPointer(m[|m| - 2 - k], s[k].1)
  {
    BackPointersAreAdjacent(m);
    Trace(bt, Width(m), |m| - 1, ArgMin(m[|m| - 1]))
  }

  /** The column of the seam in row `r`. */
  function SeamColumn(s: seq<Pixel>, h: nat, w: nat, r: nat): (c: nat)
    requires IsSeam(s, h, w) && r < h
    ensures c < w
  {
    s[h - 1 - r].1
  }

  /** `remove_seam(image, seam)` for a seam with one pixel per row: each row
      loses its seam pixel and keeps the others in order. */
  function RemoveSeam<T>(img: Picture<T>, s: seq<Pixel>): (out: Picture<T>)
    requires Rectangular(img) && IsSeam(s, |img|, Width(img))
    ensures |out| == |img|
    ensures forall r :: 0 <= r < |img| ==> |out[r]| == Width(img) - 1
    ensures forall r, j {:trigger out[r][j]} :: 0 <= r < |img| && 0 <= j < Width(img) - 1 ==>
              out[r][j] == if j < SeamColumn(s, |img|, Width(img), r) then img[r][j] else img[r][j + 1]
  {
    seq(|img|, r requires 0 <= r < |img| =>
      var c := SeamColumn(s, |img|, Width(img), r);
      img[r][..c] + img[r][c + 1..])
  }

  /** Putting each seam pixel back where it was gives the picture back. */
  lemma RemoveSeamLosesOnlyTheSeam<T>(img: Picture<T>, s: seq<Pixel>)
    requires Rectangular(img) && IsSeam(s, |img|, Width(img))
    ensures forall r :: 0 <= r < |img| ==>
              var c := SeamColumn(s, |img|, Width(img), r);
              RemoveSeam(img, s)[r][..c] + [img[r][c]] + RemoveSeam(img, s)[r][c..] == img[r]
  {
    var out := RemoveSeam(img, s);
    forall r | 0 <= r < |img|
      ensures var c := SeamColumn(s, |img|, Width(img), r);
              out[r][..c] + [img[r][c]] + out[r][c..] == img[r]
    {
      var c := SeamColumn(s, |img|, Width(img), r);
      var back := out[r][..c] + [img[r][c]] + out[r][c..];
      assert |back| == |img[r]|;
      forall j | 0 <= j < |back|
        ensures back[j] == img[r][j]
      {
        if j < c {
        } else if j == c {
        } else {
          assert back[j] == out[r][j - 1];
        }
      }
    }
  }

  /** The picture after removing a seam is again rectangular, one column
      narrower. */
  lemma RemoveSeamShape<T>(img: Picture<T>, s: seq<Pixel>)
    requires Rectangular(img) && IsSeam(s, |img|, Width(img))
    ensures Rectangular(RemoveSeam(img, s))
    ensures |img| > 0 ==> Width(RemoveSeam(img, s)) == Width(img) - 1
  {
  }

  // ---------------------------------------------------------------- seam costs

  /** Which predecessor of a pixel in column `to` the column `from` of the
      row above is: up and to the left, straight up, or up and to the
      right. */
  function Dir(from: int, to: int): Neighbour {
    if from < to then Left else if from == to then Vertical else Right
  }

  /** The columns of a path from the top row down, one per row, each at
      most one column away from the one above it. */
  predicate IsPath(cols: seq<int>, w: nat) {
    (forall i :: 0 <= i < |cols| ==> 0 <= cols[i] < w) &&
    (forall i :: 1 <= i < |cols| ==> -1 <= cols[i] - cols[i - 1] <= 1)
  }

  /** What the cost recurrence charges a path down to row `|cols| − 1`: the
      energy of each of its pixels plus the edge cost of each step. */
  function PathCost(e: Grid, g: Grid, cols: seq<int>): real
    requires SameShape(e, g) && 1 <= |cols| <= |e| && IsPath(cols, Width(e))
    decreases |cols|
  {
    var i := |cols| - 1;
    if i == 0 then e[0][cols[0]]
    else
      assert IsPath(cols[..i], Width(e));
      PathCost(e, g, cols[..i]) + e[i][cols[i]] + CalcEdges(g, i, cols[i], Dir(cols[i - 1], cols[i]))
  }

  /** Every entry of `M` is at most the cost of every path down to it. */
  lemma {:induction false} CostIsAtMostPathCost(e: Grid, g: Grid, cols: seq<int>)
    requires SameShape(e, g) && 1 <= |cols| <= |e| && IsPath(cols, Width(e))
    ensures CalculateCost(e, g)[|cols| - 1][cols[|cols| - 1]] <= PathCost(e, g, cols)
    decreases |cols|
  {
    var i := |cols| - 1;
    if i > 0 {
      var m := CalculateCost(e, g);
      var front := cols[..i];
      assert IsPath(front, Width(e));
      CostIsAtMostPathCost(e, g, front);
      assert front[i - 1] == cols[i - 1];
      StepBound(m[i - 1], g, i, cols[i], cols[i - 1]);
      assert m[i][cols[i]] == e[i][cols[i]] + MinNeighbourCost(m[i - 1], g, i, cols[i]);
    }
  }

  /** The cheapest predecessor costs no more than any step. */
  lemma StepBound(prev: seq<real>, g: Grid, r: nat, j: nat, k: nat)
    requires Rectangular(g) && 1 <= r < |g| && j < Width(g) && |prev| == Width(g)
    requires k < Width(g) && k <= j + 1 && j <= k + 1
    ensures MinNeighbourCost(prev, g, r, j) <= StepCost(prev, g, r, j, k)
  {
  }

  /** The cost of reaching pixel `(r, j)` from column `k` of the row above:
      the entry of `M` there plus the edge cost of that step. */
  function StepCost(prev: seq<real>, g: Grid, r: nat, j: nat, k: nat): real
    requires Rectangular(g) && 1 <= r < |g| && j < Width(g) && |prev| == Width(g)
    requires k < Width(g) && k <= j + 1 && j <= k + 1
  {
    prev[k] + CalcEdges(g, r, j, Dir(k, j))
  }

  /** A back-pointer that records where the cost of `(r, j)` came from: of
      the predecessors that exist, scanned left to right, the first with
      the least step cost. */
  function EdgeBackPointer(prev: seq<real>, g: Grid, r: nat, j: nat): (b: nat)
    requires Rectangular(g) && 1 <= r < |g| && j < Width(g) && |prev| == Width(g)
    ensures b < |prev| && b <= j + 1 && j <= b + 1
    ensures forall k :: 0 <= k < |prev| && k <= j + 1 && j <= k + 1 ==> StepCost(prev, g, r, j, b) <= StepCost(prev, g, r, j, k)
    ensures forall k :: 0 <= k < b && j <= k + 1 ==> StepCost(prev, g, r, j, b) < StepCost(prev, g, r, j, k)
  {
    var lo := if j == 0 then 0 else j - 1;
    var hi := MinNat(j + 2, |prev|);
    var b := if lo + 1 < hi && StepCost(prev, g, r, j, lo + 1) < StepCost(prev, g, r, j, lo) then lo + 1 else lo;
    if lo + 2 < hi && StepCost(prev, g, r, j, lo + 2) < StepCost(prev, g, r, j, b) then lo + 2 else b
  }

  /** Unless `sys.maxsize` undercuts every real predecessor, the step the
      corrected back-pointer names costs exactly what
      `find_min_neighbor_cost` added. */
  lemma EdgeBackPointerAttainsMinimum(prev: seq<real>, g: Grid, r: nat, j: nat)
    requires Rectangular(g) && 1 <= r < |g| && j < Width(g) && |prev| == Width(g)
    requires prev[j] + CalcEdges(g, r, j, Vertical) <= MaxSize
    ensures StepCost(prev, g, r, j, EdgeBackPointer(prev, g, r, j)) == MinNeighbourCost(prev, g, r, j)
  {
    var b := EdgeBackPointer(prev, g, r, j);
    var m := MinNeighbourCost(prev, g, r, j);
    assert m <= StepCost(prev, g, r, j, b);
    if m == prev[j] + CalcEdges(g, r, j, Vertical) {
      assert StepCost(prev, g, r, j, b) <= StepCost(prev, g, r, j, j);
    } else if 0 < j && m == prev[j - 1] + CalcEdges(g, r, j, Left) {
      assert StepCost(prev, g, r, j, b) <= StepCost(prev, g, r, j, j - 1);
    } else {
      assert StepCost(prev, g, r, j, b) <= StepCost(prev, g, r, j, j + 1);
    }
  }

  /** `sys.maxsize` stands for a missing predecessor. It never decides a
      minimum when every straight-up candidate stays at or below it. */
  predicate BelowMaxSize(e: Grid, g: Grid)
    requires SameShape(e, g) && 1 <= |e|
  {
    var m := CalculateCost(e, g);
    forall i, c :: 1 <= i < |e| && 0 <= c < Width(e) ==> m[i - 1][c] + CalcEdges(g, i, c, Vertical) <= MaxSize
  }

  /** The columns the corrected back-pointers trace from `(row, j)` up to
      row 0, listed from the top row down. */
  function TraceColumns(m: Grid, g: Grid, row: nat, j: nat): (cols: seq<int>)
    requires Rectangular(m) && Rectangular(g) && |m| == |g| && Width(m) == Width(g)
    requires row < |m| && j < Width(m)
    ensures |cols| == row + 1 && cols[row] == j && IsPath(cols, Width(m))
    ensures forall i :: 1 <= i <= row ==> cols[i - 1] == EdgeBackPointer(m[i - 1], g, i, cols[i])
    decreases row
  {
    if row == 0 then [j]
    else TraceColumns(m, g, row - 1, EdgeBackPointer(m[row - 1], g, row, j)) + [j]
  }

  /** `M` is the cost of the cheapest path down to each pixel, as the
      source's comment on `calculate_cost` says: no path costs less, and
      the corrected back-pointers trace one that costs exactly the entry. */
  lemma {:induction false} CostIsCheapestPath(e: Grid, g: Grid, row: nat, j: nat)
    requires SameShape(e, g) && 1 <= |e| && BelowMaxSize(e, g)
    requires row < |e| && j < Width(e)
    ensures var m := CalculateCost(e, g);
            PathCost(e, g, TraceColumns(m, g, row, j)) == m[row][j]
    ensures forall cols :: |cols| == row + 1 && IsPath(cols, Width(e)) && cols[row] == j ==>
              CalculateCost(e, g)[row][j] <= PathCost(e, g, cols)
    decreases row
  {
    var m := CalculateCost(e, g);
    forall cols | |cols| == row + 1 && IsPath(cols, Width(e)) && cols[row] == j
      ensures m[row][j] <= PathCost(e, g, cols)
    {
      CostIsAtMostPathCost(e, g, cols);
    }
    if row > 0 {
      var b := EdgeBackPointer(m[row - 1], g, row, j);
      var cols := TraceColumns(m, g, row, j);
      CostIsCheapestPath(e, g, row - 1, b);
      assert cols[..row] == TraceColumns(m, g, row - 1, b);
      assert m[row - 1][j] + CalcEdges(g, row, j, Vertical) <= MaxSize;
      EdgeBackPointerAttainsMinimum(m[row - 1], g, row, j);
      assert m[row][j] == e[row][j] + MinNeighbourCost(m[row - 1], g, row, j);
    }
  }

  /** A path as `find_seam` lists it: from the bottom row up. */
  function PathToSeam(cols: seq<int>, w: nat): (s: seq<Pixel>)
    requires IsPath(cols, w)
    ensures IsSeam(s, |cols|, w)
    ensures forall k :: 0 <= k < |cols| ==> s[k] == (|cols| - 1 - k, cols[|cols| - 1 - k])
  {
    var s := seq(|cols|, k requires 0 <= k < |cols| => (|cols| - 1 - k, cols[|cols| - 1 - k]));
    assert forall k :: 0 <= k < |cols| - 1 ==> Step(s, k) by {
      forall k | 0 <= k < |cols| - 1
        ensures Step(s, k)
      {
        assert s[k + 1].1 - s[k].1 == -(cols[|cols| - 1 - k] - cols[|cols| - 1 - k - 1]);
      }
    }
    s
  }

  /** The columns of a seam from the top row down. */
  function SeamToPath(s: seq<Pixel>, h: nat, w: nat): (cols: seq<int>)
    requires IsSeam(s, h, w)
    ensures |cols| == h && IsPath(cols, w)
    ensures forall i :: 0 <= i < h ==> cols[i] == s[h - 1 - i].1
  {
    var cols := seq(h, i requires 0 <= i < h => s[h - 1 - i].1);
    assert forall i :: 1 <= i < h ==> -1 <= cols[i] - cols[i - 1] <= 1 by {
      forall i | 1 <= i < h
        ensures -1 <= cols[i] - cols[i - 1] <= 1
      {
        assert Step(s, h - 1 - i);
      }
    }
    cols
  }

  /** The cost of a seam of the whole picture. */
  function SeamCost(e: Grid, g: Grid, s: seq<Pixel>): real
    requires SameShape(e, g) && 1 <= |e| && IsSeam(s, |e|, Width(e))
  {
    PathCost(e, g, SeamToPath(s, |e|, Width(e)))
  }

  /** `find_seam` with back-pointers that record where each cost came
      from: from the first cheapest entry of the last row of `M`, follow
      `EdgeBackPointer` to the top. */
  function FindSeamWithEdges(m: Grid, g: Grid): (s: seq<Pixel>)
    requires Rectangular(m) && Rectangular(g) && |m| == |g| && Width(m) == Width(g)
    requires 1 <= |m| && 1 <= Width(m)
    ensures IsSeam(s, |m|, Width(m))
    ensures s[0] == (|m| - 1, ArgMin(m[|m| - 1]))
  {
    PathToSeam(TraceColumns(m, g, |m| - 1, ArgMin(m[|m| - 1])), Width(m))
  }

  /** Listing a path bottom-up and reading it back top-down gives the
      path. */
  lemma PathSeamRoundTrip(cols: seq<int>, w: nat)
    requires IsPath(cols, w)
    ensures SeamToPath(PathToSeam(cols, w), |cols|, w) == cols
  {
    var h := |cols|;
    var s := PathToSeam(cols, w);
    var back := SeamToPath(s, h, w);
    forall i | 0 <= i < h
      ensures back[i] == cols[i]
    {
      assert s[h - 1 - i] == (i, cols[i]);
    }
  }

  /** The corrected seam is a cheapest seam of the picture: it costs the
      least entry of the last row of `M`, and no seam costs less. */
  lemma FoundSeamIsCheapest(e: Grid, g: Grid)
    requires SameShape(e, g) && 1 <= |e| && 1 <= Width(e) && BelowMaxSize(e, g)
    ensures var m := CalculateCost(e, g);
            var s := FindSeamWithEdges(m, g);
            SeamCost(e, g, s) == m[|e| - 1][ArgMin(m[|e| - 1])] &&
            forall t :: IsSeam(t, |e|, Width(e)) ==> SeamCost(e, g, s) <= SeamCost(e, g, t)
  {
    var m := CalculateCost(e, g);
    var h := |e|;
    var j := ArgMin(m[h - 1]);
    FoundSeamCostsItsEntry(e, g);
    forall t | IsSeam(t, h, Width(e))
      ensures m[h - 1][j] <= SeamCost(e, g, t)
    {
      SeamCostsAtLeastItsEntry(e, g, t);
    }
  }

  /** The corrected seam costs the entry of `M` it starts from. */
  lemma FoundSeamCostsItsEntry(e: Grid, g: Grid)
    requires SameShape(e, g) && 1 <= |e| && 1 <= Width(e) && BelowMaxSize(e, g)
    ensures var m := CalculateCost(e, g);
            SeamCost(e, g, FindSeamWithEdges(m, g)) == m[|e| - 1][ArgMin(m[|e| - 1])]
  {
    var m := CalculateCost(e, g);
    var h, w := |e|, Width(e);
    var cols := TraceColumns(m, g, h - 1, ArgMin(m[h - 1]));
    PathSeamRoundTrip(cols, w);
    CostIsCheapestPath(e, g, h - 1, ArgMin(m[h - 1]));
  }

  /** Every seam costs at least the entry of `M` at its bottom pixel. */
  lemma SeamCostsAtLeastItsEntry(e: Grid, g: Grid, t: seq<Pixel>)
    requires SameShape(e, g) && 1 <= |e| && IsSeam(t, |e|, Width(e))
    ensures CalculateCost(e, g)[|e| - 1][t[0].1] <= SeamCost(e, g, t)
  {
    CostIsAtMostPathCost(e, g, SeamToPath(t, |e|, Width(e)));
  }

  /** An energy map and a greyscale picture on which the source's
      back-pointers, which compare only the entries of `M`, trace a seam
      that `M` does not price. */
  const EdgeExampleEnergy: Grid := [[0.0, 1.0, 5.0], [100.0, 0.0, 100.0]]
  const EdgeExampleGrey: Grid := [[0.0, 10.0, 0.0], [0.0, 0.0, 0.0]]

  /** `M` of that input. */
  const EdgeExampleCost: Grid := [[0.0, 1.0, 5.0], [100.0, 1.0, 101.0]]

  lemma EdgeExampleCostMatrix()
    ensures SameShape(EdgeExampleEnergy, EdgeExampleGrey)
    ensures CalculateCost(EdgeExampleEnergy, EdgeExampleGrey) == EdgeExampleCost
  {
    var e, g := EdgeExampleEnergy, EdgeExampleGrey;
    assert Rectangular(e) && Rectangular(g);
    var m := CalculateCost(e, g);
    assert m[0] == [0.0, 1.0, 5.0];
    assert m[1][0] == e[1][0] + MinNeighbourCost(m[0], g, 1, 0) == 100.0;
    assert m[1][1] == e[1][1] + MinNeighbourCost(m[0], g, 1, 1) == 1.0;
    assert m[1][2] == e[1][2] + MinNeighbourCost(m[0], g, 1, 2) == 101.0;
    assert m[1] == [100.0, 1.0, 101.0];
  }

  lemma EdgeExampleSeams()
    ensures Rectangular(EdgeExampleCost) && Rectangular(EdgeExampleGrey)
    ensures FindSeam(EdgeExampleCost, Backtrack(EdgeExampleCost)) == [(1, 1), (0, 0)]
    ensures FindSeamWithEdges(EdgeExampleCost, EdgeExampleGrey) == [(1, 1), (0, 1)]
  {
    var m, g := EdgeExampleCost, EdgeExampleGrey;
    assert Rectangular(m) && Rectangular(g);
    assert ArgMin(m[1]) == 1;
    assert BackPointer(m[0], 1) == 0;
    assert EdgeBackPointer(m[0], g, 1, 1) == 1;
    assert TraceColumns(m, g, 1, 1) == [1, 1];
  }

  lemma EdgeExampleSeamCosts()
    ensures SameShape(EdgeExampleEnergy, EdgeExampleGrey)
    ensures IsSeam([(1, 1), (0, 0)], 2, 3) && IsSeam([(1, 1), (0, 1)], 2, 3)
    ensures SeamCost(EdgeExampleEnergy, EdgeExampleGrey, [(1, 1), (0, 0)]) == 10.0
    ensures SeamCost(EdgeExampleEnergy, EdgeExampleGrey, [(1, 1), (0, 1)]) == 1.0
  {
    var e, g := EdgeExampleEnergy, EdgeExampleGrey;
    assert Rectangular(e) && Rectangular(g);
    var astray, straight: seq<Pixel> := [(1, 1), (0, 0)], [(1, 1), (0, 1)];
    assert Step(astray, 0) && Step(straight, 0);
    assert SeamToPath(astray, 2, 3) == [0, 1];
    assert SeamToPath(straight, 2, 3) == [1, 1];
    assert [0, 1][..1] == [0] && [1, 1][..1] == [1];
  }

  /** On that input `M`'s last row is `[100, 1, 101]`, so `find_seam`
      starts at column 1, whose cost 1 comes from straight above. The
      back-pointer compares `0, 1, 5` alone and points up-left, so the seam
      found costs 10 while the straight seam costs 1. The corrected
      back-pointers find the straight seam. */
  lemma FindSeamIgnoresEdgeCosts()
    ensures SameShape(EdgeExampleEnergy, EdgeExampleGrey)
    ensures var e, g := EdgeExampleEnergy, EdgeExampleGrey;
            var m := CalculateCost(e, g);
            var s := FindSeam(m, Backtrack(m));
            m[1] == [100.0, 1.0, 101.0] && s == [(1, 1), (0, 0)] &&
            SeamCost(e, g, s) == 10.0 &&
            FindSeamWithEdges(m, g) == [(1, 1), (0, 1)] &&
            SeamCost(e, g, [(1, 1), (0, 1)]) == 1.0
  {
    EdgeExampleCostMatrix();
    EdgeExampleSeams();
    EdgeExampleSeamCosts();
  }
}
