/**
 * Finding the seam of least energy in an image (a5/resizeable_image.py):
 * the recursive search `DFS` (lines 8-56) and the dynamic programme of
 * `best_seam` (lines 94-148). A pixel is a pair (column, row), row 0 at the
 * top. The energy of a pixel comes from the image base class, which is not
 * part of this model; it is a parameter here, defined on every pair of
 * integers.
 */
module Seam {
  import opened Outcomes

  /** (column, row) */
  type Pixel = (int, int)

  type Energy = (int, int) -> int

  /** Column `c` lies inside an image `width` columns wide. */
  predicate InImage(c: int, width: int) {
    0 <= c < width
  }

  /**
   * A seam listed from the bottom up, as `best_seam` returns it: entry `k`
   * lies in row `|s| - 1 - k` inside the image, and each column is within one
   * of the column below it.
   */
  ghost predicate IsSeam(s: seq<Pixel>, width: int) {
    && (forall k :: 0 <= k < |s| ==> s[k].1 == |s| - 1 - k && InImage(s[k].0, width))
    && (forall k, l :: 0 <= k && l == k + 1 && l < |s| ==> -1 <= s[l].0 - s[k].0 <= 1)
  }

  /** A seam grows by a pixel in the row below it, next to its bottom pixel. */
  lemma SeamExtend(s: seq<Pixel>, p: Pixel, width: int)
    requires IsSeam(s, width) && s != []
    requires p.1 == |s| && InImage(p.0, width) && -1 <= p.0 - s[0].0 <= 1
    ensures IsSeam([p] + s, width)
  {
  }

  /** The energies of the pixels of `s`, added up. */
  function SeamEnergy(energy: Energy, s: seq<Pixel>): int {
    if s == [] then 0 else energy(s[0].0, s[0].1) + SeamEnergy(energy, s[1..])
  }

  lemma {:induction false} SeamEnergyAppend(energy: Energy, s: seq<Pixel>, p: Pixel)
    ensures SeamEnergy(energy, s + [p]) == SeamEnergy(energy, s) + energy(p.0, p.1)
    decreases |s|
  {
    if s == [] {
      assert [p][1..] == [];
    } else {
      assert (s + [p])[1..] == s[1..] + [p];
      SeamEnergyAppend(energy, s[1..], p);
    }
  }

  function Reversed(s: seq<Pixel>): (r: seq<Pixel>)
    ensures |r| == |s|
  {
    if s == [] then [] else [s[|s| - 1]] + Reversed(s[..|s| - 1])
  }

  function Min(a: int, b: int): int {
    if a < b then a else b
  }

  /*
   * The dynamic programme's table. `Cum(c, j)` is what line 125 stores in
   * `energy_map[c, j]`; `Back(c, j)` is the column of `path[c, j]` (lines
   * 114-122): the cell above, replaced by the upper left when that one is
   * strictly lower, then by the upper right when that one is strictly lower
   * still.
   */

  function Cum(energy: Energy, width: int, c: int, j: nat): int
    decreases j, 1
  {
    if j == 0 then energy(c, 0)
    else energy(c, j) + Cum(energy, width, Back(energy, width, c, j), j - 1)
  }

  function Back(energy: Energy, width: int, c: int, j: nat): int
    requires j >= 1
    decreases j, 0
  {
    Choose(width, c, Cum(energy, width, c - 1, j - 1), Cum(energy, width, c, j - 1), Cum(energy, width, c + 1, j - 1))
  }

  /**
   * Lines 114-122 given the energies `left`, `above` and `right` stored for
   * the cells above `c`: the column of the cell they settle on.
   */
  function Choose(width: int, c: int, left: int, above: int, right: int): int {
    var (col, least) := if InImage(c - 1, width) && left < above then (c - 1, left) else (c, above);
    if InImage(c + 1, width) && right < least then c + 1 else col
  }

  /** The back pointer stays inside the image, next to `c`, at the least of the cells above. */
  lemma BackIsLeast(energy: Energy, width: int, c: int, j: nat)
    requires j >= 1 && InImage(c, width)
    ensures InImage(Back(energy, width, c, j), width)
    ensures -1 <= Back(energy, width, c, j) - c <= 1
    ensures forall d :: InImage(d, width) && -1 <= d - c <= 1 ==>
      Cum(energy, width, Back(energy, width, c, j), j - 1) <= Cum(energy, width, d, j - 1)
  {
  }

  /** `Cum(c, j)` is at most the energy of any seam from the top row down to `(c, j)`. */
  lemma {:induction false} CumIsLeast(energy: Energy, width: int, s: seq<Pixel>)
    requires IsSeam(s, width) && s != []
    ensures Cum(energy, width, s[0].0, |s| - 1) <= SeamEnergy(energy, s)
    decreases |s|
  {
    if |s| > 1 {
      var c, j := s[0].0, |s| - 1;
      assert s[1..][0] == s[1];
      assert IsSeam(s[1..], width);
      CumIsLeast(energy, width, s[1..]);
      BackIsLeast(energy, width, c, j);
    }
  }

  /** Following the back pointers up from `(c, j)`: the seam the programme picks for that pixel. */
  function Walk(energy: Energy, width: int, c: int, j: nat): (s: seq<Pixel>)
    ensures |s| == j + 1 && s[0] == (c, j)
    decreases j
  {
    [(c, j)] + if j == 0 then [] else Walk(energy, width, Back(energy, width, c, j), j - 1)
  }

  /** The walk is a seam whose energy is `Cum`, so the least one into its bottom pixel. */
  lemma WalkIsSeam(energy: Energy, width: int, c: int, j: nat)
    requires InImage(c, width)
    ensures IsSeam(Walk(energy, width, c, j), width)
    ensures SeamEnergy(energy, Walk(energy, width, c, j)) == Cum(energy, width, c, j)
  {
    WalkSeam(energy, width, c, j);
    WalkEnergy(energy, width, c, j);
  }

  lemma {:induction false} WalkSeam(energy: Energy, width: int, c: int, j: nat)
    requires InImage(c, width)
    ensures IsSeam(Walk(energy, width, c, j), width)
    decreases j
  {
    if j > 0 {
      var b := Back(energy, width, c, j);
      BackIsLeast(energy, width, c, j);
      WalkSeam(energy, width, b, j - 1);
      SeamExtend(Walk(energy, width, b, j - 1), (c, j), width);
    }
  }

  lemma {:induction false} WalkEnergy(energy: Energy, width: int, c: int, j: nat)
    ensures SeamEnergy(energy, Walk(energy, width, c, j)) == Cum(energy, width, c, j)
    decreases j
  {
    var s := Walk(energy, width, c, j);
    if j > 0 {
      var b := Back(energy, width, c, j);
      WalkEnergy(energy, width, b, j - 1);
      assert s[1..] == Walk(energy, width, b, j - 1);
    }
  }

  /*
   * The bottom-row search of lines 133-137. `minimum` is never lowered, so the
   * search picks the last column whose energy is below column 0's.
   */

  /** The column lines 133-137 pick among columns `0 .. n - 1` of the bottom row `row`. */
  function LastBelow(energy: Energy, width: int, row: nat, n: int): (c: int)
    ensures 0 <= c && (c == 0 || c < n)
    ensures Cum(energy, width, c, row) <= Cum(energy, width, 0, row)
    ensures c == 0 || Cum(energy, width, c, row) < Cum(energy, width, 0, row)
    ensures forall d :: c < d < n && d >= 1 ==> Cum(energy, width, d, row) >= Cum(energy, width, 0, row)
    decreases n
  {
    if n <= 1 then 0
    else if Cum(energy, width, n - 1, row) < Cum(energy, width, 0, row) then n - 1
    else LastBelow(energy, width, row, n - 1)
  }

  /** Three columns of energies 5, 1, 3 in one row: the search ends on column 2, not on column 1. */
  lemma BottomPickNotLeast()
    ensures var e: Energy := (c, r) => if c == 1 then 1 else if c == 2 then 3 else 5;
      LastBelow(e, 3, 0, 3) == 2 && Cum(e, 3, 1, 0) < Cum(e, 3, 2, 0)
  {
    var e: Energy := (c, r) => if c == 1 then 1 else if c == 2 then 3 else 5;
    assert Cum(e, 3, 2, 0) == 3 && Cum(e, 3, 0, 0) == 5;
  }

  /** The search as evidently intended: the first column of least cumulative energy. */
  function MinColumn(energy: Energy, width: int, row: nat, n: int): (c: int)
    requires n >= 1
    ensures 0 <= c < n
    ensures forall d :: 0 <= d < n ==> Cum(energy, width, c, row) <= Cum(energy, width, d, row)
    decreases n
  {
    if n == 1 then 0
    else
      var m := MinColumn(energy, width, row, n - 1);
      if Cum(energy, width, n - 1, row) < Cum(energy, width, m, row) then n - 1 else m
  }

  /** With the intended search, the walk from the chosen pixel is a least seam of the whole image. */
  lemma CorrectedSeamIsLeast(energy: Energy, width: int, height: nat, s: seq<Pixel>)
    requires height >= 1 && width >= 1
    requires IsSeam(s, width) && |s| == height
    ensures var best := Walk(energy, width, MinColumn(energy, width, height - 1, width), height - 1);
      IsSeam(best, width) && SeamEnergy(energy, best) <= SeamEnergy(energy, s)
  {
    var c := MinColumn(energy, width, height - 1, width);
    WalkIsSeam(energy, width, c, height - 1);
    CumIsLeast(energy, width, s);
    assert InImage(s[0].0, width);
    assert Cum(energy, width, c, height - 1) <= Cum(energy, width, s[0].0, height - 1);
  }

  /** Cells of the table filled so far: rows above `j`, and the first `i` cells of row `j`. */
  predicate Filled(p: Pixel, width: int, j: int, i: int) {
    InImage(p.0, width) && 0 <= p.1 && (p.1 < j || (p.1 == j && p.0 < i))
  }

  /** `energyMap` holds `Cum` on exactly the cells filled so far. */
  ghost predicate Table(energy: Energy, width: int, energyMap: map<Pixel, int>, j: int, i: int) {
    && (forall p :: p in energyMap <==> Filled(p, width, j, i))
    && (forall p :: p in energyMap ==> 0 <= p.1 && energyMap[p] == Cum(energy, width, p.0, p.1))
  }

  /** `path` holds the back pointer of every filled cell below the top row. */
  ghost predicate Pointers(energy: Energy, width: int, path: map<Pixel, Pixel>, j: int, i: int) {
    && (forall p :: p in path <==> 1 <= p.1 && Filled(p, width, j, i))
    && (forall p :: p in path ==> 1 <= p.1 && path[p] == (Back(energy, width, p.0, p.1), p.1 - 1))
  }

  /**
   * The `dp=True` branch of `best_seam` (lines 94-148). Without a column or a
   * row, line 133 looks up a key that was never stored. Otherwise the result
   * is the walk from the bottom pixel the search of lines 133-137 picks: a
   * seam of `height` pixels whose energy is the table entry of that pixel,
   * no more than column 0's, and the least of any seam ending there.
   */
  method BestSeam(energy: Energy, width: nat, height: nat) returns (r: Result<seq<Pixel>>)
    ensures r.Err? <==> width == 0 || height == 0
    ensures r.Err? ==> r.error == KeyError
    ensures r.Ok? ==> r.value == Walk(energy, width, LastBelow(energy, width, height - 1, width), height - 1)
    ensures r.Ok? ==> IsSeam(r.value, width) && |r.value| == height
    ensures r.Ok? ==> SeamEnergy(energy, r.value) == Cum(energy, width, r.value[0].0, height - 1)
    ensures r.Ok? ==> Cum(energy, width, r.value[0].0, height - 1) <= Cum(energy, width, 0, height - 1)
    ensures r.Ok? ==> forall s :: IsSeam(s, width) && |s| == height && s[0] == r.value[0] ==>
      SeamEnergy(energy, r.value) <= SeamEnergy(energy, s)
  {
    var energyMap: map<Pixel, int> := map[];
    var path: map<Pixel, Pixel> := map[];
    for i := 0 to width
      invariant Table(energy, width, energyMap, 0, i)
    {
      energyMap := energyMap[(i, 0) := energy(i, 0)];
    }
    var j := 1;
    while j < height
      invariant 1 <= j && (height >= 1 ==> j <= height)
      invariant Table(energy, width, energyMap, j, 0)
      invariant Pointers(energy, width, path, j, 0)
    {
      energyMap, path := FillRow(energy, width, j, energyMap, path);
      j := j + 1;
    }
    if (0, height - 1) !in energyMap {
      return Err(KeyError);
    }
    var minPixel := BottomPixel(energy, width, height, energyMap);
    TraceIsWalk(energy, width, height, path, minPixel.0, height - 1);
    var finalPath := WalkBack(path, minPixel);
    WalkIsSeam(energy, width, minPixel.0, height - 1);
    forall s | IsSeam(s, width) && |s| == height && s[0] == minPixel
      ensures SeamEnergy(energy, finalPath) <= SeamEnergy(energy, s)
    {
      CumIsLeast(energy, width, s);
    }
    r := Ok(finalPath);
  }

  /**
   * Lines 133-137, as written: `minimum` stays at column 0's entry, so the
   * search ends on the last column whose entry is below it.
   */
  method BottomPixel(energy: Energy, width: nat, height: nat, energyMap: map<Pixel, int>) returns (minPixel: Pixel)
    requires width >= 1 && height >= 1 && Table(energy, width, energyMap, height, 0)
    ensures minPixel == (LastBelow(energy, width, height - 1, width), height - 1)
    ensures InImage(minPixel.0, width)
  {
    var minimum := energyMap[(0, height - 1)];
    minPixel := (0, height - 1);
    for i := 1 to width
      invariant minPixel == (LastBelow(energy, width, height - 1, i), height - 1)
    {
      if energyMap[(i, height - 1)] < minimum {
        minPixel := (i, height - 1);
      }
    }
  }

  /** Every back pointer leads from a row below the top to the row above it. */
  predicate Upward(path: map<Pixel, Pixel>) {
    forall p :: p in path ==> 1 <= p.1 && path[p].1 == p.1 - 1
  }

  /** The pixels met following `path` from `p` until a pixel without a pointer. */
  function Trace(path: map<Pixel, Pixel>, p: Pixel): (s: seq<Pixel>)
    requires Upward(path)
    ensures s != [] && s[0] == p
    decreases if p in path then p.1 else 0
  {
    [p] + if p in path then Trace(path, path[p]) else []
  }

  /** Lines 140-145: follow the back pointers from the bottom pixel until one has none. */
  method WalkBack(path: map<Pixel, Pixel>, start: Pixel) returns (finalPath: seq<Pixel>)
    requires Upward(path)
    ensures finalPath == Trace(path, start)
  {
    var minPixel := start;
    finalPath := [minPixel];
    while minPixel in path
      invariant finalPath + Trace(path, minPixel)[1..] == Trace(path, start)
      decreases minPixel.1
    {
      var above := path[minPixel];
      assert Trace(path, minPixel)[1..] == Trace(path, above) == [above] + Trace(path, above)[1..];
      minPixel := above;
      finalPath := finalPath + [minPixel];
    }
  }

  /** With the pointers of a complete table, following them is the walk. */
  lemma {:induction false} TraceIsWalk(energy: Energy, width: int, height: int, path: map<Pixel, Pixel>, c: int, j: nat)
    requires Pointers(energy, width, path, height, 0) && InImage(c, width) && j < height
    ensures Upward(path) && Trace(path, (c, j)) == Walk(energy, width, c, j)
    decreases j
  {
    PointersUpward(energy, width, height, path);
    WalkSplit(energy, width, c, j);
    var b := if j > 0 then Back(energy, width, c, j) else c;
    if j > 0 {
      assert (c, j) in path && path[(c, j)] == (b, j - 1);
      BackIsLeast(energy, width, c, j);
      TraceIsWalk(energy, width, height, path, b, j - 1);
    } else {
      assert (c, j) !in path;
    }
  }

  lemma PointersUpward(energy: Energy, width: int, height: int, path: map<Pixel, Pixel>)
    requires Pointers(energy, width, path, height, 0)
    ensures Upward(path)
  {
  }

  lemma WalkSplit(energy: Energy, width: int, c: int, j: nat)
    ensures Walk(energy, width, c, j) == [(c, j)] + Walk(energy, width, c, j)[1..]
    ensures j >= 1 ==> Walk(energy, width, c, j)[1..] == Walk(energy, width, Back(energy, width, c, j), j - 1)
    ensures j == 0 ==> Walk(energy, width, c, j)[1..] == []
  {
  }

  /** One pass of the inner loop of lines 113-129: row `j` of the table and of the back pointers. */
  method FillRow(energy: Energy, width: nat, j: nat, energyMap0: map<Pixel, int>, path0: map<Pixel, Pixel>)
    returns (energyMap: map<Pixel, int>, path: map<Pixel, Pixel>)
    requires j >= 1
    requires Table(energy, width, energyMap0, j, 0) && Pointers(energy, width, path0, j, 0)
    ensures Table(energy, width, energyMap, j + 1, 0) && Pointers(energy, width, path, j + 1, 0)
  {
    energyMap, path := energyMap0, path0;
    for i := 0 to width
      invariant Table(energy, width, energyMap, j, i) && Pointers(energy, width, path, j, i)
    {
      var position := UpperCell(energy, width, energyMap, i, j);
      TableStep(energy, width, energyMap, i, j, position);
      PointersStep(energy, width, path, i, j, position);
      energyMap := energyMap[(i, j) := energy(i, j) + energyMap[position]];
      path := path[(i, j) := position];
    }
    RowDone(energy, width, energyMap, path, j);
  }

  /** A table filled to the end of row `j` is one filled up to row `j + 1`. */
  lemma RowDone(energy: Energy, width: int, energyMap: map<Pixel, int>, path: map<Pixel, Pixel>, j: int)
    requires Table(energy, width, energyMap, j, width) && Pointers(energy, width, path, j, width)
    ensures Table(energy, width, energyMap, j + 1, 0) && Pointers(energy, width, path, j + 1, 0)
  {
    assert forall p :: Filled(p, width, j, width) <==> Filled(p, width, j + 1, 0);
  }

  lemma TableStep(energy: Energy, width: int, energyMap: map<Pixel, int>, i: int, j: nat, position: Pixel)
    requires j >= 1 && InImage(i, width) && Table(energy, width, energyMap, j, i)
    requires position == (Back(energy, width, i, j), j - 1)
    requires position in energyMap
    ensures Table(energy, width, energyMap[(i, j) := energy(i, j) + energyMap[position]], j, i + 1)
  {
    CumStep(energy, width, i, j);
  }

  lemma PointersStep(energy: Energy, width: int, path: map<Pixel, Pixel>, i: int, j: nat, position: Pixel)
    requires j >= 1 && InImage(i, width) && Pointers(energy, width, path, j, i)
    requires position == (Back(energy, width, i, j), j - 1)
    ensures Pointers(energy, width, path[(i, j) := position], j, i + 1)
  {
    var after := path[(i, j) := position];
    forall p ensures p in after <==> 1 <= p.1 && Filled(p, width, j, i + 1) {
      assert p in after <==> p in path || p == (i, j);
    }
    forall p | p in after ensures 1 <= p.1 && after[p] == (Back(energy, width, p.0, p.1), p.1 - 1) {
      if p != (i, j) {
        assert after[p] == path[p];
      }
    }
  }

  /** Lines 114-122: the cell above `(i, j)` with the least stored energy, ties as the source breaks them. */
  method UpperCell(energy: Energy, width: nat, energyMap: map<Pixel, int>, i: int, j: nat) returns (position: Pixel)
    requires j >= 1 && InImage(i, width) && Table(energy, width, energyMap, j, i)
    ensures position == (Back(energy, width, i, j), j - 1)
    ensures position in energyMap && energyMap[position] == Cum(energy, width, position.0, j - 1)
  {
    position := (i, j - 1);
    if (i - 1, j - 1) in energyMap && energyMap[(i - 1, j - 1)] < energyMap[position] {
      position := (i - 1, j - 1);
    }
    if (i + 1, j - 1) in energyMap && energyMap[(i + 1, j - 1)] < energyMap[position] {
      position := (i + 1, j - 1);
    }
  }

  /*
   * `DFS` (lines 8-56): the best path into `(col, row)` and its energy,
   * searched recursively. `energyMap(c, r)` is the lookup
   * `energy_map[c][r]` of line 52. The path is listed from the top down.
   */

  /** What `DFS` returns: a path and its energy. */
  datatype Found = Found(path: seq<Pixel>, energy: int)

  /**
   * Lines 20-23 and 32-35: the lower energy of two results, with the second
   * result's path when its energy is the lower one or a tie, else the first's.
   */
  function Better2(first: Found, second: Found): (r: Found)
    ensures second.energy <= first.energy ==> r == second
    ensures first.energy < second.energy ==> r == first
  {
    var least := Min(first.energy, second.energy);
    Found(if least == second.energy then second.path else first.path, least)
  }

  /**
   * Lines 44-49: the least energy of three results, with the path of the
   * middle one on a tie with it, else of the last one on a tie with it, else
   * of the first.
   */
  function Better3(first: Found, second: Found, third: Found): (r: Found)
    ensures second.energy <= first.energy && second.energy <= third.energy ==> r == second
    ensures third.energy <= first.energy && third.energy < second.energy ==> r == third
    ensures first.energy < second.energy && first.energy < third.energy ==> r == first
  {
    var least := Min(Min(first.energy, second.energy), third.energy);
    Found(if least == second.energy then second.path else if least == third.energy then third.path else first.path, least)
  }

  /**
   * `DFS` (lines 8-56): the best of the results for the cells above, by the
   * source's three cases and tie order, extended by `(col, row)`. The path
   * runs from row 0 down to the pixel, one pixel per row.
   */
  function Dfs(energy: Energy, energyMap: Energy, width: int, col: int, row: nat): (r: Found)
    ensures |r.path| == row + 1
    decreases row
  {
    if row == 0 then Found([(col, row)], energy(col, row))
    else
      var best :=
        if col == 0 then
          Better2(Dfs(energy, energyMap, width, col + 1, row - 1), Dfs(energy, energyMap, width, col, row - 1))
        else if col == width - 1 then
          Better2(Dfs(energy, energyMap, width, col, row - 1), Dfs(energy, energyMap, width, col - 1, row - 1))
        else
          Better3(Dfs(energy, energyMap, width, col - 1, row - 1), Dfs(energy, energyMap, width, col, row - 1),
                  Dfs(energy, energyMap, width, col + 1, row - 1));
      Found(best.path + [(col, row)], best.energy + energyMap(col, row))
  }

  /** `energy_map[c][r]` holds the energy of every pixel of the image. */
  ghost predicate MapsEnergy(energy: Energy, energyMap: Energy, width: int) {
    forall c, r :: InImage(c, width) && 0 <= r ==> energyMap(c, r) == energy(c, r)
  }

  /**
   * Each step of `DFS`, in an image at least two columns wide, extends the
   * result of an in-image cell `d` above by `(col, row)`, one whose energy is
   * least among the in-image cells above.
   */
  ghost predicate ExtendsFrom(energy: Energy, energyMap: Energy, width: int, col: int, row: nat, d: int)
    requires row >= 1
  {
    var found, above := Dfs(energy, energyMap, width, col, row), Dfs(energy, energyMap, width, d, row - 1);
    && InImage(d, width) && -1 <= d - col <= 1
    && found == Found(above.path + [(col, row)], above.energy + energyMap(col, row))
    && forall d' :: InImage(d', width) && -1 <= d' - col <= 1 ==> above.energy <= Dfs(energy, energyMap, width, d', row - 1).energy
  }

  /** The result `DFS` keeps among those of the cells above, by the case of the column. */
  ghost function Best(width: int, col: int, left: Found, above: Found, right: Found): Found {
    if col == 0 then Better2(right, above)
    else if col == width - 1 then Better2(above, left)
    else Better3(left, above, right)
  }

  lemma DfsUnfold(energy: Energy, energyMap: Energy, width: int, col: int, row: nat)
    requires row >= 1
    ensures var best := Best(width, col, Dfs(energy, energyMap, width, col - 1, row - 1),
                             Dfs(energy, energyMap, width, col, row - 1), Dfs(energy, energyMap, width, col + 1, row - 1));
      Dfs(energy, energyMap, width, col, row) == Found(best.path + [(col, row)], best.energy + energyMap(col, row))
  {
  }

  /** The kept result is that of an in-image cell above, and no in-image cell above has less energy. */
  lemma BestIsLeast(width: int, col: int, left: Found, above: Found, right: Found) returns (d: int)
    requires width >= 2 && InImage(col, width)
    ensures InImage(d, width) && -1 <= d - col <= 1
    ensures Best(width, col, left, above, right) == if d == col - 1 then left else if d == col then above else right
    ensures var e := Best(width, col, left, above, right).energy;
      e <= above.energy && (col > 0 ==> e <= left.energy) && (col < width - 1 ==> e <= right.energy)
  {
    if col == 0 {
      d := if above.energy <= right.energy then col else col + 1;
    } else if col == width - 1 {
      d := if left.energy <= above.energy then col - 1 else col;
    } else if above.energy <= left.energy && above.energy <= right.energy {
      d := col;
    } else if right.energy <= left.energy && right.energy < above.energy {
      d := col + 1;
    } else {
      d := col - 1;
    }
  }

  lemma DfsStep(energy: Energy, energyMap: Energy, width: int, col: int, row: nat) returns (d: int)
    requires width >= 2 && InImage(col, width) && row >= 1
    ensures ExtendsFrom(energy, energyMap, width, col, row, d)
  {
    var left, above, right :=
      Dfs(energy, energyMap, width, col - 1, row - 1), Dfs(energy, energyMap, width, col, row - 1),
      Dfs(energy, energyMap, width, col + 1, row - 1);
    DfsUnfold(energy, energyMap, width, col, row);
    d := BestIsLeast(width, col, left, above, right);
    var best := Best(width, col, left, above, right);
    if d == col - 1 {
      assert Dfs(energy, energyMap, width, d, row - 1) == left == best;
    } else if d == col {
      assert Dfs(energy, energyMap, width, d, row - 1) == above == best;
    } else {
      assert d == col + 1;
      assert Dfs(energy, energyMap, width, d, row - 1) == right == best;
    }
    forall d' | InImage(d', width) && -1 <= d' - col <= 1
      ensures best.energy <= Dfs(energy, energyMap, width, d', row - 1).energy
    {
      if d' == col - 1 {
        assert Dfs(energy, energyMap, width, d', row - 1) == left;
      } else if d' == col {
        assert Dfs(energy, energyMap, width, d', row - 1) == above;
      } else {
        assert d' == col + 1;
        assert Dfs(energy, energyMap, width, d', row - 1) == right;
      }
    }
  }

  lemma ReversedAppend(s: seq<Pixel>, p: Pixel)
    ensures Reversed(s + [p]) == [p] + Reversed(s)
  {
    assert (s + [p])[..|s|] == s;
  }

  /**
   * `found` is a seam from the top row down into `(col, row)`, listed from the
   * top down, and `found.energy` is its energy.
   */
  ghost predicate SeamInto(energy: Energy, width: int, found: Found, col: int, row: nat) {
    && |found.path| == row + 1 && found.path[row] == (col, row) && IsSeam(Reversed(found.path), width)
    && found.energy == SeamEnergy(energy, found.path)
  }

  /**
   * In an image at least two columns wide, `DFS` returns a seam into
   * `(col, row)`, and the energy it reports is the seam's energy.
   */
  lemma {:induction false} DfsIsSeam(energy: Energy, energyMap: Energy, width: int, col: int, row: nat)
    requires width >= 2 && InImage(col, width) && MapsEnergy(energy, energyMap, width)
    ensures SeamInto(energy, width, Dfs(energy, energyMap, width, col, row), col, row)
    decreases row
  {
    if row > 0 {
      var d := DfsStep(energy, energyMap, width, col, row);
      DfsIsSeam(energy, energyMap, width, d, row - 1);
      FoundStep(energy, width, Dfs(energy, energyMap, width, d, row - 1), d, col, row, energyMap(col, row));
    }
  }

  /** A seam into the row above `(col, row)`, ending beside it, extends by `(col, row)`. */
  lemma FoundStep(energy: Energy, width: int, above: Found, d: int, col: int, row: nat, e: int)
    requires row >= 1 && SeamInto(energy, width, above, d, row - 1)
    requires InImage(col, width) && -1 <= d - col <= 1 && e == energy(col, row)
    ensures SeamInto(energy, width, Found(above.path + [(col, row)], above.energy + e), col, row)
  {
    SeamStep(width, above.path, (col, row));
    SeamEnergyAppend(energy, above.path, (col, row));
  }

  /** A seam from the top down into the row above `p`, ending beside `p`, extends by `p`. */
  lemma SeamStep(width: int, above: seq<Pixel>, p: Pixel)
    requires |above| >= 1 && IsSeam(Reversed(above), width)
    requires p.1 == |above| && InImage(p.0, width) && -1 <= p.0 - above[|above| - 1].0 <= 1
    ensures IsSeam(Reversed(above + [p]), width) && (above + [p])[|above|] == p
  {
    var r := Reversed(above);
    assert r[0] == above[|above| - 1];
    assert IsSeam([p] + r, width) by {
      SeamExtend(r, p, width);
    }
    ReversedAppend(above, p);
  }

  /**
   * `DFS` and the dynamic programme agree: in an image at least two columns
   * wide, the energy `DFS` reports for `(col, row)` is the table entry
   * `Cum(col, row)`.
   */
  lemma {:induction false} DfsIsCum(energy: Energy, energyMap: Energy, width: int, col: int, row: nat)
    requires width >= 2 && InImage(col, width) && MapsEnergy(energy, energyMap, width)
    ensures Dfs(energy, energyMap, width, col, row).energy == Cum(energy, width, col, row)
    decreases row
  {
    if row > 0 {
      forall d | InImage(d, width) && -1 <= d - col <= 1
        ensures Dfs(energy, energyMap, width, d, row - 1).energy == Cum(energy, width, d, row - 1)
      {
        DfsIsCum(energy, energyMap, width, d, row - 1);
      }
      DfsCumStep(energy, energyMap, width, col, row);
    }
  }

  /** One step of `DfsIsCum`: if `DFS` and `Cum` agree on the cells above, they agree on `(col, row)`. */
  lemma DfsCumStep(energy: Energy, energyMap: Energy, width: int, col: int, row: nat)
    requires width >= 2 && InImage(col, width) && row >= 1 && energyMap(col, row) == energy(col, row)
    requires forall d :: InImage(d, width) && -1 <= d - col <= 1 ==>
      Dfs(energy, energyMap, width, d, row - 1).energy == Cum(energy, width, d, row - 1)
    ensures Dfs(energy, energyMap, width, col, row).energy == Cum(energy, width, col, row)
  {
    var d := DfsStep(energy, energyMap, width, col, row);
    var b := Back(energy, width, col, row);
    BackIsLeast(energy, width, col, row);
    CumStep(energy, width, col, row);
  }

  lemma CumStep(energy: Energy, width: int, c: int, j: nat)
    requires j >= 1
    ensures Cum(energy, width, c, j) == energy(c, j) + Cum(energy, width, Back(energy, width, c, j), j - 1)
  {
  }

  /** So `DFS` finds a least seam into `(col, row)`. */
  lemma DfsIsLeast(energy: Energy, energyMap: Energy, width: int, col: int, row: nat, s: seq<Pixel>)
    requires width >= 2 && InImage(col, width) && MapsEnergy(energy, energyMap, width)
    requires IsSeam(s, width) && |s| == row + 1 && s[0] == (col, row)
    ensures Dfs(energy, energyMap, width, col, row).energy <= SeamEnergy(energy, s)
  {
    DfsIsCum(energy, energyMap, width, col, row);
    CumIsLeast(energy, width, s);
  }

  /** In an image one column wide, `DFS` from column 0 reads column 1, outside the image. */
  lemma DfsLeavesNarrowImage()
    ensures var e: Energy := (c, r) => if c == 1 then 0 else 1;
      Dfs(e, e, 1, 0, 1).path[0] == (1, 0) && !InImage(1, 1)
  {
  }
}
