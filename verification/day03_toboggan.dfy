/**
 * Day 3 (Toboggan Trajectory): walk a map of '.' and '#' rows from the top
 * left corner, `down` rows and `right` columns per step, the map repeating
 * to the right, and count the '#' cells examined.
 */
module Toboggan {

  /**
   * The cell examined at step `i`: row `i * down`, column `(i * right) mod
   * width`, where the width is that of the first row. A zero width makes the
   * column NaN and a row shorter than the column reads `undefined`; neither
   * is a tree.
   */
  predicate TreeAtStep(grid: seq<string>, right: nat, down: nat, i: nat)
    requires |grid| > 0
  {
    var row, width := i * down, |grid[0]|;
    && row < |grid|
    && width > 0
    && (i * right) % width < |grid[row]|
    && grid[row][(i * right) % width] == '#'
  }

  /** The number of steps among the first `n` whose cell is a tree. */
  function TreesBefore(grid: seq<string>, right: nat, down: nat, n: nat): nat
    requires |grid| > 0
  {
    if n == 0 then 0
    else TreesBefore(grid, right, down, n - 1) + (if TreeAtStep(grid, right, down, n - 1) then 1 else 0)
  }

  /** ceil(height / down): the number of rows the walk visits. */
  function Steps(height: nat, down: nat): nat
    requires down >= 1
  {
    (height + down - 1) / down
  }

  /** The walk visits exactly the rows 0, down, 2*down, ... that lie inside the map. */
  lemma StepsExact(height: nat, down: nat, i: nat)
    requires down >= 1
    ensures i * down < height <==> i < Steps(height, down)
  {
    var x := height + down - 1;
    var q := x / down;
    assert x == q * down + x % down && 0 <= x % down < down;
    assert (i + 1) * down == i * down + down && (q + 1) * down == q * down + down;
    if i * down < height {
      MulCancel(i + 1, q + 1, down);
    } else {
      MulCancel(q, i + 1, down);
    }
  }

  lemma MulCancel(a: int, b: int, d: int)
    requires d > 0 && a * d < b * d
    ensures a < b
  {
  }

  /** The trees met on slope (right, down): the result of `countTrees`. */
  function Trees(grid: seq<string>, right: nat, down: nat): nat
    requires |grid| > 0 && down >= 1
  {
    TreesBefore(grid, right, down, Steps(|grid|, down))
  }

  lemma {:induction false} TreesBeforeBound(grid: seq<string>, right: nat, down: nat, n: nat)
    requires |grid| > 0
    ensures TreesBefore(grid, right, down, n) <= n
  {
    if n > 0 {
      TreesBeforeBound(grid, right, down, n - 1);
    }
  }

  /**
   * `countTrees(right, down)`: the loop keeps the unwrapped column and
   * reduces it modulo the width at each access.
   */
  method CountTrees(grid: seq<string>, right: nat, down: nat) returns (trees: nat)
    requires |grid| > 0 && down >= 1
    ensures trees == Trees(grid, right, down)
    ensures trees <= Steps(|grid|, down)
  {
    var height, width := |grid|, |grid[0]|;
    var row, col := 0, 0;
    trees := 0;
    ghost var i := 0;
    while row < height
      invariant row == i * down && col == i * right
      invariant i <= Steps(height, down)
      invariant trees == TreesBefore(grid, right, down, i)
      decreases height - row
    {
      StepsExact(height, down, i);
      if width > 0 && col % width < |grid[row]| && grid[row][col % width] == '#' {
        trees := trees + 1;
      }
      row, col := row + down, col + right;
      i := i + 1;
    }
    StepsExact(height, down, i);
    TreesBeforeBound(grid, right, down, i);
  }

  lemma AddCongruent(x: int, y: int, a: int, b: int, w: int)
    requires w > 0 && x % w == y % w && a % w == b % w
    ensures (x + a) % w == (y + b) % w
  {
    var k1, k2 := x / w - y / w, a / w - b / w;
    assert x - y == k1 * w;
    assert a - b == k2 * w;
    ModShift(y + b, k1 + k2, w);
    assert x + a == (y + b) + (k1 + k2) * w;
  }

  /** Euclidean division is unique: a remainder in [0, w) is the remainder. */
  lemma ModUnique(n: int, q: int, r: int, w: int)
    requires w > 0 && 0 <= r < w && n == q * w + r
    ensures n % w == r
  {
    var k := q - n / w;
    assert n == (n / w) * w + n % w;
    assert k * w == q * w - (n / w) * w;
    MulCancel(k, 1, w);
    MulCancel(-1, k, w);
  }

  lemma ModShift(z: int, k: int, w: int)
    requires w > 0
    ensures (z + k * w) % w == z % w
  {
    var q, r := z / w, z % w;
    assert z == q * w + r;
    assert z + k * w == (q + k) * w + r;
    ModUnique(z + k * w, q + k, r, w);
  }

  /** Steps whose right moves agree modulo the width land on the same column. */
  lemma {:induction false} ColumnsAgree(i: nat, r1: nat, r2: nat, w: nat)
    requires w > 0 && r1 % w == r2 % w
    ensures (i * r1) % w == (i * r2) % w
  {
    if i > 0 {
      ColumnsAgree(i - 1, r1, r2, w);
      AddCongruent((i - 1) * r1, (i - 1) * r2, r1, r2, w);
      assert i * r1 == (i - 1) * r1 + r1 && i * r2 == (i - 1) * r2 + r2;
    }
  }

  /** Because the map repeats horizontally, slopes congruent modulo the width meet the same trees. */
  lemma {:induction false} CongruentSlopes(grid: seq<string>, r1: nat, r2: nat, down: nat, n: nat)
    requires |grid| > 0 && |grid[0]| > 0 && r1 % |grid[0]| == r2 % |grid[0]|
    ensures TreesBefore(grid, r1, down, n) == TreesBefore(grid, r2, down, n)
  {
    if n > 0 {
      CongruentSlopes(grid, r1, r2, down, n - 1);
      ColumnsAgree(n - 1, r1, r2, |grid[0]|);
    }
  }

  /** The five slopes of part 2, as (right, down). */
  type Positive = n: nat | n >= 1 witness 1

  const Slopes: seq<(nat, Positive)> := [(1, 1), (3, 1), (5, 1), (7, 1), (1, 2)]

  /** The product of the tree counts over `slopes`. */
  function TreeProduct(grid: seq<string>, slopes: seq<(nat, Positive)>): nat
    requires |grid| > 0
  {
    if |slopes| == 0 then 1
    else TreeProduct(grid, slopes[..|slopes| - 1]) * Trees(grid, slopes[|slopes| - 1].0, slopes[|slopes| - 1].1)
  }

  lemma FiveSlopes(grid: seq<string>)
    requires |grid| > 0
    ensures TreeProduct(grid, Slopes) == Trees(grid, 1, 1) * Trees(grid, 3, 1) * Trees(grid, 5, 1) * Trees(grid, 7, 1) * Trees(grid, 1, 2)
  {
    var s1, s2, s3, s4 := Slopes[..1], Slopes[..2], Slopes[..3], Slopes[..4];
    assert s4[..3] == s3 && s3[..2] == s2 && s2[..1] == s1 && s1[..0] == [];
    assert TreeProduct(grid, s1) == Trees(grid, 1, 1);
    assert TreeProduct(grid, s2) == TreeProduct(grid, s1) * Trees(grid, 3, 1);
    assert TreeProduct(grid, s3) == TreeProduct(grid, s2) * Trees(grid, 5, 1);
    assert TreeProduct(grid, s4) == TreeProduct(grid, s3) * Trees(grid, 7, 1);
    assert TreeProduct(grid, Slopes) == TreeProduct(grid, s4) * Trees(grid, 1, 2);
  }

  /** Part 2: `slopes.reduce((product, [r, d]) => product * countTrees(r, d), 1)`. */
  method SlopeProduct(grid: seq<string>) returns (product: nat)
    requires |grid| > 0
    ensures product == Trees(grid, 1, 1) * Trees(grid, 3, 1) * Trees(grid, 5, 1) * Trees(grid, 7, 1) * Trees(grid, 1, 2)
  {
    product := 1;
    var k := 0;
    while k < |Slopes|
      invariant 0 <= k <= |Slopes|
      invariant product == TreeProduct(grid, Slopes[..k])
    {
      var (r, d) := Slopes[k];
      var t := CountTrees(grid, r, d);
      assert Slopes[..k + 1][..k] == Slopes[..k];
      product := product * t;
      k := k + 1;
    }
    assert Slopes[..k] == Slopes;
    FiveSlopes(grid);
  }
}
