/**
  The target geometry and frame rate (combine.videos.python.py,
  `get_optimal_size` and `get_optimal_fps`). Distances are compared exactly:
  the Euclidean distance to the mean is replaced by an integer key that
  orders the sizes the same way.
 */
module Optimal {

  /** A `(width, height)` pair. */
  datatype Geometry = Geometry(width: int, height: int)

  /** `sum(xs)`. */
  function Sum(xs: seq<int>): int {
    if xs == [] then 0 else xs[0] + Sum(xs[1..])
  }

  lemma {:induction false} SumSnoc(xs: seq<int>, x: int)
    ensures Sum(xs + [x]) == Sum(xs) + x
  {
    if xs == [] {
      assert xs + [x] == [x];
      assert [x][1..] == [];
    } else {
      assert (xs + [x])[1..] == xs[1..] + [x];
      SumSnoc(xs[1..], x);
    }
  }

  function Widths(sizes: seq<Geometry>): (ws: seq<int>)
    ensures |ws| == |sizes|
  {
    seq(|sizes|, i requires 0 <= i < |sizes| => sizes[i].width)
  }

  function Heights(sizes: seq<Geometry>): (hs: seq<int>)
    ensures |hs| == |sizes|
  {
    seq(|sizes|, i requires 0 <= i < |sizes| => sizes[i].height)
  }

  /** `reduce(lambda a, b: (a[0] + b[0], a[1] + b[1]), sizes)`: a left fold over the list. */
  function Total(sizes: seq<Geometry>): Geometry
    requires |sizes| > 0
  {
    if |sizes| == 1 then sizes[0]
    else
      var t := Total(sizes[..|sizes| - 1]);
      var last := sizes[|sizes| - 1];
      Geometry(t.width + last.width, t.height + last.height)
  }

  /** The left fold adds up every width and every height: it is the pair of sums. */
  lemma {:induction false} TotalIsSum(sizes: seq<Geometry>)
    requires |sizes| > 0
    ensures Total(sizes) == Geometry(Sum(Widths(sizes)), Sum(Heights(sizes)))
  {
    if |sizes| == 1 {
      assert Widths(sizes) == [sizes[0].width] && Heights(sizes) == [sizes[0].height];
      assert [sizes[0].width][1..] == [] && [sizes[0].height][1..] == [];
    } else {
      var init := sizes[..|sizes| - 1];
      var last := sizes[|sizes| - 1];
      TotalIsSum(init);
      assert Widths(sizes) == Widths(init) + [last.width];
      assert Heights(sizes) == Heights(init) + [last.height];
      SumSnoc(Widths(init), last.width);
      SumSnoc(Heights(init), last.height);
    }
  }

  /** The point `(Σw/n, Σh/n)` for component sums `t` over `n` entries. */
  function Centre(t: Geometry, n: int): (real, real)
    requires n > 0
  {
    (t.width as real / n as real, t.height as real / n as real)
  }

  /** The component-wise arithmetic mean of all entries, duplicates included. */
  function Mean(sizes: seq<Geometry>): (real, real)
    requires |sizes| > 0
  {
    Centre(Total(sizes), |sizes|)
  }

  /** `n` times the mean is the sum of all widths, and of all heights. */
  lemma MeanTimesCount(sizes: seq<Geometry>)
    requires |sizes| > 0
    ensures Mean(sizes).0 * |sizes| as real == Sum(Widths(sizes)) as real
    ensures Mean(sizes).1 * |sizes| as real == Sum(Heights(sizes)) as real
  {
    TotalIsSum(sizes);
    var t := Total(sizes);
    var n := |sizes| as real;
    assert (t.width as real / n) * n == t.width as real;
    assert (t.height as real / n) * n == t.height as real;
  }

  function Square(x: real): real {
    x * x
  }

  /** The exact squared Euclidean distance from `a` to the point `m`. */
  function SquaredDistance(a: Geometry, m: (real, real)): real {
    Square(a.width as real - m.0) + Square(a.height as real - m.1)
  }

  /** The exact squared Euclidean distance from `a` to the mean of `sizes`. */
  function SquaredDistanceToMean(a: Geometry, sizes: seq<Geometry>): real
    requires |sizes| > 0
  {
    SquaredDistance(a, Mean(sizes))
  }

  /** `n²` times the squared distance from `a` to the mean, which needs no division: `(n·w − Σw)² + (n·h − Σh)²`. */
  function ScaledDistance(a: Geometry, total: Geometry, n: int): int {
    var dw := n * a.width - total.width;
    var dh := n * a.height - total.height;
    dw * dw + dh * dh
  }

  /** `dists = [dist_to_ave(a) for a in sizes]`, on the integer key (see `ScaledDistanceIsExact`): one non-negative key per entry. */
  function Distances(sizes: seq<Geometry>): (d: seq<int>)
    requires |sizes| > 0
    ensures |d| == |sizes|
    ensures forall i | 0 <= i < |d| :: d[i] >= 0
  {
    var t := Total(sizes);
    var d := seq(|sizes|, i requires 0 <= i < |sizes| => ScaledDistance(sizes[i], t, |sizes|));
    KeysNonNegative(sizes, t, |sizes|);
    assert forall i | 0 <= i < |d| :: d[i] == ScaledDistance(sizes[i], t, |sizes|);
    d
  }

  lemma KeysNonNegative(sizes: seq<Geometry>, t: Geometry, n: int)
    ensures forall i | 0 <= i < |sizes| :: ScaledDistance(sizes[i], t, n) >= 0
  {
    forall i | 0 <= i < |sizes| ensures ScaledDistance(sizes[i], t, n) >= 0 {
      var dw := n * sizes[i].width - t.width;
      var dh := n * sizes[i].height - t.height;
      assert dw * dw >= 0 && dh * dh >= 0;
    }
  }

  /** `min(dists)`. */
  function MinOf(s: seq<int>): (m: int)
    requires |s| > 0
    ensures m in s
    ensures forall i | 0 <= i < |s| :: m <= s[i]
  {
    if |s| == 1 then s[0]
    else
      var m := MinOf(s[..|s| - 1]);
      assert forall i | 0 <= i < |s| - 1 :: s[..|s| - 1][i] == s[i];
      if s[|s| - 1] < m then s[|s| - 1] else m
  }

  /** `s.index(x)`: the first position holding `x`. */
  function IndexOf(s: seq<int>, x: int): (k: nat)
    requires x in s
    ensures k < |s| && s[k] == x
    ensures forall j | 0 <= j < k :: s[j] != x
  {
    if s[0] == x then 0 else 1 + IndexOf(s[1..], x)
  }

  /** `dists.index(min(dists))`: the first position of a smallest key. */
  function OptimalIndex(sizes: seq<Geometry>): (i: nat)
    requires |sizes| > 0
    ensures i < |sizes|
    ensures forall j | 0 <= j < |sizes| :: Distances(sizes)[i] <= Distances(sizes)[j]
    ensures forall j | 0 <= j < i :: Distances(sizes)[i] < Distances(sizes)[j]
  {
    var d := Distances(sizes);
    IndexOf(d, MinOf(d))
  }

  /** `get_optimal_size(sizes)`: the entry nearest to the mean, the first one on a tie. */
  function GetOptimalSize(sizes: seq<Geometry>): (r: Geometry)
    requires |sizes| > 0
    ensures r in sizes
    ensures |sizes| == 1 ==> r == sizes[0]
  {
    sizes[OptimalIndex(sizes)]
  }

  /** One axis: `(n·w − Σ)²` is `n²` times the squared distance from `w` to `Σ/n`. */
  lemma ScaledSquare(n: int, w: int, total: int)
    requires n > 0
    ensures ((n * w - total) * (n * w - total)) as real
         == Square(n as real) * Square(w as real - total as real / n as real)
  {
    var rn := n as real;
    var x := w as real - total as real / rn;
    var d := n * w - total;
    assert (d * d) as real == (d as real) * (d as real);
    assert rn * (total as real / rn) == total as real;
    assert d as real == rn * x;
    assert (rn * x) * (rn * x) == (rn * rn) * (x * x);
  }

  /** The key of `a` for sums `t` over `n` entries is `n²` times the squared distance from `a` to `t/n`. */
  lemma ScaledKeyExact(a: Geometry, t: Geometry, n: int)
    requires n > 0
    ensures ScaledDistance(a, t, n) as real == Square(n as real) * SquaredDistance(a, Centre(t, n))
  {
    ScaledSquare(n, a.width, t.width);
    ScaledSquare(n, a.height, t.height);
    var k := Square(n as real);
    var p := Square(a.width as real - t.width as real / n as real);
    var q := Square(a.height as real - t.height as real / n as real);
    assert SquaredDistance(a, Centre(t, n)) == p + q;
    assert k * p + k * q == k * (p + q);
  }

  /** The integer key is the exact squared distance to the mean scaled by `n²`. */
  lemma ScaledDistanceIsExact(a: Geometry, sizes: seq<Geometry>)
    requires |sizes| > 0
    ensures ScaledDistance(a, Total(sizes), |sizes|) as real
         == Square(|sizes| as real) * SquaredDistanceToMean(a, sizes)
  {
    ScaledKeyExact(a, Total(sizes), |sizes|);
  }

  lemma MulPositive(x: real, y: real)
    requires x > 0.0 && y > 0.0
    ensures x * y > 0.0
  {
  }

  lemma SquarePositive(n: int)
    requires n > 0
    ensures Square(n as real) > 0.0
  {
    MulPositive(n as real, n as real);
  }

  lemma ScalePreservesOrder(ka: int, kb: int, k: real, da: real, db: real)
    requires k > 0.0 && ka as real == k * da && kb as real == k * db
    ensures ka <= kb <==> da <= db
  {
    if da <= db {
      assert k * db - k * da == k * (db - da);
    } else {
      assert k * da - k * db == k * (da - db);
    }
  }

  /** For the same sums `t` over `n` entries, an integer key no larger than another means an exact distance to `t/n` no larger. */
  lemma KeyOrderGivesDistanceOrder(a: Geometry, b: Geometry, t: Geometry, n: int)
    requires n > 0
    ensures ScaledDistance(a, t, n) <= ScaledDistance(b, t, n)
        ==> SquaredDistance(a, Centre(t, n)) <= SquaredDistance(b, Centre(t, n))
  {
    ScaledKeyExact(a, t, n);
    ScaledKeyExact(b, t, n);
    SquarePositive(n);
    ScalePreservesOrder(ScaledDistance(a, t, n), ScaledDistance(b, t, n), Square(n as real),
                        SquaredDistance(a, Centre(t, n)), SquaredDistance(b, Centre(t, n)));
  }

  /** For the same sums `t` over `n` entries, a strictly smaller integer key means a strictly smaller exact distance to `t/n`. */
  lemma KeyStrictGivesDistanceStrict(a: Geometry, b: Geometry, t: Geometry, n: int)
    requires n > 0
    ensures ScaledDistance(a, t, n) < ScaledDistance(b, t, n)
        ==> SquaredDistance(a, Centre(t, n)) < SquaredDistance(b, Centre(t, n))
  {
    ScaledKeyExact(a, t, n);
    ScaledKeyExact(b, t, n);
    SquarePositive(n);
    ScalePreservesOrder(ScaledDistance(b, t, n), ScaledDistance(a, t, n), Square(n as real),
                        SquaredDistance(b, Centre(t, n)), SquaredDistance(a, Centre(t, n)));
  }

  /**
    The returned size is `sizes[i]` for the smallest index `i` whose distance
    to the mean is minimal: no entry is strictly closer, and every entry
    before `i` is strictly farther.
   */
  lemma OptimalSizeIsFirstNearest(sizes: seq<Geometry>)
    requires |sizes| > 0
    ensures var i := OptimalIndex(sizes);
            && i < |sizes|
            && GetOptimalSize(sizes) == sizes[i]
            && (forall j | 0 <= j < |sizes| ::
                  SquaredDistanceToMean(sizes[i], sizes) <= SquaredDistanceToMean(sizes[j], sizes))
            && (forall j | 0 <= j < i ::
                  SquaredDistanceToMean(sizes[i], sizes) < SquaredDistanceToMean(sizes[j], sizes))
  {
    var d := Distances(sizes);
    var i := OptimalIndex(sizes);
    var t := Total(sizes);
    forall j | 0 <= j < |sizes|
      ensures SquaredDistanceToMean(sizes[i], sizes) <= SquaredDistanceToMean(sizes[j], sizes)
      ensures j < i ==> SquaredDistanceToMean(sizes[i], sizes) < SquaredDistanceToMean(sizes[j], sizes)
    {
      assert d[i] <= d[j];
      assert j < i ==> d[i] < d[j];
      KeyOrderGivesDistanceOrder(sizes[i], sizes[j], t, |sizes|);
      KeyStrictGivesDistanceStrict(sizes[i], sizes[j], t, |sizes|);
    }
  }

  /** Three files, one of them a duplicate: the mean is (133⅓, 133⅓) and (100, 100) is nearest. */
  lemma OptimalSizeExample()
    ensures GetOptimalSize([Geometry(100, 100), Geometry(200, 200), Geometry(100, 100)]) == Geometry(100, 100)
  {
    var sizes := [Geometry(100, 100), Geometry(200, 200), Geometry(100, 100)];
    assert Total(sizes[..2]) == Geometry(300, 300);
    assert Total(sizes) == Geometry(400, 400);
    assert Distances(sizes) == [20000, 80000, 20000];
    assert MinOf(Distances(sizes)) == 20000;
  }

  /** The duplicated geometry outweighs the odd one out. */
  lemma OptimalSizeDuplicatesCount()
    ensures GetOptimalSize([Geometry(1920, 1080), Geometry(1280, 720), Geometry(1920, 1080)]) == Geometry(1920, 1080)
  {
    var sizes := [Geometry(1920, 1080), Geometry(1280, 720), Geometry(1920, 1080)];
    assert Total(sizes[..2]) == Geometry(3200, 1800);
    assert Total(sizes) == Geometry(5120, 2880);
    assert Distances(sizes) == [539200, 2156800, 539200];
    assert MinOf(Distances(sizes)) == 539200;
  }

  /** `get_optimal_fps(fps_list)`, i.e. `max` over exact rationals: Python keeps the first maximum it meets. */
  function GetOptimalFps(fps: seq<real>): (r: real)
    requires |fps| > 0
    ensures r in fps
    ensures forall i | 0 <= i < |fps| :: fps[i] <= r
  {
    if |fps| == 1 then fps[0]
    else
      var m := GetOptimalFps(fps[..|fps| - 1]);
      assert forall i | 0 <= i < |fps| - 1 :: fps[..|fps| - 1][i] == fps[i];
      if fps[|fps| - 1] > m then fps[|fps| - 1] else m
  }

  /** The chosen rate does not depend on the order of the files. */
  lemma OptimalFpsOrderIndependent(a: seq<real>, b: seq<real>)
    requires |a| > 0 && multiset(a) == multiset(b)
    ensures |b| > 0 && GetOptimalFps(a) == GetOptimalFps(b)
  {
    assert |b| == |multiset(b)| == |multiset(a)| == |a|;
    var ma, mb := GetOptimalFps(a), GetOptimalFps(b);
    assert ma in multiset(b);
    assert mb in multiset(a);
    assert ma <= mb && mb <= ma;
  }

  /** Rates are exact: 30000/1001 and 60000/2002 are one value, and 60 beats 30 and 24. */
  lemma OptimalFpsExamples()
    ensures GetOptimalFps([24.0, 30000.0 / 1001.0, 60000.0 / 2002.0]) == 30000.0 / 1001.0
    ensures GetOptimalFps([30.0, 24.0, 60.0]) == 60.0
  {
    assert [24.0, 30000.0 / 1001.0, 60000.0 / 2002.0][..2] == [24.0, 30000.0 / 1001.0];
    assert [30.0, 24.0, 60.0][..2] == [30.0, 24.0];
  }
}
