/** The virtual square grid of workers: the integer linear dimension `D` of a
    worker count, the perfect-square configuration check, and the split of a
    linear rank into grid coordinates `(x, y) = (rank % D, rank / D)`. */
module Grid {
  import opened Wrappers

  function Square(d: nat): nat { d * d }

  /** `n` is the number of cells of some square grid. */
  ghost predicate IsSquare(n: nat) {
    exists d: nat :: Square(d) == n
  }

  lemma SquareMonotone(a: nat, b: nat)
    ensures a <= b ==> Square(a) <= Square(b)
  {
    if a <= b {
      assert a * a <= a * b;
      assert a * b <= b * b;
    }
  }

  /** Integer square root, the value `(int)sqrt(n)` takes for every worker
      count a 32-bit `int` can hold. */
  function ISqrt(n: nat): (d: nat)
    ensures Square(d) <= n < Square(d + 1)
  {
    if n == 0 then 0
    else
      var r := ISqrt(n - 1);
      if Square(r + 1) <= n then
        SquareMonotone(r + 1, r + 2);
        r + 1
      else r
  }

  /** The integer square root is the only `e` with `e*e <= n < (e+1)*(e+1)`. */
  lemma ISqrtUnique(n: nat, e: nat)
    requires Square(e) <= n < Square(e + 1)
    ensures ISqrt(n) == e
  {
    var d := ISqrt(n);
    SquareMonotone(e + 1, d);
    SquareMonotone(d + 1, e);
  }

  /** Any root of a perfect square is the integer square root. */
  lemma RootIsISqrt(n: nat, e: nat)
    requires Square(e) == n
    ensures ISqrt(n) == e
  {
    assert Square(e + 1) == Square(e) + 2 * e + 1;
    ISqrtUnique(n, e);
  }

  datatype ConfigError = NotPerfectSquare(size: nat)

  /** The perfect-square check both programs run at startup: the linear
      dimension is the truncated square root, and the run is refused when its
      square is not the worker count. */
  function LinDim(size: nat): (r: Result<nat, ConfigError>)
    ensures r.Success? <==> IsSquare(size)
    ensures r.Success? ==> Square(r.value) == size
    ensures r.Failure? ==> r.error == NotPerfectSquare(size)
  {
    var d := ISqrt(size);
    if Square(d) != size then
      assert !IsSquare(size) by {
        if e: nat :| Square(e) == size {
          RootIsISqrt(size, e);
        }
      }
      Failure(NotPerfectSquare(size))
    else
      Success(d)
  }

  /** A grid cell; `x` is the column and `y` the row, both counted from 0 at
      the upper-left corner. */
  datatype Coord = Coord(x: int, y: int)

  predicate InGrid(c: Coord, d: nat) {
    0 <= c.x < d && 0 <= c.y < d
  }

  /** The row-major linear rank of a cell, `y*D + x`. */
  function RankOf(c: Coord, d: nat): int {
    c.y * d + c.x
  }

  /** Splits a rank into its coordinates as `x = rank % D`, `y = rank / D`. */
  function CoordOf(rank: nat, d: nat): (c: Coord)
    requires rank < Square(d)
    ensures InGrid(c, d)
    ensures RankOf(c, d) == rank
  {
    var c := Coord(rank % d, rank / d);
    assert c.y < d by {
      if c.y >= d {
        MulAtLeast(c.y, d, d);
      }
    }
    c
  }

  /** Quotient and remainder by a positive divisor are unique. */
  lemma DivModUnique(q: int, r: int, q': int, r': int, d: nat)
    requires 0 <= r < d && 0 <= r' < d
    requires q * d + r == q' * d + r'
    ensures q == q' && r == r'
  {
    var k := q - q';
    assert k * d == r' - r by {
      assert k * d == q * d - q' * d;
    }
    if k >= 1 {
      MulAtLeast(k, 1, d);
    }
  }

  lemma MulAtLeast(k: int, m: nat, d: nat)
    requires k >= m
    ensures k * d >= m * d
  {
    assert k * d == m * d + (k - m) * d;
  }

  /** Every cell of the grid has a rank in `[0, D*D)`, and splitting that rank
      gives the cell back: ranks and in-grid coordinates are in bijection. */
  lemma CoordRoundTrip(c: Coord, d: nat)
    requires InGrid(c, d)
    ensures 0 <= RankOf(c, d) < Square(d)
    ensures CoordOf(RankOf(c, d), d) == c
  {
    var r := RankOf(c, d);
    MulAtLeast(c.y, 0, d);
    MulAtLeast(d - 1, c.y, d);
    assert (d - 1) * d + d == d * d;
    var c' := CoordOf(r, d);
    DivModUnique(c.y, c.x, c'.y, c'.x, d);
  }

  /** Two in-grid cells with the same rank are the same cell. */
  lemma RankInjective(c: Coord, c': Coord, d: nat)
    requires InGrid(c, d) && InGrid(c', d)
    requires RankOf(c, d) == RankOf(c', d)
    ensures c == c'
  {
    DivModUnique(c.y, c.x, c'.y, c'.x, d);
  }
}
