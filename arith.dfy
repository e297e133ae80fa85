/** Facts about multiplication, division and remainder by a variable divisor,
    which the solver does not find on its own. Used for the row/column index
    arithmetic of pixel decoding and rendering. */
module Arith {

  lemma MulAtLeast(w: int, d: int)
    requires w > 0 && d >= 1
    ensures d * w >= w
  {
  }

  /** Division with remainder is unique: a row/column split of x is x / w, x % w. */
  lemma DivModUnique(x: int, w: int, q: int, r: int)
    requires w > 0 && 0 <= r < w && x == q * w + r
    ensures x / w == q && x % w == r
  {
    var q', r' := x / w, x % w;
    assert x == q' * w + r';
    if q > q' {
      assert (q - q') * w == r' - r;
      MulAtLeast(w, q - q');
    } else if q < q' {
      assert (q' - q) * w == r - r';
      MulAtLeast(w, q' - q);
    }
  }

  /** The quotient and remainder of a natural number. */
  lemma DivMod(x: int, w: int)
    requires 0 <= x && 0 < w
    ensures 0 <= x / w && 0 <= x % w < w && x == (x / w) * w + x % w
  {
  }

  lemma MulMod(a: int, w: int)
    requires w > 0
    ensures (a * w) % w == 0 && (a * w) / w == a
  {
    DivModUnique(a * w, w, a, 0);
  }

  /** A multiple of w is w times its quotient. */
  lemma ModZero(n: int, w: int)
    requires w > 0 && n % w == 0
    ensures n == (n / w) * w
  {
  }

  /** One more row of b cells. */
  lemma MulSucc(a: int, b: int)
    ensures (a + 1) * b == a * b + b
  {
  }

  lemma MulAdd(a: int, b: int, c: int)
    ensures c * (a + b) == c * a + c * b
  {
  }

  lemma MulMono(a: int, b: int, m: int)
    requires 0 <= a <= b && 0 <= m
    ensures a * m <= b * m
  {
  }

  /** Stepping to the next cell of a row moves the column by one. */
  lemma SameRow(i: int, w: int)
    requires 0 <= i && 0 < w && i % w + 1 < w
    ensures (i + 1) % w == i % w + 1
  {
    DivMod(i, w);
    DivModUnique(i + 1, w, i / w, i % w + 1);
  }

  /** Stepping past the last cell of a row starts a new row. */
  lemma NextRow(i: int, w: int)
    requires 0 <= i && 0 < w && i % w + 1 == w
    ensures (i + 1) % w == 0
  {
    DivMod(i, w);
    assert i + 1 == (i / w + 1) * w;
    DivModUnique(i + 1, w, i / w + 1, 0);
  }

  /** In a grid of n cells (whole rows of w), the cell v places from the end
      sits at the column mirrored from v's. */
  lemma MirrorCol(n: int, v: int, w: int)
    requires 0 <= v < n && 0 < w && n % w == 0
    ensures (n - 1 - v) % w == w - 1 - v % w
  {
    DivMod(v, w);
    ModZero(n, w);
    var d, m, rows := v / w, v % w, n / w;
    assert n - 1 - v == (rows - d - 1) * w + (w - 1 - m);
    DivModUnique(n - 1 - v, w, rows - d - 1, w - 1 - m);
  }

  /** The row containing cell v of a grid of n cells lies inside the grid. */
  lemma RowFits(n: int, v: int, w: int)
    requires 0 <= v < n && 0 < w && n % w == 0
    ensures v - v % w + w <= n
  {
    DivMod(v, w);
    ModZero(n, w);
    var d, rows := v / w, n / w;
    if rows < d + 1 {
      MulMono(rows, d, w);
    }
    MulMono(d + 1, rows, w);
  }
}
