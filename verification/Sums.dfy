/**
 * Finite sums of integers. The laws take every summand as a function value and relate the functions
 * pointwise, so that a caller can name the functions as it likes.
 */
module Sums {
  function Sum(lo: int, hi: int, f: int -> int): int
    decreases hi - lo
  {
    if hi <= lo then 0 else Sum(lo, hi - 1, f) + f(hi - 1)
  }

  lemma {:induction false} SumSame(lo: int, hi: int, f: int -> int, g: int -> int)
    requires forall i :: lo <= i < hi ==> f(i) == g(i)
    ensures Sum(lo, hi, f) == Sum(lo, hi, g)
    decreases hi - lo
  {
    if lo < hi {
      SumSame(lo, hi - 1, f, g);
    }
  }

  lemma {:induction false} SumTelescopes(lo: int, hi: int, f: int -> int, g: int -> int)
    requires lo <= hi && forall i :: lo <= i < hi ==> f(i) == g(i + 1) - g(i)
    ensures Sum(lo, hi, f) == g(hi) - g(lo)
    decreases hi - lo
  {
    if lo < hi {
      SumTelescopes(lo, hi - 1, f, g);
    }
  }

  /** Terms outside `lo..hi` that are zero may be added. */
  lemma {:induction false} SumWidens(a: int, lo: int, hi: int, b: int, f: int -> int)
    requires a <= lo <= hi <= b
    requires forall i :: a <= i < lo || hi <= i < b ==> f(i) == 0
    ensures Sum(a, b, f) == Sum(lo, hi, f)
    decreases b - a
  {
    if hi < b {
      SumWidens(a, lo, hi, b - 1, f);
    } else if lo < hi {
      SumWidens(a, lo, hi - 1, b - 1, f);
    } else if a < b {
      SumWidens(a, lo - 1, hi - 1, b - 1, f);
    }
  }

  lemma {:induction false} SumScales(lo: int, hi: int, c: int, f: int -> int, g: int -> int)
    requires forall i :: lo <= i < hi ==> g(i) == c * f(i)
    ensures Sum(lo, hi, g) == c * Sum(lo, hi, f)
    decreases hi - lo
  {
    if lo < hi {
      SumScales(lo, hi - 1, c, f, g);
    }
  }

  lemma {:induction false} SumAdds(lo: int, hi: int, f: int -> int, g: int -> int, h: int -> int)
    requires forall i :: lo <= i < hi ==> h(i) == f(i) + g(i)
    ensures Sum(lo, hi, h) == Sum(lo, hi, f) + Sum(lo, hi, g)
    decreases hi - lo
  {
    if lo < hi {
      SumAdds(lo, hi - 1, f, g, h);
    }
  }

  lemma {:induction false} SumMonotone(lo: int, hi: int, f: int -> int, g: int -> int)
    requires forall i :: lo <= i < hi ==> f(i) <= g(i)
    ensures Sum(lo, hi, f) <= Sum(lo, hi, g)
    decreases hi - lo
  {
    if lo < hi {
      SumMonotone(lo, hi - 1, f, g);
    }
  }

  lemma {:induction false} SumOfZeros(lo: int, hi: int, f: int -> int)
    requires forall i :: lo <= i < hi ==> f(i) == 0
    ensures Sum(lo, hi, f) == 0
    decreases hi - lo
  {
    if lo < hi {
      SumOfZeros(lo, hi - 1, f);
    }
  }

  /** Summing a table by rows or by columns. */
  lemma {:induction false} SumSwaps(a: int, b: int, lo: int, hi: int,
      row: int -> int -> int, column: int -> int -> int, rows: int -> int, columns: int -> int)
    requires forall i, j :: a <= i < b && lo <= j < hi ==> row(i)(j) == column(j)(i)
    requires forall i :: a <= i < b ==> rows(i) == Sum(lo, hi, row(i))
    requires forall j :: lo <= j < hi ==> columns(j) == Sum(a, b, column(j))
    ensures Sum(a, b, rows) == Sum(lo, hi, columns)
    decreases b - a
  {
    if a >= b {
      SumOfZeros(lo, hi, columns);
    } else {
      var fewer := j => Sum(a, b - 1, column(j));
      SumSwaps(a, b - 1, lo, hi, row, column, rows, fewer);
      SumAdds(lo, hi, fewer, row(b - 1), columns);
    }
  }
}
