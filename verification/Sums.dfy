// Finite sums of an integer function over 0 <= i < n.

module Sums {
  import opened ModArith

  function Sum(f: int -> int, n: nat): int {
    if n == 0 then 0 else Sum(f, n - 1) + f(n - 1)
  }

  lemma {:induction false} SumEqual(f: int -> int, g: int -> int, n: nat)
    requires forall i :: 0 <= i < n ==> f(i) == g(i)
    ensures Sum(f, n) == Sum(g, n)
  {
    if n != 0 { SumEqual(f, g, n - 1); }
  }

  lemma {:induction false} SumCong(f: int -> int, g: int -> int, n: nat, m: int)
    requires m > 0
    requires forall i :: 0 <= i < n ==> f(i) % m == g(i) % m
    ensures Sum(f, n) % m == Sum(g, n) % m
  {
    if n != 0 {
      SumCong(f, g, n - 1, m);
      CongAdd(Sum(f, n - 1), Sum(g, n - 1), f(n - 1), g(n - 1), m);
    }
  }

  lemma {:induction false} SumAdd(f: int -> int, g: int -> int, n: nat)
    ensures Sum(i => f(i) + g(i), n) == Sum(f, n) + Sum(g, n)
  {
    if n != 0 {
      SumAdd(f, g, n - 1);
    }
  }

  lemma {:induction false} SumScale(c: int, f: int -> int, n: nat)
    ensures Sum(i => c * f(i), n) == c * Sum(f, n)
  {
    if n != 0 {
      SumScale(c, f, n - 1);
      assert c * (Sum(f, n - 1) + f(n - 1)) == c * Sum(f, n - 1) + c * f(n - 1);
    }
  }

  lemma {:induction false} SumZero(f: int -> int, n: nat)
    requires forall i :: 0 <= i < n ==> f(i) == 0
    ensures Sum(f, n) == 0
  {
    if n != 0 { SumZero(f, n - 1); }
  }

  // A sum with one nonzero term.
  lemma {:induction false} SumSingle(f: int -> int, n: nat, k: nat)
    requires k < n
    requires forall i :: 0 <= i < n && i != k ==> f(i) == 0
    ensures Sum(f, n) == f(k)
  {
    if k == n - 1 {
      SumZero(f, n - 1);
    } else {
      SumSingle(f, n - 1, k);
    }
  }

  lemma {:induction false} SumFirst(f: int -> int, n: nat)
    requires n >= 1
    ensures Sum(f, n) == f(0) + Sum(i => f(i + 1), n - 1)
  {
    if n > 1 {
      SumFirst(f, n - 1);
    } else {
      assert Sum(f, 0) == 0;
    }
  }

  // The sum of row i of a table with k columns, and of column j of a table with n rows.
  function RowSum(f: (int, int) -> int, i: int, k: nat): int {
    Sum(j => f(i, j), k)
  }

  function ColumnSum(f: (int, int) -> int, j: int, n: nat): int {
    Sum(i => f(i, j), n)
  }

  // The order of a double summation does not matter.
  lemma {:induction false} SumExchange(f: (int, int) -> int, n: nat, k: nat)
    ensures Sum(i => RowSum(f, i, k), n) == Sum(j => ColumnSum(f, j, n), k)
  {
    if n == 0 {
      SumZero(j => ColumnSum(f, j, 0), k);
    } else {
      SumExchange(f, n - 1, k);
      var last := (j: int) => f(n - 1, j);
      var rest := (j: int) => ColumnSum(f, j, n - 1);
      SumAdd(rest, last, k);
      SumEqual(j => ColumnSum(f, j, n), j => rest(j) + last(j), k);
      SumEqual(last, j => f(n - 1, j), k);
    }
  }
}
