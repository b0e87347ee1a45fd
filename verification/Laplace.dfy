// The determinant of an integer matrix by Laplace expansion along the first column: linear in each row, alternating,
// and compatible with reduction modulo p.

module Laplace {
  import opened ModArith
  import opened Sums
  import opened Matrices

  function Lead(row: seq<int>): int {
    if row == [] then 0 else row[0]
  }

  function Tail(row: seq<int>): seq<int> {
    if row == [] then [] else row[1..]
  }

  function Tails(rows: Rows): (t: Rows)
    ensures |t| == |rows|
    ensures forall k :: 0 <= k < |rows| ==> t[k] == Tail(rows[k])
  {
    seq(|rows|, k requires 0 <= k < |rows| => Tail(rows[k]))
  }

  // The matrix without row i and without the first column.
  function Minor(a: Rows, i: nat): (m: Rows)
    requires i < |a|
    ensures |m| == |a| - 1
    ensures forall k :: 0 <= k < |m| ==> m[k] == Tail(a[if k < i then k else k + 1])
  {
    Tails(a[..i] + a[i + 1..])
  }

  function DetTerm(a: Rows, i: int): int
    decreases |a|, 0
  {
    if 0 <= i < |a| then Sign(i) * Lead(a[i]) * LaplaceDet(Minor(a, i)) else 0
  }

  function LaplaceDet(a: Rows): int
    decreases |a|, 1
  {
    if a == [] then 1 else Sum(i => DetTerm(a, i), |a|)
  }

  // ----- alternating

  function SwapRows(a: Rows, k: nat): (s: Rows)
    requires k + 1 < |a|
    ensures |s| == |a|
  {
    a[k := a[k + 1]][k + 1 := a[k]]
  }

  lemma {:induction false} SumSwapped(f: int -> int, g: int -> int, n: nat, k: nat)
    requires k + 1 < n
    requires f(k) == -g(k + 1) && f(k + 1) == -g(k)
    requires forall i :: 0 <= i < n && i != k && i != k + 1 ==> f(i) == -g(i)
    ensures Sum(f, n) == -Sum(g, n)
  {
    if n == k + 2 {
      SumNegated(f, g, k);
      assert Sum(f, k + 2) == Sum(f, k + 1) + f(k + 1) == Sum(f, k) + f(k) + f(k + 1);
      assert Sum(g, k + 2) == Sum(g, k + 1) + g(k + 1) == Sum(g, k) + g(k) + g(k + 1);
    } else {
      SumSwapped(f, g, n - 1, k);
    }
  }

  lemma {:induction false} SumNegated(f: int -> int, g: int -> int, n: nat)
    requires forall i :: 0 <= i < n ==> f(i) == -g(i)
    ensures Sum(f, n) == -Sum(g, n)
  {
    if n > 0 { SumNegated(f, g, n - 1); }
  }

  // Swapping adjacent rows changes the sign.
  lemma {:induction false} DetSwap(a: Rows, k: nat)
    requires k + 1 < |a|
    ensures LaplaceDet(SwapRows(a, k)) == -LaplaceDet(a)
    decreases |a|, 1
  {
    hide DetTerm, SwapRows;
    var s := SwapRows(a, k);
    forall i | 0 <= i < |a| && i != k && i != k + 1
      ensures DetTerm(s, i) == -DetTerm(a, i)
    {
      SwapTerm(a, k, i);
    }
    SwappedTerms(a, k);
    SumSwapped(i => DetTerm(s, i), i => DetTerm(a, i), |a|, k);
  }

  // Dropping another row first, the same two rows are swapped.
  lemma SwapMinor(a: Rows, k: nat, i: nat)
    requires k + 1 < |a| && i < |a| && i != k && i != k + 1
    ensures var k' := if i < k then k - 1 else k;
            k' + 1 < |Minor(a, i)| && Minor(SwapRows(a, k), i) == SwapRows(Minor(a, i), k') && SwapRows(a, k)[i] == a[i]
  {
    hide Tail;
  }

  lemma {:induction false} SwapTerm(a: Rows, k: nat, i: nat)
    requires k + 1 < |a| && i < |a| && i != k && i != k + 1
    ensures DetTerm(SwapRows(a, k), i) == -DetTerm(a, i)
    decreases |a|, 0
  {
    hide DetTerm, LaplaceDet, SwapRows, Minor, Lead, Sign;
    var s := SwapRows(a, k);
    var k' := if i < k then k - 1 else k;
    SwapMinor(a, k, i);
    DetSwap(Minor(a, i), k');
    TermOf(a, i);
    TermOf(s, i);
    MulNegated(Sign(i) * Lead(a[i]), LaplaceDet(Minor(a, i)));
  }

  lemma TermOf(a: Rows, i: nat)
    requires i < |a|
    ensures DetTerm(a, i) == Sign(i) * Lead(a[i]) * LaplaceDet(Minor(a, i))
  {
  }

  lemma MulNegated(x: int, d: int)
    ensures x * -d == -(x * d) && -x * d == -(x * d)
  {
  }

  lemma SwappedTerms(a: Rows, k: nat)
    requires k + 1 < |a|
    ensures DetTerm(SwapRows(a, k), k) == -DetTerm(a, k + 1)
    ensures DetTerm(SwapRows(a, k), k + 1) == -DetTerm(a, k)
  {
    hide LaplaceDet;
    var s := SwapRows(a, k);
    assert Minor(s, k) == Minor(a, k + 1);
    assert Minor(s, k + 1) == Minor(a, k);
    var x, y := Lead(a[k + 1]), Lead(a[k]);
    assert Sign(k) == -Sign(k + 1);
    MulNegated(Sign(k + 1) * x, LaplaceDet(Minor(a, k + 1)));
    MulNegated(Sign(k) * y, LaplaceDet(Minor(a, k)));
    MulNegated(Sign(k + 1), x);
    MulNegated(Sign(k), y);
  }

  // Two equal rows make the determinant zero.
  lemma {:induction false} DetEqualRows(a: Rows, i: nat, j: nat)
    requires i < j < |a| && a[i] == a[j]
    ensures LaplaceDet(a) == 0
    decreases j - i
  {
    hide LaplaceDet;
    DetSwap(a, j - 1);
    if i == j - 1 {
      assert SwapRows(a, i) == a;
    } else {
      DetEqualRows(SwapRows(a, j - 1), i, j - 1);
    }
  }

  // ----- linear in each row

  ghost predicate IsCombination(c: seq<int>, a: seq<int>, t: int, b: seq<int>) {
    |c| == |a| == |b| && forall j :: 0 <= j < |c| ==> c[j] == a[j] + t * b[j]
  }

  // c is a with t times row k of b added to row k, and b agrees with a elsewhere.
  ghost predicate DiffersInRow(c: Rows, a: Rows, b: Rows, k: nat, t: int) {
    && |a| == |b| == |c| && k < |a|
    && (forall i :: 0 <= i < |a| && i != k ==> a[i] == b[i] == c[i])
    && IsCombination(c[k], a[k], t, b[k])
  }

  // Then the determinants combine in the same way.
  lemma {:induction false} DetLinear(c: Rows, a: Rows, b: Rows, k: nat, t: int)
    requires DiffersInRow(c, a, b, k, t)
    ensures LaplaceDet(c) == LaplaceDet(a) + t * LaplaceDet(b)
    decreases |a|, 1
  {
    hide DetTerm, DiffersInRow, LaplaceDet;
    SameSize(c, a, b, k, t);
    var f, g := (i: int) => DetTerm(a, i), (i: int) => DetTerm(b, i);
    var h := (i: int) => t * g(i);
    forall i | 0 <= i < |a|
      ensures DetTerm(c, i) == f(i) + h(i)
    {
      DetLinearTerm(c, a, b, k, t, i);
    }
    DetAsSum(a);
    DetAsSum(b);
    DetAsSum(c);
    SumEqual(f, i => DetTerm(a, i), |a|);
    SumEqual(g, i => DetTerm(b, i), |a|);
    SumEqual(h, i => t * g(i), |a|);
    SumScale(t, g, |a|);
    SumAdd(f, h, |a|);
    SumEqual(i => DetTerm(c, i), i => f(i) + h(i), |a|);
  }

  lemma SameSize(c: Rows, a: Rows, b: Rows, k: nat, t: int)
    requires DiffersInRow(c, a, b, k, t)
    ensures |a| == |b| == |c| && a != []
  {
  }

  lemma {:induction false} DetLinearTerm(c: Rows, a: Rows, b: Rows, k: nat, t: int, i: nat)
    requires DiffersInRow(c, a, b, k, t) && i < |a|
    ensures DetTerm(c, i) == DetTerm(a, i) + t * DetTerm(b, i)
    decreases |a|, 0
  {
    hide DetTerm, LaplaceDet, Minor, Sign;
    TermOf(a, i);
    TermOf(b, i);
    TermOf(c, i);
    if i == k {
      SameMinors(c, a, b, k, t);
      LinearLead(Sign(k), Lead(a[k]), Lead(b[k]), t, LaplaceDet(Minor(a, k)));
    } else {
      var k' := if k < i then k else k - 1;
      DetLinear(Minor(c, i), Minor(a, i), Minor(b, i), k', t);
      LinearMinor(Sign(i) * Lead(a[i]), LaplaceDet(Minor(a, i)), LaplaceDet(Minor(b, i)), t);
    }
  }

  lemma SameMinors(c: Rows, a: Rows, b: Rows, k: nat, t: int)
    requires DiffersInRow(c, a, b, k, t)
    ensures Minor(c, k) == Minor(a, k) == Minor(b, k)
    ensures Lead(c[k]) == Lead(a[k]) + t * Lead(b[k])
  {
  }

  lemma LinearLead(s: int, x: int, y: int, t: int, d: int)
    ensures s * (x + t * y) * d == s * x * d + t * (s * y * d)
  {
    assert s * (x + t * y) == s * x + s * (t * y);
    assert s * (t * y) * d == t * (s * y * d);
  }

  lemma LinearMinor(x: int, d: int, e: int, t: int)
    ensures x * (d + t * e) == x * d + t * (x * e)
  {
    MulRotate(x, t, e);
    MulCommutes(e, x);
  }

  // Adding a multiple of row 0 to a later row changes nothing.
  lemma DetRowOperation(c: Rows, a: Rows, k: nat, t: int)
    requires |c| == |a| && 1 <= k < |a|
    requires forall i :: 0 <= i < |a| && i != k ==> a[i] == c[i]
    requires IsCombination(c[k], a[k], t, a[0])
    ensures LaplaceDet(c) == LaplaceDet(a)
  {
    hide LaplaceDet;
    var b := a[k := a[0]];
    DetLinear(c, a, b, k, t);
    DetEqualRows(b, 0, k);
  }

  // ----- modulo p

  ghost predicate SameResidues(a: Rows, b: Rows, p: int)
    requires p > 0
  {
    && |a| == |b|
    && forall i :: 0 <= i < |a| ==> |a[i]| == |b[i]| && forall j :: 0 <= j < |a[i]| ==> a[i][j] % p == b[i][j] % p
  }

  lemma {:induction false} DetCong(a: Rows, b: Rows, p: int)
    requires p > 0 && SameResidues(a, b, p)
    ensures LaplaceDet(a) % p == LaplaceDet(b) % p
    decreases |a|
  {
    hide DetTerm;
    if a != [] {
      forall i | 0 <= i < |a|
        ensures DetTerm(a, i) % p == DetTerm(b, i) % p
      {
        DetCong(Minor(a, i), Minor(b, i), p);
        TermOf(a, i);
        TermOf(b, i);
        CongMul(Sign(i), Sign(i), Lead(a[i]), Lead(b[i]), p);
        CongMul(Sign(i) * Lead(a[i]), Sign(i) * Lead(b[i]), LaplaceDet(Minor(a, i)), LaplaceDet(Minor(b, i)), p);
      }
      SumCong(i => DetTerm(a, i), i => DetTerm(b, i), |a|, p);
    }
  }

  // ----- a first column with at most one entry

  lemma DetZeroColumn(a: Rows)
    requires a != [] && forall i :: 0 <= i < |a| ==> Lead(a[i]) == 0
    ensures LaplaceDet(a) == 0
  {
    hide LaplaceDet, DetTerm;
    var f := (i: int) => DetTerm(a, i);
    forall i | 0 <= i < |a|
      ensures f(i) == 0
    {
      TermOf(a, i);
      ZeroTerm(Sign(i), LaplaceDet(Minor(a, i)));
    }
    SumZero(f, |a|);
    DetAsSum(a);
    SumEqual(f, i => DetTerm(a, i), |a|);
  }

  lemma DetLeadingRow(a: Rows)
    requires a != [] && forall i :: 1 <= i < |a| ==> Lead(a[i]) == 0
    ensures LaplaceDet(a) == Lead(a[0]) * LaplaceDet(Tails(a[1..]))
  {
    hide LaplaceDet, DetTerm;
    var f := (i: int) => DetTerm(a, i);
    forall i | 0 <= i < |a| && i != 0
      ensures f(i) == 0
    {
      TermOf(a, i);
      ZeroTerm(Sign(i), LaplaceDet(Minor(a, i)));
    }
    SumSingle(f, |a|, 0);
    TermOf(a, 0);
    assert Minor(a, 0) == Tails(a[1..]);
    DetAsSum(a);
    SumEqual(f, i => DetTerm(a, i), |a|);
  }

  lemma ZeroTerm(s: int, d: int)
    ensures s * 0 * d == 0
  {
  }

  lemma DetAsSum(a: Rows)
    requires a != []
    ensures LaplaceDet(a) == Sum(i => DetTerm(a, i), |a|)
  {
  }

  // ----- reordering rows

  // Moving one row down past a block of rows changes the sign once for every row passed.
  lemma {:induction false} DetMoveRow(u: Rows, r: seq<int>, x: Rows, y: Rows)
    ensures LaplaceDet(u + [r] + x + y) == Sign(|x|) * LaplaceDet(u + x + [r] + y)
    decreases |x|
  {
    hide LaplaceDet;
    if x == [] {
      assert u + [r] + x + y == u + x + [r] + y;
    } else {
      var a := u + [r] + x + y;
      DetSwap(a, |u|);
      assert SwapRows(a, |u|) == (u + [x[0]]) + [r] + x[1..] + y;
      DetMoveRow(u + [x[0]], r, x[1..], y);
      assert (u + [x[0]]) + x[1..] + [r] + y == u + x + [r] + y;
    }
  }

  lemma SignSum(a: int, b: int)
    ensures Sign(a + b) == Sign(a) * Sign(b)
    ensures Sign(a) * Sign(a) == 1
  {
  }
}
