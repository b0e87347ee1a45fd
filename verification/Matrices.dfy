// Matrices over the integers modulo p: row-major lists of rows, and the products, sums and elementwise powers the
// Rescue permutation is made of.

module Matrices {
  import opened ModArith
  import opened PrimeField
  import opened Sums
  import opened ConstantTime

  type Rows = seq<seq<int>>

  datatype Result<+T> = Success(value: T) | Failure(error: MatrixError)

  datatype MatrixError = EmptyMatrix | RaggedRows | ShapeMismatch | NotSquare

  // ----- shape and entries

  predicate HasShape(a: Rows, r: nat, c: nat) {
    |a| == r && forall i :: 0 <= i < r ==> |a[i]| == c
  }

  predicate IsMatrix(a: Rows, r: nat, c: nat, p: int) {
    HasShape(a, r, c) && forall i, j :: 0 <= i < r && 0 <= j < c ==> 0 <= a[i][j] < p
  }

  function NumCols(a: Rows): nat {
    if a == [] then 0 else |a[0]|
  }

  // The class invariant of a matrix over the field of order p: at least one row, all of one length, entries reduced.
  predicate Valid(a: Rows, p: int) {
    a != [] && IsMatrix(a, |a|, NumCols(a), p)
  }

  // Entry (i, j), and zero outside the matrix.
  function At(a: Rows, i: int, j: int): int {
    if 0 <= i < |a| && 0 <= j < |a[i]| then a[i][j] else 0
  }

  lemma MatrixEqual(a: Rows, b: Rows, r: nat, c: nat)
    requires HasShape(a, r, c) && HasShape(b, r, c)
    requires forall i, j :: 0 <= i < r && 0 <= j < c ==> At(a, i, j) == At(b, i, j)
    ensures a == b
  {
    forall i | 0 <= i < r
      ensures a[i] == b[i]
    {
      forall j | 0 <= j < c
        ensures a[i][j] == b[i][j]
      {
        assert At(a, i, j) == At(b, i, j);
      }
    }
  }

  function Tabulate(r: nat, c: nat, f: (int, int) -> int): (a: Rows)
    ensures HasShape(a, r, c)
    ensures forall i, j :: 0 <= i < r && 0 <= j < c ==> a[i][j] == f(i, j)
  {
    seq(r, i => seq(c, j => f(i, j)))
  }

  // ----- construction: every row as long as the first, every entry reduced

  function Create(data: Rows, p: int): (a: Rows)
    requires p > 0
    ensures |a| == |data|
    ensures forall i :: 0 <= i < |data| ==> |a[i]| == |data[i]|
    ensures forall i, j :: 0 <= i < |data| && 0 <= j < |data[i]| ==> a[i][j] == data[i][j] % p
  {
    seq(|data|, i requires 0 <= i < |data| => seq(|data[i]|, j requires 0 <= j < |data[i]| => data[i][j] % p))
  }

  lemma CreateReduced(data: Rows, p: int)
    requires p > 0
    ensures data != [] && HasShape(data, |data|, NumCols(data)) ==> Valid(Create(data, p), p)
    ensures Valid(data, p) ==> Create(data, p) == data
  {
    if Valid(data, p) {
      forall i, j | 0 <= i < |data| && 0 <= j < |data[i]|
        ensures Create(data, p)[i][j] == data[i][j]
      {
        SmallMod(data[i][j], p);
      }
      MatrixEqual(Create(data, p), data, |data|, NumCols(data));
    }
  }

  method NewMatrix(data: Rows, p: int) returns (res: Result<Rows>)
    requires p > 0
    ensures res.Success? <==> data != [] && HasShape(data, |data|, NumCols(data))
    ensures res.Success? ==> res.value == Create(data, p) && Valid(res.value, p)
    ensures res.Failure? ==> res.error == if data == [] then EmptyMatrix else RaggedRows
  {
    if data == [] {
      return Failure(EmptyMatrix);
    }
    var ncols := |data[0]|;
    for i := 1 to |data|
      invariant forall k :: 0 <= k < i ==> |data[k]| == ncols
    {
      if |data[i]| != ncols {
        return Failure(RaggedRows);
      }
    }
    CreateReduced(data, p);
    res := Success(Create(data, p));
  }

  // ----- product

  function Entry(a: Rows, b: Rows, k: nat, i: int, j: int): int {
    Sum(t => At(a, i, t) * At(b, t, j), k)
  }

  function MulRows(a: Rows, b: Rows, p: int): (m: Rows)
    requires p > 0
    ensures IsMatrix(m, |a|, NumCols(b), p)
  {
    Tabulate(|a|, NumCols(b), (i, j) => Entry(a, b, NumCols(a), i, j) % p)
  }

  lemma DotStep(f: int -> int, k: nat, c: int, x: int, p: int)
    requires p > 0 && c == Sum(f, k) % p && x == f(k)
    ensures (c + x % p) % p == Sum(f, k + 1) % p
  {
    ModMod(Sum(f, k), p);
    ModMod(x, p);
    CongAdd(c, Sum(f, k), x % p, x, p);
  }

  method DotProduct(a: Rows, b: Rows, i: nat, j: nat, p: int) returns (c: int)
    requires p > 0 && Valid(a, p) && Valid(b, p) && NumCols(a) == |b|
    requires i < |a| && j < NumCols(b)
    ensures c == Entry(a, b, NumCols(a), i, j) % p
  {
    ghost var f := (t: int) => At(a, i, t) * At(b, t, j);
    SmallMod(0, p);
    c := 0;
    for k := 0 to |b|
      invariant c == Sum(f, k) % p
    {
      var product := a[i][k] * b[k][j];
      DotStep(f, k, c, product, p);
      c := (c + product % p) % p;
    }
    SumEqual(f, t => At(a, i, t) * At(b, t, j), |b|);
  }

  method MatMul(a: Rows, b: Rows, p: int) returns (res: Result<Rows>)
    requires p > 0 && Valid(a, p) && Valid(b, p)
    ensures res == if NumCols(a) != |b| then Failure(ShapeMismatch) else Success(MulRows(a, b, p))
    ensures res.Success? ==> HasShape(res.value, |a|, NumCols(b))
    ensures res.Success? ==> forall i, j :: 0 <= i < |a| && 0 <= j < NumCols(b) ==>
              res.value[i][j] == Sum(t => At(a, i, t) * At(b, t, j), |b|) % p
  {
    if |a[0]| != |b| {
      return Failure(ShapeMismatch);
    }
    ghost var m := MulRows(a, b, p);
    var data: Rows := [];
    for i := 0 to |a|
      invariant data == m[..i]
    {
      var row: seq<int> := [];
      for j := 0 to |b[0]|
        invariant row == m[i][..j]
      {
        var c := DotProduct(a, b, i, j, p);
        row := row + [c];
      }
      assert row == m[i] && m[..i + 1] == m[..i] + [m[i]];
      data := data + [row];
    }
    assert data == m;
    CreateReduced(m, p);
    res := NewMatrix(data, p);
  }

  // ----- elementwise operations

  function AddRows(a: Rows, b: Rows, p: int): (m: Rows)
    requires p > 0
    ensures IsMatrix(m, |a|, NumCols(a), p)
  {
    Tabulate(|a|, NumCols(a), (i, j) => (At(a, i, j) + At(b, i, j)) % p)
  }

  function SubRows(a: Rows, b: Rows, p: int): (m: Rows)
    requires p > 0
    ensures IsMatrix(m, |a|, NumCols(a), p)
  {
    Tabulate(|a|, NumCols(a), (i, j) => (At(a, i, j) - At(b, i, j)) % p)
  }

  function PowRows(a: Rows, e: nat, p: int): (m: Rows)
    requires p > 0
    ensures IsMatrix(m, |a|, NumCols(a), p)
  {
    Tabulate(|a|, NumCols(a), (i, j) => Pow(At(a, i, j), e) % p)
  }

  // The bit width used for a field of order p: two bits above every field element.
  predicate WideEnough(p: int, n: nat) {
    n >= 2 && p - 1 < Exp2(n - 2)
  }

  // Field addition and subtraction in constant time.
  function CtFieldAdd(x: int, y: int, p: int, n: nat): int
    requires n >= 1
  {
    var sum := CtAdd(x, y, n);
    CtSelect(CtLt(sum, p, n), sum, CtSub(sum, p, n), n)
  }

  function CtFieldSub(x: int, y: int, p: int, n: nat): int
    requires n >= 1
  {
    var diff := CtSub(x, y, n);
    CtSelect(CtSignBit(diff, n), CtAdd(diff, p, n), diff, n)
  }

  lemma CtFieldAddExact(x: int, y: int, p: int, n: nat)
    requires WideEnough(p, n) && 0 <= x < p && 0 <= y < p
    ensures CtFieldAdd(x, y, p, n) == (x + y) % p
  {
    CtFieldAddValue(x, y, p, n);
    ReduceOnce(x + y, CtFieldAdd(x, y, p, n), x + y >= p, p);
  }

  lemma CtFieldAddValue(x: int, y: int, p: int, n: nat)
    requires WideEnough(p, n) && 0 <= x < p && 0 <= y < p
    ensures CtFieldAdd(x, y, p, n) == if x + y < p then x + y else x + y - p
  {
    hide CtAdd, CtSub, CtLt, CtSelect;
    var s := x + y;
    FieldSizes(p, n);
    CtExact(x, y, n);
    CtExact(s, p, n);
    CtSelectExact(s < p, s, s - p, n);
  }

  lemma CtFieldSubExact(x: int, y: int, p: int, n: nat)
    requires WideEnough(p, n) && 0 <= x < p && 0 <= y < p
    ensures CtFieldSub(x, y, p, n) == (x - y) % p
  {
    CtFieldSubValue(x, y, p, n);
    DivModUnique(x - y, if x < y then -1 else 0, CtFieldSub(x, y, p, n), p);
  }

  lemma CtFieldSubValue(x: int, y: int, p: int, n: nat)
    requires WideEnough(p, n) && 0 <= x < p && 0 <= y < p
    ensures CtFieldSub(x, y, p, n) == if x < y then x - y + p else x - y
  {
    hide CtAdd, CtSub, CtSignBit, CtSelect;
    var d := x - y;
    FieldSizes(p, n);
    CtExact(x, y, n);
    CtExact(d, p, n);
    SignBitIsNegative(d, n);
    CtSelectExact(d < 0, d + p, d, n);
  }

  // On arbitrary integers it is the wrapped difference, with the modulus added once when that is negative.
  lemma CtFieldSubAny(x: int, y: int, p: int, n: nat)
    requires WideEnough(p, n) && p > 0
    ensures var d := Wrap(x - y, n); CtFieldSub(x, y, p, n) == if d < 0 then d + p else d
  {
    hide CtAdd, CtSub, CtSignBit, CtSelect, Wrap;
    var d := CtSub(x, y, n);
    FieldSizes(p, n);
    CtSubIsWrap(x, y, n);
    WrapUnique(x - y, d, n);
    SignBitOfWrapped(d, n);
    CtExact(d, p, n);
    CtSelectExact(d < 0, if d < 0 then d + p else CtAdd(d, p, n), d, n);
  }

  lemma SignBitOfWrapped(d: int, n: nat)
    requires n >= 1 && Fits(d, n)
    ensures CtSignBit(d, n) <==> d < 0
  {
    hide CtSignBit;
    assert Exp2(n) == 2 * Exp2(n - 1);
    SignBitIsNegative(d, n);
  }

  lemma FieldSizes(p: int, n: nat)
    requires WideEnough(p, n)
    ensures 2 * p <= Exp2(n - 1) && 4 * p <= Exp2(n)
  {
    assert Exp2(n) == 2 * Exp2(n - 1) && Exp2(n - 1) == 2 * Exp2(n - 2);
  }

  // On field elements the constant-time flag makes no difference.
  method AddElement(x: int, y: int, ct: bool, p: int, binSize: nat) returns (r: int)
    requires WideEnough(p, binSize) && 0 <= x < p && 0 <= y < p
    ensures r == (x + y) % p
  {
    if ct {
      CtFieldAddExact(x, y, p, binSize);
      r := CtFieldAdd(x, y, p, binSize);
    } else {
      r := (x + y) % p;
    }
  }

  method SubElement(x: int, y: int, ct: bool, p: int, binSize: nat) returns (r: int)
    requires WideEnough(p, binSize) && 0 <= x < p && 0 <= y < p
    ensures r == (x - y) % p
  {
    if ct {
      CtFieldSubExact(x, y, p, binSize);
      r := CtFieldSub(x, y, p, binSize);
    } else {
      r := (x - y) % p;
    }
  }

  method Add(a: Rows, b: Rows, ct: bool, p: int, binSize: nat) returns (res: Result<Rows>)
    requires p > 0 && Valid(a, p) && Valid(b, p) && WideEnough(p, binSize)
    ensures res == if |a| != |b| || NumCols(a) != NumCols(b) then Failure(ShapeMismatch) else Success(AddRows(a, b, p))
    ensures res.Success? ==> HasShape(res.value, |a|, NumCols(a))
    ensures res.Success? ==> forall i, j :: 0 <= i < |a| && 0 <= j < NumCols(a) ==> res.value[i][j] == (a[i][j] + b[i][j]) % p
  {
    if |a| != |b| || |a[0]| != |b[0]| {
      return Failure(ShapeMismatch);
    }
    ghost var m := AddRows(a, b, p);
    var data: Rows := [];
    for i := 0 to |a|
      invariant data == m[..i]
    {
      var row: seq<int> := [];
      for j := 0 to |a[0]|
        invariant row == m[i][..j]
      {
        assert At(a, i, j) == a[i][j] && At(b, i, j) == b[i][j];
        var sum := AddElement(a[i][j], b[i][j], ct, p, binSize);
        row := row + [sum];
      }
      assert row == m[i] && m[..i + 1] == m[..i] + [m[i]];
      data := data + [row];
    }
    assert data == m;
    CreateReduced(m, p);
    res := NewMatrix(data, p);
  }

  method Sub(a: Rows, b: Rows, ct: bool, p: int, binSize: nat) returns (res: Result<Rows>)
    requires p > 0 && Valid(a, p) && Valid(b, p) && WideEnough(p, binSize)
    ensures res == if |a| != |b| || NumCols(a) != NumCols(b) then Failure(ShapeMismatch) else Success(SubRows(a, b, p))
    ensures res.Success? ==> HasShape(res.value, |a|, NumCols(a))
    ensures res.Success? ==> forall i, j :: 0 <= i < |a| && 0 <= j < NumCols(a) ==> res.value[i][j] == (a[i][j] - b[i][j]) % p
  {
    if |a| != |b| || |a[0]| != |b[0]| {
      return Failure(ShapeMismatch);
    }
    ghost var m := SubRows(a, b, p);
    var data: Rows := [];
    for i := 0 to |a|
      invariant data == m[..i]
    {
      var row: seq<int> := [];
      for j := 0 to |a[0]|
        invariant row == m[i][..j]
      {
        assert At(a, i, j) == a[i][j] && At(b, i, j) == b[i][j];
        var diff := SubElement(a[i][j], b[i][j], ct, p, binSize);
        row := row + [diff];
      }
      assert row == m[i] && m[..i + 1] == m[..i] + [m[i]];
      data := data + [row];
    }
    assert data == m;
    CreateReduced(m, p);
    res := NewMatrix(data, p);
  }

  method PowElements(a: Rows, e: nat, p: int) returns (res: Rows)
    requires p > 0 && Valid(a, p)
    ensures res == PowRows(a, e, p)
    ensures HasShape(res, |a|, NumCols(a))
    ensures forall i, j :: 0 <= i < |a| && 0 <= j < NumCols(a) ==> res[i][j] == Pow(a[i][j], e) % p
  {
    ghost var m := PowRows(a, e, p);
    var data: Rows := [];
    for i := 0 to |a|
      invariant data == m[..i]
    {
      var row: seq<int> := [];
      for j := 0 to |a[0]|
        invariant row == m[i][..j]
      {
        assert At(a, i, j) == a[i][j];
        row := row + [Pow(a[i][j], e) % p];
      }
      assert row == m[i] && m[..i + 1] == m[..i] + [m[i]];
      data := data + [row];
    }
    assert data == m;
    CreateReduced(m, p);
    res := Create(data, p);
  }

  // ----- algebra

  function Identity(n: nat): (m: Rows)
    ensures HasShape(m, n, n)
  {
    Tabulate(n, n, (i, j) => if i == j then 1 else 0)
  }

  lemma MulIdentity(s: Rows, n: nat, c: nat, p: int)
    requires p >= 2 && n >= 1 && IsMatrix(s, n, c, p)
    ensures MulRows(Identity(n), s, p) == s
  {
    var one := Identity(n);
    forall i, j | 0 <= i < n && 0 <= j < c
      ensures At(MulRows(one, s, p), i, j) == At(s, i, j)
    {
      var f := (t: int) => At(one, i, t) * At(s, t, j);
      forall t | 0 <= t < n && t != i
        ensures f(t) == 0
      {
        assert At(one, i, t) == 0;
      }
      SumSingle(f, n, i);
      SumEqual(f, t => At(one, i, t) * At(s, t, j), n);
      SmallMod(s[i][j], p);
    }
    MatrixEqual(MulRows(one, s, p), s, n, c);
  }

  // Matrix multiplication modulo p is associative.
  lemma MulAssociative(a: Rows, b: Rows, s: Rows, p: int)
    requires p > 0 && a != [] && b != [] && s != []
    requires HasShape(a, |a|, |b|) && HasShape(b, |b|, |s|)
    ensures MulRows(MulRows(a, b, p), s, p) == MulRows(a, MulRows(b, s, p), p)
  {
    var left, right := MulRows(MulRows(a, b, p), s, p), MulRows(a, MulRows(b, s, p), p);
    forall i, j | 0 <= i < |a| && 0 <= j < NumCols(s)
      ensures At(left, i, j) == At(right, i, j)
    {
      AssociativeEntry(a, b, s, p, i, j);
    }
    MatrixEqual(left, right, |a|, NumCols(s));
  }

  lemma AssociativeEntry(a: Rows, b: Rows, s: Rows, p: int, i: nat, j: nat)
    requires p > 0 && b != [] && s != []
    requires HasShape(a, |a|, |b|) && HasShape(b, |b|, |s|)
    requires i < |a| && j < NumCols(s)
    ensures Entry(MulRows(a, b, p), s, |s|, i, j) % p == Entry(a, MulRows(b, s, p), |b|, i, j) % p
  {
    var ab, bs := MulRows(a, b, p), MulRows(b, s, p);
    var f := (t: int, u: int) => At(a, i, u) * (At(b, u, t) * At(s, t, j));
    var l := (t: int) => At(ab, i, t) * At(s, t, j);
    var r := (u: int) => At(a, i, u) * At(bs, u, j);
    forall t | 0 <= t < |s|
      ensures l(t) % p == RowSum(f, t, |b|) % p
    {
      AssociativeLeft(a, b, At(s, t, j), |b|, i, t, p);
      SumEqual(u => At(a, i, u) * (At(b, u, t) * At(s, t, j)), u => f(t, u), |b|);
    }
    forall u | 0 <= u < |b|
      ensures r(u) % p == ColumnSum(f, u, |s|) % p
    {
      AssociativeRight(At(a, i, u), b, s, |s|, u, j, p);
      SumEqual(t => At(a, i, u) * (At(b, u, t) * At(s, t, j)), t => f(t, u), |s|);
    }
    SumCong(l, t => RowSum(f, t, |b|), |s|, p);
    SumCong(r, u => ColumnSum(f, u, |s|), |b|, p);
    SumExchange(f, |s|, |b|);
    SumEqual(l, t => At(ab, i, t) * At(s, t, j), |s|);
    SumEqual(r, t => At(a, i, t) * At(bs, t, j), |b|);
  }

  lemma AssociativeLeft(a: Rows, b: Rows, x: int, k: nat, i: int, t: int, p: int)
    requires p > 0
    ensures (Entry(a, b, k, i, t) % p * x) % p == Sum(u => At(a, i, u) * (At(b, u, t) * x), k) % p
  {
    var g := (u: int) => At(a, i, u) * At(b, u, t);
    SumEqual(g, u => At(a, i, u) * At(b, u, t), k);
    ModNoop(Sum(g, k), x, p);
    SumScale(x, g, k);
    forall u ensures x * g(u) == At(a, i, u) * (At(b, u, t) * x) {
      MulRotate(x, At(a, i, u), At(b, u, t));
    }
    SumEqual(u => x * g(u), u => At(a, i, u) * (At(b, u, t) * x), k);
    MulCommutes(x, Sum(g, k));
  }

  lemma AssociativeRight(x: int, b: Rows, s: Rows, k: nat, u: int, j: int, p: int)
    requires p > 0
    ensures (x * (Entry(b, s, k, u, j) % p)) % p == Sum(t => x * (At(b, u, t) * At(s, t, j)), k) % p
  {
    var g := (t: int) => At(b, u, t) * At(s, t, j);
    SumEqual(g, t => At(b, u, t) * At(s, t, j), k);
    ModNoop(x, Sum(g, k), p);
    SumScale(x, g, k);
    SumEqual(t => x * g(t), t => x * (At(b, u, t) * At(s, t, j)), k);
  }

  lemma AddSubCancel(s: Rows, k: Rows, r: nat, c: nat, p: int)
    requires p > 0 && r >= 1 && IsMatrix(s, r, c, p) && HasShape(k, r, c)
    ensures SubRows(AddRows(s, k, p), k, p) == s
    ensures AddRows(SubRows(s, k, p), k, p) == s
  {
    forall i, j | 0 <= i < r && 0 <= j < c
      ensures At(SubRows(AddRows(s, k, p), k, p), i, j) == At(s, i, j)
      ensures At(AddRows(SubRows(s, k, p), k, p), i, j) == At(s, i, j)
    {
      SmallMod(s[i][j], p);
      ModNoop(s[i][j] + k[i][j], k[i][j], p);
      ModNoop(s[i][j] - k[i][j], k[i][j], p);
    }
    MatrixEqual(SubRows(AddRows(s, k, p), k, p), s, r, c);
    MatrixEqual(AddRows(SubRows(s, k, p), k, p), s, r, c);
  }

  // Raising to e and then to f undoes itself when e * f == 1 modulo p - 1.
  lemma PowInverse(s: Rows, e: nat, f: nat, r: nat, c: nat, p: int)
    requires IsPrime(p) && r >= 1 && IsMatrix(s, r, c, p)
    requires e * f >= 1 && (e * f - 1) % (p - 1) == 0
    ensures PowRows(PowRows(s, e, p), f, p) == s
  {
    forall i, j | 0 <= i < r && 0 <= j < c
      ensures At(PowRows(PowRows(s, e, p), f, p), i, j) == At(s, i, j)
    {
      var x := s[i][j];
      ModMod(Pow(x, e), p);
      PowCong(Pow(x, e) % p, Pow(x, e), f, p);
      PowMul(x, e, f);
      PowerIsIdentity(x, e * f, p);
      SmallMod(x, p);
    }
    MatrixEqual(PowRows(PowRows(s, e, p), f, p), s, r, c);
  }
}
