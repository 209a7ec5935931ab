/**
 Column-major matrices and the products built over them. Entries and the operations on them are
 parameters, as in the templates: the same loops serve plaintexts and ciphertexts.
 */
module Matrices {
  import opened Arith
  import opened Algebra

  datatype Error = DimensionMismatch | EmptyMatrix

  function Pos(rows: nat, row: nat, col: nat): nat {
    row + col * rows
  }

  /** Cells and positions of the data vector correspond one to one. */
  lemma PosIsBijective(rows: nat, cols: nat, row: nat, col: nat)
    requires row < rows && col < cols
    ensures Pos(rows, row, col) < rows * cols
    ensures Pos(rows, row, col) % rows == row && Pos(rows, row, col) / rows == col
  {
    DivModUnique(Pos(rows, row, col), rows, col, row);
    assert rows * cols == rows * col + rows + rows * (cols - col - 1);
  }

  lemma EveryPosIsACell(rows: nat, cols: nat, p: nat)
    requires p < rows * cols
    ensures rows > 0 && p % rows < rows && p / rows < cols
    ensures Pos(rows, p % rows, p / rows) == p
  {
    assert rows > 0;
    assert p == (p / rows) * rows + p % rows;
    var excess := p / rows - cols;
    assert excess * rows == (p / rows) * rows - rows * cols;
    assert excess >= 0 ==> excess * rows >= 0;
  }

  /** Past the end of one column is the start of the next. */
  lemma NextColumn(rows: nat, col: nat)
    ensures Pos(rows, rows, col) == Pos(rows, 0, col + 1)
  {
  }

  datatype MatrixValue<+T> = Mat(rows: nat, cols: nat, data: seq<T>) {
    ghost predicate Valid() {
      |data| == rows * cols
    }

    function At(row: nat, col: nat): T
      requires Valid() && row < rows && col < cols
    {
      PosIsBijective(rows, cols, row, col);
      data[Pos(rows, row, col)]
    }

    function Column(col: nat): (c: seq<T>)
      requires Valid() && col < cols
      ensures |c| == rows && forall i | 0 <= i < rows :: c[i] == At(i, col)
    {
      seq(rows, i requires 0 <= i < rows => At(i, col))
    }

    function RowAt(row: nat): (r: seq<T>)
      requires Valid() && row < rows
      ensures |r| == cols && forall j | 0 <= j < cols :: r[j] == At(row, j)
    {
      seq(cols, j requires 0 <= j < cols => At(row, j))
    }
  }

  /** Two matrices of one shape that agree on every cell are equal. */
  lemma SameCells<T>(a: MatrixValue<T>, b: MatrixValue<T>)
    requires a.Valid() && b.Valid() && a.rows == b.rows && a.cols == b.cols
    requires forall i, j | 0 <= i < a.rows && 0 <= j < a.cols :: a.At(i, j) == b.At(i, j)
    ensures a == b
  {
    forall p | 0 <= p < |a.data| ensures a.data[p] == b.data[p] {
      EveryPosIsACell(a.rows, a.cols, p);
      assert a.At(p % a.rows, p / a.rows) == b.At(p % a.rows, p / a.rows);
    }
  }

  class Matrix<T> {
    var rows: nat
    var cols: nat
    var data: seq<T>

    ghost predicate Valid()
      reads this
    {
      Value().Valid()
    }

    function Value(): MatrixValue<T>
      reads this
    {
      Mat(rows, cols, data)
    }

    constructor (rows: nat, cols: nat, fill: T)
      ensures Valid() && this.rows == rows && this.cols == cols
      ensures data == seq(rows * cols, _ => fill)
    {
      this.rows, this.cols := rows, cols;
      this.data := seq(rows * cols, _ => fill);
    }

    /** Keeps the data vector's common prefix: cells move unless the row count stays. */
    method Resize(newRows: nat, newCols: nat, fill: T)
      modifies this
      ensures Valid() && rows == newRows && cols == newCols
      ensures forall p | 0 <= p < |data| :: data[p] == if p < |old(data)| then old(data)[p] else fill
    {
      rows, cols := newRows, newCols;
      var size := newRows * newCols;
      if size <= |data| { data := data[..size]; } else { data := data + seq(size - |data|, _ => fill); }
    }

    method Set(row: nat, col: nat, x: T)
      requires Valid() && row < rows && col < cols
      modifies this
      ensures Valid() && rows == old(rows) && cols == old(cols)
      ensures forall i, j | 0 <= i < rows && 0 <= j < cols ::
        Value().At(i, j) == if i == row && j == col then x else old(Value()).At(i, j)
    {
      PosIsBijective(rows, cols, row, col);
      var p := Pos(rows, row, col);
      data := data[p := x];
      forall i, j | 0 <= i < rows && 0 <= j < cols
        ensures Value().At(i, j) == if i == row && j == col then x else old(Value()).At(i, j)
      {
        PosIsBijective(rows, cols, i, j);
      }
    }
  }

  // ----- products

  function Terms<U, V, C>(mul: (U, V) -> C, left: seq<U>, right: seq<V>): (t: seq<C>)
    requires |left| == |right|
    ensures |t| == |left| && forall k | 0 <= k < |t| :: t[k] == mul(left[k], right[k])
  {
    seq(|left|, k requires 0 <= k < |left| => mul(left[k], right[k]))
  }

  /** The sum of the products of matching entries. */
  function Dot<U, V, C>(G: Group<C>, mul: (U, V) -> C, left: seq<U>, right: seq<V>): C
    requires |left| == |right|
  {
    Sum(G, Terms(mul, left, right))
  }

  lemma DotGrows<U, V, C>(G: Group<C>, mul: (U, V) -> C, left: seq<U>, right: seq<V>, k: nat)
    requires |left| == |right| && k < |left|
    ensures Dot(G, mul, left[..k + 1], right[..k + 1]) ==
        G.add(mul(left[k], right[k]), Dot(G, mul, left[..k], right[..k]))
  {
    assert Terms(mul, left[..k + 1], right[..k + 1])[..k] == Terms(mul, left[..k], right[..k]);
  }

  function Cell<U, V, C>(G: Group<C>, mul: (U, V) -> C, left: MatrixValue<U>, right: MatrixValue<V>, i: nat, j: nat): C
    requires left.Valid() && right.Valid() && left.cols == right.rows && i < left.rows && j < right.cols
  {
    Dot(G, mul, left.RowAt(i), right.Column(j))
  }

  ghost predicate IsProduct<U, V, C>(
    G: Group<C>, mul: (U, V) -> C, left: MatrixValue<U>, right: MatrixValue<V>, m: MatrixValue<C>)
    requires left.Valid() && right.Valid() && left.cols == right.rows
  {
    && m.Valid() && m.rows == left.rows && m.cols == right.cols
    && forall i, j | 0 <= i < m.rows && 0 <= j < m.cols :: m.At(i, j) == Cell(G, mul, left, right, i, j)
  }

  method MultRow<U, V, C>(G: Group<C>, mul: (U, V) -> C, left: MatrixValue<U>, right: MatrixValue<V>, i: nat, j: nat)
    returns (r: C)
    requires left.Valid() && right.Valid() && left.cols == right.rows && i < left.rows && j < right.cols
    ensures r == Cell(G, mul, left, right, i, j)
  {
    r := G.zero;
    var a, b := left.RowAt(i), right.Column(j);
    for k := 0 to left.cols
      invariant r == Dot(G, mul, a[..k], b[..k])
    {
      var tmp := mul(left.At(i, k), right.At(k, j));
      r := G.add(tmp, r);
      DotGrows(G, mul, a, b, k);
    }
    assert a[..left.cols] == a && b[..left.cols] == b;
  }

  /** The product, its cells computed in turn. */
  method MatMult<U, V, C>(G: Group<C>, mul: (U, V) -> C, left: MatrixValue<U>, right: MatrixValue<V>, result: Matrix<C>)
    returns (res: Result<(), Error>)
    requires left.Valid() && right.Valid() && result.Valid()
    requires result.rows == left.rows && result.cols == right.cols
    modifies result
    ensures res == Failure(DimensionMismatch) <==> left.cols != right.rows
    ensures res == Failure(EmptyMatrix) <==> left.cols == right.rows && (|left.data| == 0 || |right.data| == 0)
    ensures res.Success? <==> left.cols == right.rows && |left.data| > 0 && |right.data| > 0
    ensures result.Valid()
    ensures res.Success? ==> IsProduct(G, mul, left, right, result.Value())
    ensures res.Failure? ==> result.Value() == old(result.Value())
  {
    if left.cols != right.rows { return Failure(DimensionMismatch); }
    if |left.data| == 0 || |right.data| == 0 { return Failure(EmptyMatrix); }
    for i := 0 to left.rows
      invariant result.Valid() && result.rows == left.rows && result.cols == right.cols
      invariant forall a, b | 0 <= a < i && 0 <= b < right.cols ::
        result.Value().At(a, b) == Cell(G, mul, left, right, a, b)
    {
      for j := 0 to right.cols
        invariant result.Valid() && result.rows == left.rows && result.cols == right.cols
        invariant forall a, b | 0 <= a <= i && 0 <= b < right.cols && (a < i || b < j) ::
          result.Value().At(a, b) == Cell(G, mul, left, right, a, b)
      {
        var r := MultRow(G, mul, left, right, i, j);
        result.Set(i, j, r);
      }
    }
    res := Success(());
  }

  /** right_multiply: the flat, sequential product with a vector gives the same cells. */
  method RightMultiply<U, V, C(!new)>(
    G: Group<C>, mul: (U, V) -> C, rows: nat, cols: nat, matrix: seq<U>, rightVec: seq<V>, before: seq<C>)
    returns (result: seq<C>)
    requires Lawful(G) && cols > 0 && |matrix| == rows * cols && |rightVec| == cols && |before| >= rows
    ensures |result| == |before| && result[rows..] == before[rows..]
    ensures forall j | 0 <= j < rows :: result[j] == Cell(G, mul, Mat(rows, cols, matrix), Mat(cols, 1, rightVec), j, 0)
  {
    result := before;
    ghost var m, v := Mat(rows, cols, matrix), Mat(cols, 1, rightVec);
    for j := 0 to rows
      invariant |result| == |before| && result[rows..] == before[rows..]
      invariant forall a | 0 <= a < j :: result[a] == Cell(G, mul, m, v, a, 0)
    {
      ghost var a, b := m.RowAt(j), v.Column(0);
      PosIsBijective(rows, cols, j, 0);
      var acc := mul(matrix[j], rightVec[0]);
      DotGrows(G, mul, a, b, 0);
      assert Terms(mul, a[..0], b[..0]) == [];
      Laws(G, acc, acc, acc);
      for k := 1 to cols
        invariant acc == Dot(G, mul, a[..k], b[..k])
      {
        PosIsBijective(rows, cols, j, k);
        var tmp := mul(matrix[j + k * rows], rightVec[k]);
        DotGrows(G, mul, a, b, k);
        Laws(G, acc, tmp, tmp);
        acc := G.add(acc, tmp);
      }
      assert a[..cols] == a && b[..cols] == b;
      result := result[j := acc];
    }
  }

  // ----- weighted sums of rows and columns

  method WeightedSum<C>(G: Group<C>, scale: (nat, C) -> C, vec: seq<nat>, entries: seq<C>) returns (rslt: C)
    requires |vec| == |entries|
    ensures rslt == Dot(G, scale, vec, entries)
  {
    rslt := G.zero;
    for j := 0 to |vec|
      invariant rslt == Dot(G, scale, vec[..j], entries[..j])
    {
      var tmp := scale(vec[j], entries[j]);
      rslt := G.add(tmp, rslt);
      DotGrows(G, scale, vec, entries, j);
    }
    assert vec[..|vec|] == vec && entries[..|vec|] == entries;
  }

  /** scalar_dot_product: entry k of the result weighs column k. */
  method WeighColumns<C>(G: Group<C>, scale: (nat, C) -> C, mat: MatrixValue<C>, vec: seq<nat>)
    returns (result: MatrixValue<C>)
    requires mat.Valid() && |vec| == mat.rows
    ensures result.Valid() && result.rows == mat.cols && result.cols == 1
    ensures forall k | 0 <= k < mat.cols :: result.data[k] == Dot(G, scale, vec, mat.Column(k))
  {
    var data := seq(mat.cols, _ => G.zero);
    for k := 0 to mat.cols
      invariant |data| == mat.cols
      invariant forall a | 0 <= a < k :: data[a] == Dot(G, scale, vec, mat.Column(a))
    {
      var rslt := WeightedSum(G, scale, vec, mat.Column(k));
      data := data[k := rslt];
    }
    result := Mat(mat.cols, 1, data);
  }

  /** async_scalar_dot_product of a matrix and a vector: entry k of the result weighs row k. */
  method WeighRows<C>(G: Group<C>, scale: (nat, C) -> C, mat: MatrixValue<C>, vec: seq<nat>)
    returns (result: MatrixValue<C>)
    requires mat.Valid() && |vec| == mat.cols
    ensures result.Valid() && result.rows == mat.rows && result.cols == 1
    ensures forall k | 0 <= k < mat.rows :: result.data[k] == Dot(G, scale, vec, mat.RowAt(k))
  {
    var data := seq(mat.rows, _ => G.zero);
    for k := 0 to mat.rows
      invariant |data| == mat.rows
      invariant forall a | 0 <= a < k :: data[a] == Dot(G, scale, vec, mat.RowAt(a))
    {
      var rslt := WeightedSum(G, scale, vec, mat.RowAt(k));
      data := data[k := rslt];
    }
    result := Mat(mat.rows, 1, data);
  }

  // ----- products with a 0/1 vector

  /** The coefficient 0 drops an entry, any other keeps it. */
  function Keep<C>(G: Group<C>): (nat, C) -> C {
    (s: nat, x: C) => if s == 0 then G.zero else x
  }

  /** left_multiply adds up the rows the vector selects, in place in the result. */
  method LeftMultiply<C(!new)>(G: Group<C>, leftVec: seq<nat>, mat: MatrixValue<C>, result: Matrix<C>)
    requires Lawful(G) && mat.Valid() && |leftVec| == mat.rows
    modifies result
    ensures result.Valid() && result.rows == 1 && result.cols == mat.cols
    ensures forall k | 0 <= k < mat.cols :: result.Value().At(0, k) == Dot(G, Keep(G), leftVec, mat.Column(k))
  {
    result.Resize(1, mat.cols, G.zero);
    for k := 0 to mat.cols
      invariant result.Valid() && result.rows == 1 && result.cols == mat.cols
      invariant forall a | 0 <= a < k :: result.Value().At(0, a) == Dot(G, Keep(G), leftVec, mat.Column(a))
    {
      result.Set(0, k, G.zero);
      ghost var c := mat.Column(k);
      for j := 0 to mat.rows
        invariant result.Valid() && result.rows == 1 && result.cols == mat.cols
        invariant forall a | 0 <= a < k :: result.Value().At(0, a) == Dot(G, Keep(G), leftVec, mat.Column(a))
        invariant result.Value().At(0, k) == Dot(G, Keep(G), leftVec[..j], c[..j])
      {
        DotGrows(G, Keep(G), leftVec, c, j);
        var sum := result.Value().At(0, k);
        Laws(G, G.zero, sum, sum);
        Laws(G, sum, sum, sum);
        if leftVec[j] == 0 {
          continue;
        }
        result.Set(0, k, G.add(mat.At(j, k), sum));
      }
      assert leftVec[..mat.rows] == leftVec && c[..mat.rows] == c;
    }
  }
}
