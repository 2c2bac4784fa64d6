/** The tuned matrix multiplication (transposed operand, unrolled loops) against the textbook one. */
module MatMul {
  import opened Powers

  /** A square matrix of the given size, row after row. */
  ghost predicate Square(m: seq<int>, size: nat) {
    |m| == size * size
  }

  /** Where row i, column j is stored. */
  function Cell(size: nat, i: nat, j: nat): (c: nat)
    requires i < size && j < size
    ensures c < size * size
  {
    CellBound(size, i, j);
    i * size + j
  }

  lemma CellBound(size: nat, i: nat, j: nat)
    requires i < size && j < size
    ensures 0 <= i * size + j < size * size
  {
    assert (i + 1) * size <= size * size;
  }

  lemma RowsApart(size: nat, i: nat, r: nat)
    requires i < r
    ensures i * size + size <= r * size
  {
    assert (i + 1) * size == i * size + size;
    MulMonotone(i + 1, r, size);
  }

  lemma CellUnique(size: nat, i: nat, j: nat, r: nat, c: nat)
    requires i < size && j < size && r < size && c < size
    ensures Cell(size, i, j) == Cell(size, r, c) <==> i == r && j == c
  {
    if i < r {
      RowsApart(size, i, r);
    } else if r < i {
      RowsApart(size, r, i);
    }
  }

  /** Row i of a times column j of b, up to k. */
  ghost function Product(a: seq<int>, b: seq<int>, size: nat, i: nat, j: nat, k: nat): int
    requires Square(a, size) && Square(b, size) && i < size && j < size && k <= size
  {
    if k == 0 then 0 else Product(a, b, size, i, j, k - 1) + a[Cell(size, i, k - 1)] * b[Cell(size, k - 1, j)]
  }

  ghost predicate IsProduct(r: seq<int>, a: seq<int>, b: seq<int>, size: nat)
    requires Square(a, size) && Square(b, size)
  {
    Square(r, size) && forall i: nat, j: nat | i < size && j < size :: r[Cell(size, i, j)] == Product(a, b, size, i, j, size)
  }

  ghost predicate IsTranspose(t: seq<int>, m: seq<int>, size: nat) {
    Square(m, size) && Square(t, size) && forall i: nat, j: nat | i < size && j < size :: t[Cell(size, i, j)] == m[Cell(size, j, i)]
  }

  /** Only one matrix is the product. */
  lemma ProductIsUnique(r: seq<int>, r': seq<int>, a: seq<int>, b: seq<int>, size: nat)
    requires Square(a, size) && Square(b, size) && IsProduct(r, a, b, size) && IsProduct(r', a, b, size)
    ensures r == r'
  {
    forall c: nat | c < size * size
      ensures r[c] == r'[c]
    {
      var i, j := RowAndColumn(size, c);
      assert r[Cell(size, i, j)] == r'[Cell(size, i, j)];
    }
  }

  /** The unit matrix is neutral on both sides. */
  lemma UnitIsNeutral(m: seq<int>, unit: seq<int>, size: nat)
    requires Square(m, size) && Square(unit, size)
    requires forall i: nat, j: nat | i < size && j < size :: unit[Cell(size, i, j)] == if i == j then 1 else 0
    ensures IsProduct(m, unit, m, size) && IsProduct(m, m, unit, size)
  {
    hide Cell;
    forall i: nat, j: nat | i < size && j < size
      ensures m[Cell(size, i, j)] == Product(unit, m, size, i, j, size) == Product(m, unit, size, i, j, size)
    {
      UnitRow(m, unit, size, i, j, size);
    }
  }

  lemma {:induction false} UnitRow(m: seq<int>, unit: seq<int>, size: nat, i: nat, j: nat, k: nat)
    requires Square(m, size) && Square(unit, size) && i < size && j < size && k <= size
    requires forall r: nat, c: nat | r < size && c < size :: unit[Cell(size, r, c)] == if r == c then 1 else 0
    ensures Product(unit, m, size, i, j, k) == if i < k then m[Cell(size, i, j)] else 0
    ensures Product(m, unit, size, i, j, k) == if j < k then m[Cell(size, i, j)] else 0
  {
    hide Cell;
    if k > 0 {
      UnitRow(m, unit, size, i, j, k - 1);
    }
  }

  lemma RowAndColumn(size: nat, c: nat) returns (i: nat, j: nat)
    requires c < size * size
    ensures i < size && j < size && c == Cell(size, i, j)
  {
    i, j := 0, c;
    while j >= size
      invariant i < size && c == i * size + j
    {
      assert (i + 1) * size == i * size + size;
      if i + 1 == size {
        assert false;
      }
      i, j := i + 1, j - size;
    }
  }

  // ---- The tuned version -----------------------------------------------------------------------

  /** Below row i, and in row i left of column j, the matrix has been mirrored. */
  ghost predicate Mirrored(b: seq<int>, m: seq<int>, size: nat, i: nat, j: nat) {
    && Square(m, size) && Square(b, size)
    && forall r: nat, c: nat | r < size && c < size ::
        b[Cell(size, r, c)] == if Done(r, c, i, j) then m[Cell(size, c, r)] else m[Cell(size, r, c)]
  }

  ghost predicate Done(r: nat, c: nat, i: nat, j: nat) {
    var least, most := if r < c then r else c, if r < c then c else r;
    least < i || (least == i && most < j)
  }

  lemma MirrorStep(b: seq<int>, b': seq<int>, m: seq<int>, size: nat, i: nat, j: nat)
    requires Mirrored(b, m, size, i, j) && i < j < size
    requires b' == b[Cell(size, i, j) := b[Cell(size, j, i)]][Cell(size, j, i) := b[Cell(size, i, j)]]
    ensures Mirrored(b', m, size, i, j + 1)
  {
    hide Cell;
    forall r: nat, c: nat | r < size && c < size
      ensures b'[Cell(size, r, c)] == if Done(r, c, i, j + 1) then m[Cell(size, c, r)] else m[Cell(size, r, c)]
    {
      CellUnique(size, i, j, r, c);
      CellUnique(size, j, i, r, c);
      CellUnique(size, i, j, j, i);
    }
  }

  lemma MirrorStart(m: seq<int>, size: nat)
    requires Square(m, size)
    ensures Mirrored(m, m, size, 0, 0)
  {
  }

  method Transpose(size: nat, B: array<int>)
    requires Square(B[..], size)
    modifies B
    ensures IsTranspose(B[..], old(B[..]), size)
  {
    hide Mirrored, Square;
    ghost var m := B[..];
    MirrorStart(m, size);
    var i := 0;
    while i < size
      invariant i <= size && Mirrored(B[..], m, size, i, i)
    {
      var row_a := i * size;
      var row_b := (i + 1) * size;
      DiagonalStays(B[..], m, size, i);
      var j := i + 1;
      while j < size
        invariant i < j <= size && row_b == j * size && Mirrored(B[..], m, size, i, j)
      {
        MirrorCells(B[..], m, size, i, j);
        ghost var b := B[..];
        var tmp := B[row_a + j];
        B[row_a + j] := B[row_b + i];
        B[row_b + i] := tmp;
        MirrorStep(b, B[..], m, size, i, j);
        NextRow(j, size);
        row_b := row_b + size;
        j := j + 1;
      }
      RowMirrored(B[..], m, size, i);
      i := i + 1;
    }
    AllMirrored(B[..], m, size);
  }

  lemma NextRow(j: nat, size: nat)
    ensures (j + 1) * size == j * size + size
  {
  }

  lemma MirrorCells(b: seq<int>, m: seq<int>, size: nat, i: nat, j: nat)
    requires Mirrored(b, m, size, i, j) && i < j < size
    ensures Cell(size, i, j) == i * size + j < |b| && Cell(size, j, i) == j * size + i < |b|
  {
  }

  lemma DiagonalStays(b: seq<int>, m: seq<int>, size: nat, i: nat)
    requires Mirrored(b, m, size, i, i) && i < size
    ensures Mirrored(b, m, size, i, i + 1)
  {
  }

  lemma RowMirrored(b: seq<int>, m: seq<int>, size: nat, i: nat)
    requires Mirrored(b, m, size, i, size) && i < size
    ensures Mirrored(b, m, size, i + 1, i + 1)
  {
  }

  lemma AllMirrored(b: seq<int>, m: seq<int>, size: nat)
    requires Mirrored(b, m, size, size, size)
    ensures IsTranspose(b, m, size)
  {
  }

  /** The dot product of two rows, up to k. */
  ghost function Dot(a: seq<int>, b: seq<int>, row_a: nat, row_b: nat, k: nat): int
    requires row_a + k <= |a| && row_b + k <= |b|
  {
    if k == 0 then 0 else Dot(a, b, row_a, row_b, k - 1) + a[row_a + k - 1] * b[row_b + k - 1]
  }

  /** Eight products at a time, then the rest one by one. */
  method DotProduct(A: array<int>, B: array<int>, row_a: nat, row_b: nat, size: nat) returns (sum: int)
    requires row_a + size <= A.Length && row_b + size <= B.Length
    ensures sum == Dot(A[..], B[..], row_a, row_b, size)
  {
    sum := 0;
    var k: int := 0;
    var k_limit: int := size - 7;
    while k < k_limit
      invariant 0 <= k <= size && sum == Dot(A[..], B[..], row_a, row_b, k)
    {
      var off_a := row_a + k;
      var off_b := row_b + k;
      EightMore(A[..], B[..], row_a, row_b, k);
      sum := sum + (A[off_a] * B[off_b]
                    + A[off_a + 1] * B[off_b + 1]
                    + A[off_a + 2] * B[off_b + 2]
                    + A[off_a + 3] * B[off_b + 3]
                    + A[off_a + 4] * B[off_b + 4]
                    + A[off_a + 5] * B[off_b + 5]
                    + A[off_a + 6] * B[off_b + 6]
                    + A[off_a + 7] * B[off_b + 7]);
      k := k + 8;
    }
    while k < size
      invariant 0 <= k <= size && sum == Dot(A[..], B[..], row_a, row_b, k)
    {
      sum := sum + A[row_a + k] * B[row_b + k];
      k := k + 1;
    }
  }

  lemma EightMore(a: seq<int>, b: seq<int>, p: nat, q: nat, k: nat)
    requires p + k + 8 <= |a| && q + k + 8 <= |b|
    ensures Dot(a, b, p, q, k + 8) == Dot(a, b, p, q, k)
      + (a[p + k] * b[q + k] + a[p + k + 1] * b[q + k + 1] + a[p + k + 2] * b[q + k + 2] + a[p + k + 3] * b[q + k + 3]
         + a[p + k + 4] * b[q + k + 4] + a[p + k + 5] * b[q + k + 5] + a[p + k + 6] * b[q + k + 6] + a[p + k + 7] * b[q + k + 7])
  {
    assert Dot(a, b, p, q, k + 2) == Dot(a, b, p, q, k) + a[p + k] * b[q + k] + a[p + k + 1] * b[q + k + 1];
    assert Dot(a, b, p, q, k + 4) == Dot(a, b, p, q, k + 2) + a[p + k + 2] * b[q + k + 2] + a[p + k + 3] * b[q + k + 3];
    assert Dot(a, b, p, q, k + 6) == Dot(a, b, p, q, k + 4) + a[p + k + 4] * b[q + k + 4] + a[p + k + 5] * b[q + k + 5];
  }

  /** Against the transpose, the dot product of rows is the product with the original. */
  lemma {:induction false} DotIsProduct(a: seq<int>, t: seq<int>, b: seq<int>, size: nat, i: nat, j: nat, k: nat)
    requires Square(a, size) && IsTranspose(t, b, size) && i < size && j < size && k <= size
    requires i * size + k <= |a| && j * size + k <= |t|
    ensures Dot(a, t, i * size, j * size, k) == Product(a, b, size, i, j, k)
  {
    if k > 0 {
      DotIsProduct(a, t, b, size, i, j, k - 1);
      assert t[Cell(size, j, k - 1)] == b[Cell(size, k - 1, j)];
    }
  }

  /** The first j cells of row i and all rows above hold the product. */
  ghost predicate Filled(r: seq<int>, a: seq<int>, b: seq<int>, size: nat, i: nat, j: nat) {
    && Square(r, size) && Square(a, size) && Square(b, size)
    && forall row: nat, c: nat | row < size && c < size && (row < i || (row == i && c < j)) ::
        r[Cell(size, row, c)] == Product(a, b, size, row, c, size)
  }

  lemma FilledStep(r: seq<int>, a: seq<int>, t: seq<int>, b: seq<int>, size: nat, i: nat, j: nat)
    requires i < size && j < size && Filled(r, a, b, size, i, j) && IsTranspose(t, b, size)
    ensures i * size + size <= |a| && j * size + size <= |t| && i * size + j < |r|
    ensures Filled(r[i * size + j := Dot(a, t, i * size, j * size, size)], a, b, size, i, j + 1)
    ensures (j + 1) * size == j * size + size
  {
    hide Product, Dot, IsTranspose;
    RowsApart(size, i, size);
    RowsApart(size, j, size);
    NextRow(j, size);
    TransposeIsSquare(t, b, size);
    DotIsProduct(a, t, b, size, i, j, size);
    CellFilled(r, a, b, size, i, j);
  }

  lemma TransposeIsSquare(t: seq<int>, b: seq<int>, size: nat)
    requires IsTranspose(t, b, size)
    ensures Square(t, size) && Square(b, size)
  {
  }

  lemma CellFilled(r: seq<int>, a: seq<int>, b: seq<int>, size: nat, i: nat, j: nat)
    requires i < size && j < size && Filled(r, a, b, size, i, j)
    ensures i * size + j < |r| && Filled(r[i * size + j := Product(a, b, size, i, j, size)], a, b, size, i, j + 1)
  {
    hide Product;
    CellBound(size, i, j);
    var r' := r[Cell(size, i, j) := Product(a, b, size, i, j, size)];
    forall row: nat, c: nat | row < size && c < size && (row < i || (row == i && c < j + 1))
      ensures r'[Cell(size, row, c)] == Product(a, b, size, row, c, size)
    {
      CellUnique(size, i, j, row, c);
    }
  }

  /** One cell: the dot product, stored; the four unrolled copies and the remainder loop each do this. */
  method FillCell(size: nat, A: array<int>, B: array<int>, result: array<int>, row_a: nat, row_b: nat, offset: nat,
                  ghost b: seq<int>, ghost i: nat, ghost j: nat)
    requires i < size && j < size && row_a == i * size && row_b == j * size && offset == row_a + j
    requires result != A && result != B && IsTranspose(B[..], b, size) && Filled(result[..], A[..], b, size, i, j)
    modifies result
    ensures Filled(result[..], A[..], b, size, i, j + 1) && row_b + size == (j + 1) * size
  {
    hide Filled, IsTranspose;
    FilledStep(result[..], A[..], B[..], b, size, i, j);
    var sum := DotProduct(A, B, row_a, row_b, size);
    result[offset] := sum;
  }

  /** Computes the product with the original B, and leaves B transposed. */
  method Mmul(size: nat, A: array<int>, B: array<int>) returns (result: array<int>)
    requires A != B && Square(A[..], size) && Square(B[..], size)
    modifies B
    ensures fresh(result) && IsProduct(result[..], A[..], old(B[..]), size)
    ensures IsTranspose(B[..], old(B[..]), size)
  {
    hide Filled, IsTranspose, Square, IsProduct;
    ghost var b := B[..];
    result := new int[size * size];
    Transpose(size, B);
    var j_limit: int := size - 3;
    var row_a := 0;
    var i := 0;
    NothingFilled(result[..], A[..], b, size);
    while i < size
      invariant i <= size && row_a == i * size && IsTranspose(B[..], b, size)
      invariant Filled(result[..], A[..], b, size, i, 0)
    {
      var row_b := 0;
      var result_offset := row_a;
      var j: nat := 0;
      while j < j_limit
        invariant j <= size && row_b == j * size && result_offset == row_a + j && IsTranspose(B[..], b, size)
        invariant Filled(result[..], A[..], b, size, i, j)
      {
        FillCell(size, A, B, result, row_a, row_b, result_offset, b, i, j);
        row_b := row_b + size;
        result_offset := result_offset + 1;
        FillCell(size, A, B, result, row_a, row_b, result_offset, b, i, j + 1);
        row_b := row_b + size;
        result_offset := result_offset + 1;
        FillCell(size, A, B, result, row_a, row_b, result_offset, b, i, j + 2);
        row_b := row_b + size;
        result_offset := result_offset + 1;
        FillCell(size, A, B, result, row_a, row_b, result_offset, b, i, j + 3);
        row_b := row_b + size;
        result_offset := result_offset + 1;
        j := j + 4;
      }
      while j < size
        invariant j <= size && row_b == j * size && IsTranspose(B[..], b, size)
        invariant Filled(result[..], A[..], b, size, i, j)
      {
        FillCell(size, A, B, result, row_a, row_b, row_a + j, b, i, j);
        row_b := row_b + size;
        j := j + 1;
      }
      RowFilled(result[..], A[..], b, size, i);
      NextRow(i, size);
      row_a := row_a + size;
      i := i + 1;
    }
    AllFilled(result[..], A[..], b, size);
  }

  lemma NothingFilled(r: seq<int>, a: seq<int>, b: seq<int>, size: nat)
    requires Square(a, size) && Square(b, size) && |r| == size * size
    ensures Filled(r, a, b, size, 0, 0)
  {
  }

  lemma RowFilled(r: seq<int>, a: seq<int>, b: seq<int>, size: nat, i: nat)
    requires Filled(r, a, b, size, i, size) && i < size
    ensures Filled(r, a, b, size, i + 1, 0)
  {
  }

  lemma AllFilled(r: seq<int>, a: seq<int>, b: seq<int>, size: nat)
    requires Filled(r, a, b, size, size, 0)
    ensures Square(a, size) && Square(b, size) && IsProduct(r, a, b, size)
  {
  }

  lemma ProductStep(a: seq<int>, b: seq<int>, size: nat, i: nat, j: nat, k: nat)
    requires Square(a, size) && Square(b, size) && i < size && j < size && k < size
    ensures Cell(size, i, k) == i * size + k < |a| && Cell(size, k, j) == k * size + j < |b|
    ensures Product(a, b, size, i, j, k + 1) == Product(a, b, size, i, j, k) + a[Cell(size, i, k)] * b[Cell(size, k, j)]
  {
  }

  lemma NoProduct(a: seq<int>, b: seq<int>, size: nat, i: nat, j: nat)
    requires Square(a, size) && Square(b, size) && i < size && j < size
    ensures Product(a, b, size, i, j, 0) == 0
  {
  }

  /** The textbook triple loop. */
  method OrigMmul(size: nat, A: array<int>, B: array<int>) returns (result: array<int>)
    requires Square(A[..], size) && Square(B[..], size)
    ensures fresh(result) && IsProduct(result[..], A[..], B[..], size)
  {
    hide Filled, IsProduct, Product;
    result := new int[size * size];
    NothingFilled(result[..], A[..], B[..], size);
    var i := 0;
    while i < size
      invariant i <= size && Filled(result[..], A[..], B[..], size, i, 0)
    {
      var j := 0;
      while j < size
        invariant j <= size && Filled(result[..], A[..], B[..], size, i, j)
      {
        var sum := 0;
        var k := 0;
        NoProduct(A[..], B[..], size, i, j);
        while k < size
          invariant k <= size && sum == Product(A[..], B[..], size, i, j, k)
          invariant Filled(result[..], A[..], B[..], size, i, j)
        {
          ProductStep(A[..], B[..], size, i, j, k);
          sum := sum + A[i * size + k] * B[k * size + j];
          k := k + 1;
        }
        CellFilled(result[..], A[..], B[..], size, i, j);
        result[j + i * size] := sum;
        j := j + 1;
      }
      RowFilled(result[..], A[..], B[..], size, i);
      i := i + 1;
    }
    AllFilled(result[..], A[..], B[..], size);
  }

  /** Both multiplications return the same matrix. */
  method Compare(size: nat, A: array<int>, B: array<int>) returns (tuned: array<int>, plain: array<int>)
    requires A != B && Square(A[..], size) && Square(B[..], size)
    modifies B
    ensures tuned[..] == plain[..]
  {
    plain := OrigMmul(size, A, B);
    ghost var p := plain[..];
    tuned := Mmul(size, A, B);
    ProductIsUnique(tuned[..], p, A[..], old(B[..]), size);
  }
}
