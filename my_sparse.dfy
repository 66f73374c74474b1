/** The imperative layer: the CSRMatrix record over three heap arrays, the
    two-pass builder that fills them in place, and the SpMV kernel that
    writes the caller's result array. Each method is proved against the
    specification functions of module Csr. */
module CsrImpl {
  import opened Dense
  import opened Csr

  /** A CSR matrix: row offsets, column indices and values, each its own
      array, created together by DenseToCsr and never reassigned. */
  class CsrMatrix {
    const rowPtr: array<int>
    const colIndices: array<int>
    const values: array<real>

    constructor (rowPtr: array<int>, colIndices: array<int>, values: array<real>)
      ensures this.rowPtr == rowPtr && this.colIndices == colIndices && this.values == values
    {
      this.rowPtr := rowPtr;
      this.colIndices := colIndices;
      this.values := values;
    }

    /** The current contents of the three arrays, as a value. */
    ghost function Model(): CsrData
      reads rowPtr, colIndices, values
    {
      CsrData(rowPtr[..], colIndices[..], values[..])
    }
  }

  /** Converts the n x n row-major matrix `mat` to CSR form in two passes
      over the cells in the same order: CountPass records each row's starting
      offset and the total, the arrays for the entries are allocated with
      exactly that many slots, and FillPass writes the entries. */
  method DenseToCsr(n: nat, mat: array<real>) returns (csr: CsrMatrix)
    requires mat.Length == RowOffset(n, n)
    ensures fresh(csr) && fresh(csr.rowPtr) && fresh(csr.colIndices) && fresh(csr.values)
    ensures csr.Model() == ToCsr(mat[..], n)
    ensures Represents(csr.Model(), mat[..], n)
    ensures csr.rowPtr[n] == csr.values.Length == csr.colIndices.Length == CountNonZero(mat[..])
  {
    var rowPtr, nnz := CountPass(n, mat);
    var values := new real[nnz];
    var colIndices := new int[nnz];
    FillPass(n, mat, values, colIndices);
    csr := new CsrMatrix(rowPtr, colIndices, values);
    ghost var m := mat[..];
    ToCsrFields(m, n);
    assert csr.Model() == ToCsr(m, n);
    BuildCorrect(csr.Model(), m, n);
  }

  /** The counting pass: rowPtr[i] is the number of non-zero cells before
      row i, and rowPtr[n] = nnz is the number in the whole matrix. */
  method CountPass(n: nat, mat: array<real>) returns (rowPtr: array<int>, nnz: nat)
    requires mat.Length == RowOffset(n, n)
    ensures fresh(rowPtr)
    ensures rowPtr[..] == Offsets(mat[..], n)
    ensures nnz == rowPtr[n] == RowStart(mat[..], n, n)
  {
    ghost var m := mat[..];
    rowPtr := new int[n + 1];
    nnz := 0;
    for i := 0 to n
      invariant nnz == RowStart(m, n, i)
      invariant rowPtr[..i] == Offsets(m, n)[..i]
    {
      rowPtr[i] := nnz;
      assert rowPtr[..i + 1] == rowPtr[..i] + [nnz];
      OffsetsStep(m, n, i);
      var base := RowBase(n, i);
      nnz := CountRow(n, mat, i, base, nnz);
    }
    rowPtr[n] := nnz;
    assert rowPtr[..] == rowPtr[..n] + [nnz];
    OffsetsStep(m, n, n);
    assert Offsets(m, n)[..n + 1] == Offsets(m, n);
  }

  /** The filling pass: re-scans the cells in the counting pass's order and
      writes each non-zero value and its column to the next free slot. When
      it starts row i its counter equals rowPtr[i], so row i's entries land
      in the slice [rowPtr[i], rowPtr[i+1]). */
  method FillPass(n: nat, mat: array<real>, values: array<real>, colIndices: array<int>)
    requires mat.Length == RowOffset(n, n)
    requires values.Length == colIndices.Length == RowStart(mat[..], n, n)
    requires values != mat
    modifies values, colIndices
    ensures values[..] == CsrValues(mat[..], n, n)
    ensures colIndices[..] == CsrCols(mat[..], n, n)
  {
    ghost var m := mat[..];
    var nnz := 0;
    for i := 0 to n
      invariant mat[..] == m
      invariant nnz == RowStart(m, n, i) <= values.Length
      invariant values[..nnz] == CsrValues(m, n, i)
      invariant colIndices[..nnz] == CsrCols(m, n, i)
    {
      var base := RowBase(n, i);
      RowStartStep(m, n, i);
      RowStartMonotone(m, n, i + 1, n);
      CsrStep(m, n, i);
      nnz := FillRow(n, mat, i, base, values, colIndices, nnz);
    }
    assert values[..] == values[..nnz];
    assert colIndices[..] == colIndices[..nnz];
  }

  /** The index i * n at which row i starts in the row-major buffer. */
  method RowBase(n: nat, i: nat) returns (base: nat)
    ensures base == RowOffset(n, i)
  {
    RowOffsetIsProduct(n, i);
    base := i * n;
  }

  /** The inner loop of the counting pass over row i, the n cells starting
      at `base` = i * n: the counter grows by the row's non-zero count. */
  method CountRow(n: nat, mat: array<real>, i: nat, base: nat, nnz0: nat) returns (nnz: nat)
    requires mat.Length == RowOffset(n, n) && i < n && base == RowOffset(n, i)
    requires nnz0 == RowStart(mat[..], n, i)
    ensures nnz == nnz0 + CountNonZero(Row(mat[..], n, i)) == RowStart(mat[..], n, i + 1)
  {
    RowStartStep(mat[..], n, i);
    RowFits(n, i);
    ghost var row := Row(mat[..], n, i);
    assert forall j :: 0 <= j < n ==> row[j] == mat[base + j];
    nnz := nnz0;
    for j := 0 to n
      invariant nnz == nnz0 + CountNonZero(row[..j])
    {
      PrefixStep(row, j);
      if mat[base + j] != 0.0 {
        nnz := nnz + 1;
      }
    }
    assert row[..n] == row;
  }

  /** The inner loop of the filling pass over row i, the n cells starting
      at `base` = i * n: each non-zero cell, left to right, goes to the next
      free slot, with its column; the slots before nnz0 are left alone. */
  method FillRow(n: nat, mat: array<real>, i: nat, base: nat, values: array<real>, colIndices: array<int>, nnz0: nat)
    returns (nnz: nat)
    requires mat.Length == RowOffset(n, n) && i < n && base == RowOffset(n, i)
    requires nnz0 + CountNonZero(Row(mat[..], n, i)) <= values.Length
    requires nnz0 + CountNonZero(Row(mat[..], n, i)) <= colIndices.Length
    requires values != mat
    modifies values, colIndices
    ensures nnz == nnz0 + CountNonZero(Row(mat[..], n, i))
    ensures values[..nnz] == old(values[..nnz0]) + NonZeroValues(Row(mat[..], n, i))
    ensures colIndices[..nnz] == old(colIndices[..nnz0]) + NonZeroCols(Row(mat[..], n, i))
    ensures forall k :: nnz <= k < values.Length ==> values[k] == old(values[k])
    ensures forall k :: nnz <= k < colIndices.Length ==> colIndices[k] == old(colIndices[k])
  {
    RowFits(n, i);
    ghost var m := mat[..];
    ghost var row := Row(m, n, i);
    assert row == mat[base .. base + n];
    ghost var vs0, cs0 := values[..nnz0], colIndices[..nnz0];
    nnz := nnz0;
    for j := 0 to n
      invariant nnz == nnz0 + CountNonZero(row[..j])
      invariant nnz <= values.Length && nnz <= colIndices.Length
      invariant values[..nnz] == vs0 + NonZeroValues(row[..j])
      invariant colIndices[..nnz] == cs0 + NonZeroCols(row[..j])
      invariant forall k :: nnz <= k < values.Length ==> values[k] == old(values[k])
      invariant forall k :: nnz <= k < colIndices.Length ==> colIndices[k] == old(colIndices[k])
    {
      PrefixStep(row, j);
      CountNonZeroPrefix(row, j + 1);
      nnz := FillCell(mat, base, j, values, colIndices, nnz, row, vs0, cs0);
    }
    assert row[..n] == row;
  }

  /** One cell of the filling pass's inner loop: cell j of the row at
      `base`, when non-zero, is written with its column to slot nnz0; a zero
      cell writes nothing, and no slot from the new nnz on is touched. */
  method FillCell(mat: array<real>, base: nat, j: nat, values: array<real>, colIndices: array<int>, nnz0: nat,
                  ghost row: seq<real>, ghost vs0: seq<real>, ghost cs0: seq<int>)
    returns (nnz: nat)
    requires j < |row| && base + j < mat.Length && row[j] == mat[base + j]
    requires nnz0 == |vs0| + CountNonZero(row[..j]) <= values.Length && nnz0 <= colIndices.Length
    requires |vs0| + CountNonZero(row[..j + 1]) <= values.Length
    requires |vs0| + CountNonZero(row[..j + 1]) <= colIndices.Length
    requires values[..nnz0] == vs0 + NonZeroValues(row[..j])
    requires colIndices[..nnz0] == cs0 + NonZeroCols(row[..j])
    modifies values, colIndices
    ensures nnz == |vs0| + CountNonZero(row[..j + 1])
    ensures values[..nnz] == vs0 + NonZeroValues(row[..j + 1])
    ensures colIndices[..nnz] == cs0 + NonZeroCols(row[..j + 1])
    ensures forall k :: nnz <= k < values.Length ==> values[k] == old(values[k])
    ensures forall k :: nnz <= k < colIndices.Length ==> colIndices[k] == old(colIndices[k])
  {
    ghost var vs, cs := values[..nnz0], colIndices[..nnz0];
    FillStep(row, j, vs0, cs0, vs, cs);
    PrefixStep(row, j);
    nnz := nnz0;
    if mat[base + j] != 0.0 {
      values[nnz] := mat[base + j];
      colIndices[nnz] := j;
      assert values[..nnz + 1] == vs + [row[j]];
      assert colIndices[..nnz + 1] == cs + [j];
      nnz := nnz + 1;
    }
  }

  /** The CSR kernel: for every row i < n, result[i] becomes the sum of
      values[k] * vec[colIndices[k]] over row i's slice, accumulated in
      increasing k. Only result[0 .. n) is written; the status is always 0. */
  method MySparse(csr: CsrMatrix, vec: array<real>, result: array<real>, n: nat) returns (status: int)
    requires WellFormed(csr.Model(), n)
    requires n <= vec.Length && n <= result.Length
    requires result != vec && result != csr.values
    modifies result
    ensures status == 0
    ensures result[..n] == Spmv(csr.Model(), n, vec[..])
    ensures result[n..] == old(result[n..])
  {
    ghost var c := csr.Model();
    for i := 0 to n
      invariant forall r :: 0 <= r < i ==> result[r] == SpmvRow(c, n, vec[..], r)
      invariant result[n..] == old(result[n..])
    {
      var lo, hi := csr.rowPtr[i], csr.rowPtr[i + 1];
      assert 0 <= lo <= hi <= csr.values.Length by {
        assert c.rowPtr[0] <= c.rowPtr[i] <= c.rowPtr[i + 1] <= c.rowPtr[n];
      }
      RowProduct(csr.values, csr.colIndices, lo, hi, vec, result, i);
    }
    status := 0;
  }

  /** One iteration of the kernel's outer loop: result[i] is reset and then
      accumulates values[k] * vec[colIndices[k]] for k from lo up to hi; no
      other entry of `result` changes. */
  method RowProduct(values: array<real>, colIndices: array<int>, lo: nat, hi: nat,
                    vec: array<real>, result: array<real>, i: nat)
    requires lo <= hi <= values.Length == colIndices.Length
    requires forall k :: 0 <= k < colIndices.Length ==> 0 <= colIndices[k] < vec.Length
    requires i < result.Length && result != vec && result != values
    modifies result
    ensures result[i] == SparseDot(values[lo..hi], colIndices[lo..hi], vec[..])
    ensures forall r :: 0 <= r < result.Length && r != i ==> result[r] == old(result[r])
  {
    ghost var vals, cols, v := values[lo..hi], colIndices[lo..hi], vec[..];
    result[i] := 0.0;
    for k := lo to hi
      invariant result[i] == SparseDot(vals[..k - lo], cols[..k - lo], v)
      invariant forall r :: 0 <= r < result.Length && r != i ==> result[r] == old(result[r])
    {
      ghost var t := k - lo;
      assert cols[t] == colIndices[k];
      assert vals[..t + 1] == vals[..t] + [vals[t]];
      assert cols[..t + 1] == cols[..t] + [cols[t]];
      SparseDotSnoc(vals[..t], cols[..t], v, vals[t], cols[t]);
      result[i] := result[i] + values[k] * vec[colIndices[k]];
    }
    assert vals[..hi - lo] == vals && cols[..hi - lo] == cols;
  }

  /** Builds the CSR form of `mat` and multiplies it by `vec`: the result is
      the dense product mat * vec, which is what the benchmark checks the
      custom kernel against. */
  method SparseMatVec(n: nat, mat: array<real>, vec: array<real>, result: array<real>)
    requires mat.Length == RowOffset(n, n) && n <= vec.Length && n <= result.Length
    requires result != mat && result != vec
    modifies result
    ensures result[..n] == DenseProduct(mat[..], n, vec[..])
    ensures result[n..] == old(result[n..])
  {
    var csr := DenseToCsr(n, mat);
    var status := MySparse(csr, vec, result, n);
    RoundTrip(mat[..], n, vec[..]);
  }
}
