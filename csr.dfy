/** The compressed-sparse-row (CSR) representation as a value, the
    specification of the two-pass builder (which cells land where) and of the
    CSR sparse matrix-vector product, and the lemmas that connect them: the
    builder's output is a well-formed CSR of the dense matrix, and the sparse
    product of that output is the dense product. */
module Csr {
  import opened Dense

  /** The three parallel arrays of a CSR matrix, as values. Row i's entries
      are the positions k with rowPtr[i] <= k < rowPtr[i+1]. */
  datatype CsrData = CsrData(rowPtr: seq<int>, colIndices: seq<int>, values: seq<real>)

  /** The structural invariants every CSR matrix of dimension n keeps: n+1
      row offsets starting at 0 and never decreasing, the last one equal to
      the number of stored entries, and every column in [0, n). */
  predicate WellFormed(c: CsrData, n: nat)
  {
    && |c.rowPtr| == n + 1
    && c.rowPtr[0] == 0
    && (forall a, b :: 0 <= a <= b <= n ==> c.rowPtr[a] <= c.rowPtr[b])
    && c.rowPtr[n] == |c.values| == |c.colIndices|
    && (forall k :: 0 <= k < |c.colIndices| ==> 0 <= c.colIndices[k] < n)
  }

  /** `c` is a CSR matrix of the n x n row-major matrix `mat`: row i's slice
      holds exactly as many entries as row i has non-zero cells, each stored
      entry is non-zero and equals the cell it names, the columns of a slice
      strictly increase, and every non-zero cell is named in its row's slice. */
  predicate Represents(c: CsrData, mat: seq<real>, n: nat)
  {
    && |mat| == RowOffset(n, n)
    && WellFormed(c, n)
    && (forall i :: 0 <= i < n ==> RowRepresented(c, mat, n, i))
  }

  /** Row i of `mat` is stored in its slice [rowPtr[i], rowPtr[i+1]) of `c`:
      the slice holds exactly as many entries as the row has non-zero cells,
      each entry is non-zero and equals the cell it names, the columns
      strictly increase, and every non-zero cell of the row is named. */
  predicate RowRepresented(c: CsrData, mat: seq<real>, n: nat, i: nat)
    requires |mat| == RowOffset(n, n) && WellFormed(c, n) && i < n
  {
    var row, lo, hi := Row(mat, n, i), c.rowPtr[i], c.rowPtr[i + 1];
    && hi - lo == CountNonZero(row)
    && (forall k :: lo <= k < hi ==> c.values[k] != 0.0 && c.values[k] == row[c.colIndices[k]])
    && (forall k1, k2 :: lo <= k1 < k2 < hi ==> c.colIndices[k1] < c.colIndices[k2])
    && (forall j :: 0 <= j < n && row[j] != 0.0 ==> exists k :: lo <= k < hi && c.colIndices[k] == j)
  }

  // ---------------------------------------------------------------------
  // One row: the non-zero values and their columns, left to right
  // ---------------------------------------------------------------------

  /** The non-zero cells of `row`, in column order. */
  function NonZeroValues(row: seq<real>): (vs: seq<real>)
    ensures |vs| == CountNonZero(row)
  {
    if |row| == 0 then []
    else
      var last := row[|row| - 1];
      NonZeroValues(row[..|row| - 1]) + (if last != 0.0 then [last] else [])
  }

  /** The columns of the non-zero cells of `row`, in column order. */
  function NonZeroCols(row: seq<real>): (cs: seq<int>)
    ensures |cs| == CountNonZero(row)
  {
    if |row| == 0 then []
    else
      NonZeroCols(row[..|row| - 1]) + (if row[|row| - 1] != 0.0 then [|row| - 1] else [])
  }

  /** Each stored column names a non-zero cell of the row. */
  lemma {:induction false} NonZeroColsRange(row: seq<real>)
    ensures forall t :: 0 <= t < |NonZeroCols(row)| ==>
      0 <= NonZeroCols(row)[t] < |row| && row[NonZeroCols(row)[t]] != 0.0
  {
    if |row| > 0 {
      var p := row[..|row| - 1];
      NonZeroColsRange(p);
      var cs, cp := NonZeroCols(row), NonZeroCols(p);
      assert cs == cp + (if row[|p|] != 0.0 then [|p|] else []);
      forall t | 0 <= t < |cs| ensures 0 <= cs[t] < |row| && row[cs[t]] != 0.0 {
        if t < |cp| {
          assert cs[t] == cp[t] && row[cp[t]] == p[cp[t]];
        }
      }
    }
  }

  /** The columns of a row's non-zero cells strictly increase. */
  lemma {:induction false} NonZeroColsIncreasing(row: seq<real>)
    ensures forall t1, t2 :: 0 <= t1 < t2 < |NonZeroCols(row)| ==> NonZeroCols(row)[t1] < NonZeroCols(row)[t2]
  {
    if |row| > 0 {
      var p := row[..|row| - 1];
      NonZeroColsIncreasing(p);
      NonZeroColsRange(p);
      var cs, cp := NonZeroCols(row), NonZeroCols(p);
      if row[|row| - 1] != 0.0 {
        assert cs == cp + [|p|];
        forall t1, t2 | 0 <= t1 < t2 < |cs| ensures cs[t1] < cs[t2] {
          if t2 < |cp| {
            assert cs[t1] == cp[t1] && cs[t2] == cp[t2];
          } else {
            assert cs[t1] == cp[t1] < |p| == cs[t2];
          }
        }
      } else {
        assert cs == cp;
      }
    }
  }

  /** The t-th stored value of a row is the cell named by the t-th column. */
  lemma {:induction false} NonZeroValuesAt(row: seq<real>, t: nat)
    requires t < CountNonZero(row)
    ensures 0 <= NonZeroCols(row)[t] < |row| && NonZeroValues(row)[t] == row[NonZeroCols(row)[t]]
  {
    NonZeroColsRange(row);
    var p := row[..|row| - 1];
    if t < CountNonZero(p) {
      NonZeroValuesAt(p, t);
    }
  }

  /** No non-zero cell of a row is skipped. */
  lemma {:induction false} NonZeroColsComplete(row: seq<real>, j: nat)
    requires j < |row| && row[j] != 0.0
    ensures j in NonZeroCols(row)
  {
    var p := row[..|row| - 1];
    if j < |p| {
      NonZeroColsComplete(p, j);
    }
  }

  /** Extending a row prefix by one cell: the count, the stored values and
      the stored columns grow by that cell exactly when it is non-zero. */
  lemma {:induction false} PrefixStep(row: seq<real>, j: nat)
    requires j < |row|
    ensures CountNonZero(row[..j + 1]) == CountNonZero(row[..j]) + (if row[j] != 0.0 then 1 else 0)
    ensures NonZeroValues(row[..j + 1]) == NonZeroValues(row[..j]) + (if row[j] != 0.0 then [row[j]] else [])
    ensures NonZeroCols(row[..j + 1]) == NonZeroCols(row[..j]) + (if row[j] != 0.0 then [j] else [])
  {
    assert row[..j + 1][..j] == row[..j];
  }

  /** One cell of the filling loop: after entries `vs`/`cs` for the prefix
      row[..j] have been written behind `vs0`/`cs0`, a non-zero row[j]
      appended gives the entries for row[..j + 1], and a zero one leaves
      them as they are. */
  lemma {:induction false} FillStep(row: seq<real>, j: nat, vs0: seq<real>, cs0: seq<int>, vs: seq<real>, cs: seq<int>)
    requires j < |row|
    requires vs == vs0 + NonZeroValues(row[..j]) && cs == cs0 + NonZeroCols(row[..j])
    ensures row[j] != 0.0 ==> vs + [row[j]] == vs0 + NonZeroValues(row[..j + 1])
    ensures row[j] != 0.0 ==> cs + [j] == cs0 + NonZeroCols(row[..j + 1])
    ensures row[j] == 0.0 ==> vs == vs0 + NonZeroValues(row[..j + 1]) && cs == cs0 + NonZeroCols(row[..j + 1])
  {
    PrefixStep(row, j);
    if row[j] != 0.0 {
      assert vs + [row[j]] == vs0 + (NonZeroValues(row[..j]) + [row[j]]);
      assert cs + [j] == cs0 + (NonZeroCols(row[..j]) + [j]);
    } else {
      assert NonZeroValues(row[..j]) + [] == NonZeroValues(row[..j]);
      assert NonZeroCols(row[..j]) + [] == NonZeroCols(row[..j]);
    }
  }

  // ---------------------------------------------------------------------
  // The builder: row offsets, then the concatenated rows
  // ---------------------------------------------------------------------

  /** The counter value when a pass reaches row i: the number of non-zero
      cells in rows 0 .. i-1; it never exceeds the i * n cells scanned. */
  function RowStart(mat: seq<real>, n: nat, i: nat): (s: nat)
    requires |mat| == RowOffset(n, n) && i <= n
    ensures s <= RowOffset(n, i)
  {
    if i == 0 then 0 else RowStart(mat, n, i - 1) + CountNonZero(Row(mat, n, i - 1))
  }

  /** Stepping over row i adds its non-zero count. */
  lemma {:induction false} RowStartStep(mat: seq<real>, n: nat, i: nat)
    requires |mat| == RowOffset(n, n) && i < n
    ensures RowStart(mat, n, i + 1) == RowStart(mat, n, i) + CountNonZero(Row(mat, n, i))
  {
  }

  /** Row offsets never decrease. */
  lemma {:induction false} RowStartMonotone(mat: seq<real>, n: nat, a: nat, b: nat)
    requires |mat| == RowOffset(n, n) && a <= b <= n
    ensures RowStart(mat, n, a) <= RowStart(mat, n, b)
    decreases b - a
  {
    if a < b {
      RowStartMonotone(mat, n, a, b - 1);
    }
  }

  /** While the filling pass is in row i, the next free slot is still inside
      the arrays sized by the counting pass. */
  lemma {:induction false} FillSlotInRange(mat: seq<real>, n: nat, i: nat, j: nat)
    requires |mat| == RowOffset(n, n) && i < n && j < n && Row(mat, n, i)[j] != 0.0
    ensures RowStart(mat, n, i) + CountNonZero(Row(mat, n, i)[..j]) < RowStart(mat, n, n)
  {
    var row := Row(mat, n, i);
    PrefixStep(row, j);
    CountNonZeroPrefix(row, j + 1);
    RowStartStep(mat, n, i);
    RowStartMonotone(mat, n, i + 1, n);
  }

  /** The non-zero values of rows 0 .. i-1, row after row. */
  function CsrValues(mat: seq<real>, n: nat, i: nat): (vs: seq<real>)
    requires |mat| == RowOffset(n, n) && i <= n
    ensures |vs| == RowStart(mat, n, i)
  {
    if i == 0 then [] else CsrValues(mat, n, i - 1) + NonZeroValues(Row(mat, n, i - 1))
  }

  /** The columns of the non-zero cells of rows 0 .. i-1, row after row. */
  function CsrCols(mat: seq<real>, n: nat, i: nat): (cs: seq<int>)
    requires |mat| == RowOffset(n, n) && i <= n
    ensures |cs| == RowStart(mat, n, i)
  {
    if i == 0 then [] else CsrCols(mat, n, i - 1) + NonZeroCols(Row(mat, n, i - 1))
  }

  /** Every column the builder stores lies in 0 .. n-1. */
  lemma {:induction false} CsrColsRange(mat: seq<real>, n: nat, i: nat)
    requires |mat| == RowOffset(n, n) && i <= n
    ensures forall k :: 0 <= k < |CsrCols(mat, n, i)| ==> 0 <= CsrCols(mat, n, i)[k] < n
  {
    if i > 0 {
      CsrColsRange(mat, n, i - 1);
      var row := Row(mat, n, i - 1);
      NonZeroColsRange(row);
      var cs, cp, cr := CsrCols(mat, n, i), CsrCols(mat, n, i - 1), NonZeroCols(row);
      assert cs == cp + cr;
      forall k | 0 <= k < |cs| ensures 0 <= cs[k] < n {
        if k < |cp| {
          assert cs[k] == cp[k];
        } else {
          assert cs[k] == cr[k - |cp|];
        }
      }
    }
  }

  /** Stepping over row i appends its non-zero values and their columns. */
  lemma {:induction false} CsrStep(mat: seq<real>, n: nat, i: nat)
    requires |mat| == RowOffset(n, n) && i < n
    ensures CsrValues(mat, n, i + 1) == CsrValues(mat, n, i) + NonZeroValues(Row(mat, n, i))
    ensures CsrCols(mat, n, i + 1) == CsrCols(mat, n, i) + NonZeroCols(Row(mat, n, i))
  {
  }

  /** The row offsets the counting pass records: RowStart of every row,
      and of n for the end of the last row. */
  function Offsets(mat: seq<real>, n: nat): (p: seq<int>)
    requires |mat| == RowOffset(n, n)
    ensures |p| == n + 1
  {
    seq(n + 1, i requires 0 <= i <= n => RowStart(mat, n, i))
  }

  /** The offsets up to row i, then row i's. */
  lemma {:induction false} OffsetsStep(mat: seq<real>, n: nat, i: nat)
    requires |mat| == RowOffset(n, n) && i <= n
    ensures Offsets(mat, n)[..i + 1] == Offsets(mat, n)[..i] + [RowStart(mat, n, i)]
  {
    var p := Offsets(mat, n);
    assert p[..i + 1] == p[..i] + [p[i]];
  }

  /** What the builder produces from the n x n matrix `mat`. */
  function ToCsr(mat: seq<real>, n: nat): (c: CsrData)
    requires |mat| == RowOffset(n, n)
    ensures WellFormed(c, n)
  {
    forall a, b | 0 <= a <= b <= n ensures RowStart(mat, n, a) <= RowStart(mat, n, b) {
      RowStartMonotone(mat, n, a, b);
    }
    CsrColsRange(mat, n, n);
    CsrData(Offsets(mat, n), CsrCols(mat, n, n), CsrValues(mat, n, n))
  }

  /** The values of rows 0 .. a-1 are a prefix of those of rows 0 .. b-1. */
  lemma {:induction false} CsrValuesPrefix(mat: seq<real>, n: nat, a: nat, b: nat)
    requires |mat| == RowOffset(n, n) && a <= b <= n
    ensures CsrValues(mat, n, a) <= CsrValues(mat, n, b)
    decreases b - a
  {
    if a < b {
      CsrValuesPrefix(mat, n, a, b - 1);
      var vb := CsrValues(mat, n, b - 1);
      var vs := NonZeroValues(Row(mat, n, b - 1));
      assert CsrValues(mat, n, b) == vb + vs;
      PrefixOfAppend(CsrValues(mat, n, a), vb, vs);
    }
  }

  /** The columns of rows 0 .. a-1 are a prefix of those of rows 0 .. b-1. */
  lemma {:induction false} CsrColsPrefix(mat: seq<real>, n: nat, a: nat, b: nat)
    requires |mat| == RowOffset(n, n) && a <= b <= n
    ensures CsrCols(mat, n, a) <= CsrCols(mat, n, b)
    decreases b - a
  {
    if a < b {
      CsrColsPrefix(mat, n, a, b - 1);
      var cb := CsrCols(mat, n, b - 1);
      var cs := NonZeroCols(Row(mat, n, b - 1));
      assert CsrCols(mat, n, b) == cb + cs;
      PrefixOfAppend(CsrCols(mat, n, a), cb, cs);
    }
  }

  /** A prefix of x is a prefix of x ++ y. */
  lemma {:induction false} PrefixOfAppend<T>(p: seq<T>, x: seq<T>, y: seq<T>)
    requires p <= x
    ensures p <= x + y
  {
    assert (x + y)[..|p|] == x[..|p|];
  }

  /** The builder's output, field by field. */
  lemma {:induction false} ToCsrFields(mat: seq<real>, n: nat)
    requires |mat| == RowOffset(n, n)
    ensures ToCsr(mat, n).rowPtr == Offsets(mat, n)
    ensures ToCsr(mat, n).values == CsrValues(mat, n, n)
    ensures ToCsr(mat, n).colIndices == CsrCols(mat, n, n)
    ensures forall i :: 0 <= i <= n ==> ToCsr(mat, n).rowPtr[i] == RowStart(mat, n, i)
  {
  }

  /** If a ++ x is a prefix of b, then x sits in b right after a. */
  lemma {:induction false} PrefixSlice<T>(a: seq<T>, x: seq<T>, b: seq<T>)
    requires a + x <= b
    ensures |a| + |x| <= |b| && b[|a| .. |a| + |x|] == x
  {
    assert b[..|a| + |x|] == a + x;
  }

  /** Row i's entries in the builder's output: the slice from RowStart of
      row i to RowStart of row i + 1 holds row i's non-zero cells and their
      columns, in column order. */
  lemma {:induction false} CsrRowSlice(mat: seq<real>, n: nat, i: nat)
    requires |mat| == RowOffset(n, n) && i < n
    ensures RowStart(mat, n, i) <= RowStart(mat, n, i + 1) <= RowStart(mat, n, n)
    ensures CsrValues(mat, n, n)[RowStart(mat, n, i) .. RowStart(mat, n, i + 1)] == NonZeroValues(Row(mat, n, i))
    ensures CsrCols(mat, n, n)[RowStart(mat, n, i) .. RowStart(mat, n, i + 1)] == NonZeroCols(Row(mat, n, i))
  {
    CsrValuesRowSlice(mat, n, i);
    CsrColsRowSlice(mat, n, i);
    var lo, hi := RowStart(mat, n, i), RowStart(mat, n, i + 1);
    assert |CsrValues(mat, n, i)| == |CsrCols(mat, n, i)| == lo;
    assert |CsrValues(mat, n, n)| == |CsrCols(mat, n, n)| == RowStart(mat, n, n);
    RowStartStep(mat, n, i);
    assert hi == lo + CountNonZero(Row(mat, n, i));
  }

  /** CsrRowSlice for the values. */
  lemma {:induction false} CsrValuesRowSlice(mat: seq<real>, n: nat, i: nat)
    requires |mat| == RowOffset(n, n) && i < n
    ensures var lo := |CsrValues(mat, n, i)|;
      lo + CountNonZero(Row(mat, n, i)) <= |CsrValues(mat, n, n)|
      && CsrValues(mat, n, n)[lo .. lo + CountNonZero(Row(mat, n, i))] == NonZeroValues(Row(mat, n, i))
  {
    var pre, row, all := CsrValues(mat, n, i), NonZeroValues(Row(mat, n, i)), CsrValues(mat, n, n);
    CsrStep(mat, n, i);
    CsrValuesPrefix(mat, n, i + 1, n);
    PrefixSlice(pre, row, all);
  }

  /** CsrRowSlice for the columns. */
  lemma {:induction false} CsrColsRowSlice(mat: seq<real>, n: nat, i: nat)
    requires |mat| == RowOffset(n, n) && i < n
    ensures var lo := |CsrCols(mat, n, i)|;
      lo + CountNonZero(Row(mat, n, i)) <= |CsrCols(mat, n, n)|
      && CsrCols(mat, n, n)[lo .. lo + CountNonZero(Row(mat, n, i))] == NonZeroCols(Row(mat, n, i))
  {
    var pre, row, all := CsrCols(mat, n, i), NonZeroCols(Row(mat, n, i)), CsrCols(mat, n, n);
    CsrStep(mat, n, i);
    CsrColsPrefix(mat, n, i + 1, n);
    PrefixSlice(pre, row, all);
  }

  /** A slice holding the non-zero values and columns of `row` stores only
      non-zero cells of the row, in strictly increasing columns, and misses
      none of them. */
  lemma {:induction false} SliceHoldsRow(values: seq<real>, cols: seq<int>, lo: int, hi: int, row: seq<real>)
    requires 0 <= lo <= hi <= |values| && hi <= |cols|
    requires values[lo..hi] == NonZeroValues(row) && cols[lo..hi] == NonZeroCols(row)
    ensures forall k :: lo <= k < hi ==>
      0 <= cols[k] < |row| && values[k] != 0.0 && values[k] == row[cols[k]]
    ensures forall k1, k2 :: lo <= k1 < k2 < hi ==> cols[k1] < cols[k2]
    ensures forall j :: 0 <= j < |row| && row[j] != 0.0 ==>
      exists k :: lo <= k < hi && cols[k] == j
  {
    forall k | lo <= k < hi
      ensures 0 <= cols[k] < |row| && values[k] != 0.0 && values[k] == row[cols[k]]
    {
      SliceEntry(values, cols, lo, hi, row, k);
    }
    NonZeroColsIncreasing(row);
    forall k1, k2 | lo <= k1 < k2 < hi
      ensures cols[k1] < cols[k2]
    {
      var cs := NonZeroCols(row);
      assert cols[k1] == cs[k1 - lo];
      assert cols[k2] == cs[k2 - lo];
    }
    forall j | 0 <= j < |row| && row[j] != 0.0
      ensures exists k :: lo <= k < hi && cols[k] == j
    {
      var cs := NonZeroCols(row);
      NonZeroColsComplete(row, j);
      var t :| 0 <= t < |cs| && cs[t] == j;
      assert cols[lo + t] == cs[t];
    }
  }

  /** One entry of such a slice. */
  lemma {:induction false} SliceEntry(values: seq<real>, cols: seq<int>, lo: int, hi: int, row: seq<real>, k: int)
    requires 0 <= lo <= k < hi <= |values| && hi <= |cols|
    requires values[lo..hi] == NonZeroValues(row) && cols[lo..hi] == NonZeroCols(row)
    ensures 0 <= cols[k] < |row| && values[k] != 0.0 && values[k] == row[cols[k]]
  {
    assert values[k] == NonZeroValues(row)[k - lo];
    assert cols[k] == NonZeroCols(row)[k - lo];
    NonZeroValuesAt(row, k - lo);
    NonZeroColsRange(row);
  }

  /** Row i's slice of the builder's output stores row i. */
  lemma {:induction false} BuildRow(mat: seq<real>, n: nat, i: nat)
    requires |mat| == RowOffset(n, n) && i < n
    ensures RowRepresented(ToCsr(mat, n), mat, n, i)
  {
    var c := ToCsr(mat, n);
    ToCsrFields(mat, n);
    CsrRowSlice(mat, n, i);
    RowStartStep(mat, n, i);
    SliceHoldsRow(c.values, c.colIndices, c.rowPtr[i], c.rowPtr[i + 1], Row(mat, n, i));
  }

  /** The builder's output is a CSR matrix of `mat`. */
  lemma {:induction false} BuildRepresents(mat: seq<real>, n: nat)
    requires |mat| == RowOffset(n, n)
    ensures Represents(ToCsr(mat, n), mat, n)
  {
    forall i | 0 <= i < n ensures RowRepresented(ToCsr(mat, n), mat, n, i) {
      BuildRow(mat, n, i);
    }
  }

  /** Each row offset is the number of non-zero cells before that row in
      row-major order, that is, among the first i * n cells. */
  lemma {:induction false} RowStartCountsPrefix(mat: seq<real>, n: nat, i: nat)
    requires |mat| == RowOffset(n, n) && i <= n
    ensures i * n <= |mat|
    ensures RowStart(mat, n, i) == CountNonZero(mat[..i * n])
  {
    RowOffsetIsProduct(n, i);
    RowStartCountsOffset(mat, n, i);
  }

  /** RowStartCountsPrefix, with the offset written as RowOffset. */
  lemma {:induction false} RowStartCountsOffset(mat: seq<real>, n: nat, i: nat)
    requires |mat| == RowOffset(n, n) && i <= n
    ensures RowOffset(n, i) <= |mat|
    ensures RowStart(mat, n, i) == CountNonZero(mat[..RowOffset(n, i)])
  {
    if i == 0 {
      assert mat[..0] == [];
    } else {
      RowStartCountsOffset(mat, n, i - 1);
      RowFits(n, i - 1);
      var s := RowOffset(n, i - 1);
      assert RowOffset(n, i) == s + n;
      assert mat[..s + n] == mat[..s] + Row(mat, n, i - 1);
      CountNonZeroAppend(mat[..s], Row(mat, n, i - 1));
      RowStartStep(mat, n, i - 1);
    }
  }

  /** The builder's nnz, row_ptr[n], is the number of non-zero cells. */
  lemma {:induction false} BuildCountsNonZeros(mat: seq<real>, n: nat)
    requires |mat| == RowOffset(n, n)
    ensures ToCsr(mat, n).rowPtr[n] == |ToCsr(mat, n).values| == CountNonZero(mat)
  {
    RowStartCountsOffset(mat, n, n);
    assert mat[..RowOffset(n, n)] == mat;
  }

  /** Everything the builder promises about its output, for any value equal
      to it. */
  lemma {:induction false} BuildCorrect(c: CsrData, mat: seq<real>, n: nat)
    requires |mat| == RowOffset(n, n) && c == ToCsr(mat, n)
    ensures Represents(c, mat, n)
    ensures c.rowPtr[n] == |c.values| == |c.colIndices| == CountNonZero(mat)
  {
    BuildRepresents(mat, n);
    BuildCountsNonZeros(mat, n);
  }

  // ---------------------------------------------------------------------
  // The sparse product
  // ---------------------------------------------------------------------

  /** The sum over k of vals[k] * vec[cols[k]], accumulated in increasing k.
      An entry whose column falls outside `vec` adds nothing; a well-formed
      CSR matrix holds no such entry. */
  function SparseDot(vals: seq<real>, cols: seq<int>, vec: seq<real>): real
    requires |vals| == |cols|
  {
    if |vals| == 0 then 0.0
    else
      var m := |vals| - 1;
      SparseDot(vals[..m], cols[..m], vec) + (if 0 <= cols[m] < |vec| then vals[m] * vec[cols[m]] else 0.0)
  }

  /** Entry i of the CSR product: the sparse dot product over row i's slice. */
  function SpmvRow(c: CsrData, n: nat, vec: seq<real>, i: nat): real
    requires WellFormed(c, n) && n <= |vec| && i < n
  {
    var lo, hi := c.rowPtr[i], c.rowPtr[i + 1];
    SparseDot(c.values[lo..hi], c.colIndices[lo..hi], vec)
  }

  /** The CSR matrix-vector product, one entry per row. */
  function Spmv(c: CsrData, n: nat, vec: seq<real>): (r: seq<real>)
    requires WellFormed(c, n) && n <= |vec|
    ensures |r| == n
  {
    seq(n, i requires 0 <= i < n => SpmvRow(c, n, vec, i))
  }

  /** Appending one entry adds its product to the sparse dot product. */
  lemma {:induction false} SparseDotSnoc(vals: seq<real>, cols: seq<int>, vec: seq<real>, v: real, col: int)
    requires |vals| == |cols| && 0 <= col < |vec|
    ensures SparseDot(vals + [v], cols + [col], vec) == SparseDot(vals, cols, vec) + v * vec[col]
  {
    assert (vals + [v])[..|vals|] == vals;
    assert (cols + [col])[..|cols|] == cols;
  }

  /** A trailing zero cell is neither stored nor adds to the dense sum. */
  lemma {:induction false} DenseDotZeroLast(row: seq<real>, vec: seq<real>)
    requires 0 < |row| <= |vec| && row[|row| - 1] == 0.0
    ensures NonZeroValues(row) == NonZeroValues(row[..|row| - 1])
    ensures NonZeroCols(row) == NonZeroCols(row[..|row| - 1])
    ensures DenseDot(row, vec) == DenseDot(row[..|row| - 1], vec)
  {
  }

  /** A trailing non-zero cell is stored last and adds its product. */
  lemma {:induction false} DenseDotNonZeroLast(row: seq<real>, vec: seq<real>)
    requires 0 < |row| <= |vec| && row[|row| - 1] != 0.0
    ensures NonZeroValues(row) == NonZeroValues(row[..|row| - 1]) + [row[|row| - 1]]
    ensures NonZeroCols(row) == NonZeroCols(row[..|row| - 1]) + [|row| - 1]
    ensures DenseDot(row, vec) == DenseDot(row[..|row| - 1], vec) + row[|row| - 1] * vec[|row| - 1]
  {
  }

  /** On one row, summing the stored non-zeros gives the dense dot product:
      the skipped cells are zero and add nothing. */
  lemma {:induction false} RowDot(row: seq<real>, vec: seq<real>)
    requires |row| <= |vec|
    ensures SparseDot(NonZeroValues(row), NonZeroCols(row), vec) == DenseDot(row, vec)
  {
    if |row| > 0 {
      RowDot(row[..|row| - 1], vec);
      RowDotStep(row, vec);
    }
  }

  /** If the sparse and the dense sums agree on all but the last cell of a
      row, they agree on the whole row. */
  lemma {:induction false} RowDotStep(row: seq<real>, vec: seq<real>)
    requires 0 < |row| <= |vec|
    requires SparseDot(NonZeroValues(row[..|row| - 1]), NonZeroCols(row[..|row| - 1]), vec) == DenseDot(row[..|row| - 1], vec)
    ensures SparseDot(NonZeroValues(row), NonZeroCols(row), vec) == DenseDot(row, vec)
  {
    var m := |row| - 1;
    var p := row[..m];
    var vs, cs := NonZeroValues(p), NonZeroCols(p);
    if row[m] != 0.0 {
      DenseDotNonZeroLast(row, vec);
      assert NonZeroValues(row) == vs + [row[m]] && NonZeroCols(row) == cs + [m];
      SparseDotSnoc(vs, cs, vec, row[m], m);
    } else {
      DenseDotZeroLast(row, vec);
    }
  }

  /** Round trip: the CSR product of the builder's output equals the dense
      product, for every matrix and every vector. */
  lemma {:induction false} RoundTrip(mat: seq<real>, n: nat, vec: seq<real>)
    requires |mat| == RowOffset(n, n) && n <= |vec|
    ensures Spmv(ToCsr(mat, n), n, vec) == DenseProduct(mat, n, vec)
  {
    var c := ToCsr(mat, n);
    forall i | 0 <= i < n
      ensures Spmv(c, n, vec)[i] == DenseProduct(mat, n, vec)[i]
    {
      ToCsrFields(mat, n);
      CsrRowSlice(mat, n, i);
      RowDot(Row(mat, n, i), vec);
    }
  }

  /** An all-zero matrix (or n = 0) gives all-zero offsets, no stored
      entries, and a zero product for every vector, as does the dense
      product. */
  lemma {:induction false} AllZero(mat: seq<real>, n: nat, vec: seq<real>)
    requires |mat| == RowOffset(n, n) && n <= |vec|
    requires forall k :: 0 <= k < |mat| ==> mat[k] == 0.0
    ensures ToCsr(mat, n) == CsrData(seq(n + 1, _ => 0), [], [])
    ensures Spmv(ToCsr(mat, n), n, vec) == seq(n, _ => 0.0) == DenseProduct(mat, n, vec)
  {
    AllZeroBuild(mat, n);
    EmptyProduct(n, vec);
    ZeroDenseProduct(mat, n, vec);
  }

  /** A CSR matrix with no stored entries multiplies every vector to zero. */
  lemma {:induction false} EmptyProduct(n: nat, vec: seq<real>)
    requires n <= |vec|
    ensures WellFormed(CsrData(seq(n + 1, _ => 0), [], []), n)
    ensures Spmv(CsrData(seq(n + 1, _ => 0), [], []), n, vec) == seq(n, _ => 0.0)
  {
    var c := CsrData(seq(n + 1, _ => 0), [], []);
    forall i | 0 <= i < n ensures SpmvRow(c, n, vec, i) == 0.0 {
      assert c.values[c.rowPtr[i] .. c.rowPtr[i + 1]] == [];
    }
  }

  /** The builder half of AllZero. */
  lemma {:induction false} AllZeroBuild(mat: seq<real>, n: nat)
    requires |mat| == RowOffset(n, n)
    requires forall k :: 0 <= k < |mat| ==> mat[k] == 0.0
    ensures ToCsr(mat, n) == CsrData(seq(n + 1, _ => 0), [], [])
  {
    var c := ToCsr(mat, n);
    BuildCountsNonZeros(mat, n);
    CountNonZeroIsZero(mat);
    assert |c.values| == 0 && |c.colIndices| == 0;
    forall i | 0 <= i <= n ensures c.rowPtr[i] == 0 {
      assert c.rowPtr[i] <= c.rowPtr[n];
    }
    assert c.rowPtr == seq(n + 1, _ => 0);
  }

  /** The 1 x 1 matrix [5] is stored as offsets [0, 1], column [0] and value
      [5], and times the vector [2] gives [10]. */
  lemma {:induction false} OneByOne()
    ensures ToCsr([5.0], 1) == CsrData([0, 1], [0], [5.0])
    ensures Spmv(ToCsr([5.0], 1), 1, [2.0]) == [10.0]
  {
    var mat := [5.0];
    ToCsrFields(mat, 1);
    assert Row(mat, 1, 0) == mat;
    assert NonZeroValues(mat) == [5.0];
    assert NonZeroCols(mat) == [0];
    assert CsrValues(mat, 1, 1) == [5.0];
    assert CsrCols(mat, 1, 1) == [0];
    var c := ToCsr(mat, 1);
    assert c.rowPtr == [0, 1];
    assert c.values[0..1] == [5.0] && c.colIndices[0..1] == [0];
    assert [5.0][..0] == [] && [0][..0] == [];
    assert SparseDot([5.0], [0], [2.0]) == 10.0;
    assert SpmvRow(c, 1, [2.0], 0) == 10.0;
  }
}
