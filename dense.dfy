/** The dense side of the benchmark: an n x n matrix stored row-major in a flat
    sequence of n*n reals, the count of its non-zero cells, and the dense
    matrix-vector product that the sparse kernel is compared against. Element
    values are exact reals, so "non-zero" is exact inequality with 0 and sums
    are exact. */
module Dense {

  /** Where row i starts in an n x n row-major buffer: i * n, written as
      repeated addition so that proofs about it stay linear. */
  function RowOffset(n: nat, i: nat): nat
  {
    if i == 0 then 0 else RowOffset(n, i - 1) + n
  }

  /** RowOffset is the product i * n. */
  lemma {:induction false} RowOffsetIsProduct(n: nat, i: nat)
    ensures RowOffset(n, i) == i * n
  {
    if i > 0 {
      RowOffsetIsProduct(n, i - 1);
      assert i * n == (i - 1) * n + n;
    }
  }

  /** Row i of an n x n row-major matrix ends inside the buffer. */
  lemma {:induction false} RowFits(n: nat, i: nat)
    requires i < n
    ensures RowOffset(n, i) + n <= RowOffset(n, n)
    decreases n - i
  {
    if i + 1 < n {
      RowFits(n, i + 1);
    }
  }

  /** Row i of the row-major matrix `mat`: the cells mat[i*n .. i*n+n). */
  function Row(mat: seq<real>, n: nat, i: nat): (row: seq<real>)
    requires |mat| == RowOffset(n, n) && i < n
    ensures |row| == n
  {
    RowFits(n, i);
    mat[RowOffset(n, i) .. RowOffset(n, i) + n]
  }

  /** The number of cells of `s` that are not exactly zero. */
  function CountNonZero(s: seq<real>): (c: nat)
    ensures c <= |s|
  {
    if |s| == 0 then 0
    else CountNonZero(s[..|s| - 1]) + (if s[|s| - 1] != 0.0 then 1 else 0)
  }

  /** The count is zero exactly when every cell is zero. */
  lemma {:induction false} CountNonZeroIsZero(s: seq<real>)
    ensures CountNonZero(s) == 0 <==> forall k :: 0 <= k < |s| ==> s[k] == 0.0
  {
    if |s| > 0 {
      var p := s[..|s| - 1];
      CountNonZeroIsZero(p);
      assert forall k :: 0 <= k < |p| ==> p[k] == s[k];
    }
  }

  /** Counting is additive over concatenation. */
  lemma {:induction false} CountNonZeroAppend(a: seq<real>, b: seq<real>)
    ensures CountNonZero(a + b) == CountNonZero(a) + CountNonZero(b)
  {
    if |b| > 0 {
      var b' := b[..|b| - 1];
      assert (a + b)[..|a + b| - 1] == a + b';
      CountNonZeroAppend(a, b');
    } else {
      assert a + b == a;
    }
  }

  /** Counting a prefix never gives more than counting the whole. */
  lemma {:induction false} CountNonZeroPrefix(s: seq<real>, j: nat)
    requires j <= |s|
    ensures CountNonZero(s[..j]) <= CountNonZero(s)
  {
    assert s == s[..j] + s[j..];
    CountNonZeroAppend(s[..j], s[j..]);
  }

  /** The dot product of `row` with the first |row| entries of `vec`, summed
      left to right. */
  function DenseDot(row: seq<real>, vec: seq<real>): real
    requires |row| <= |vec|
  {
    if |row| == 0 then 0.0
    else DenseDot(row[..|row| - 1], vec) + row[|row| - 1] * vec[|row| - 1]
  }

  /** A zero row contributes nothing, whatever the vector. */
  lemma {:induction false} DenseDotZero(row: seq<real>, vec: seq<real>)
    requires |row| <= |vec|
    requires forall j :: 0 <= j < |row| ==> row[j] == 0.0
    ensures DenseDot(row, vec) == 0.0
  {
    if |row| > 0 {
      DenseDotZero(row[..|row| - 1], vec);
    }
  }

  /** The dense product mat * vec: entry i is the sum over j of
      mat[i*n+j] * vec[j]. It stands for the reference result the sparse
      kernel is checked against. */
  function DenseProduct(mat: seq<real>, n: nat, vec: seq<real>): (r: seq<real>)
    requires |mat| == RowOffset(n, n) && n <= |vec|
    ensures |r| == n
  {
    seq(n, i requires 0 <= i < n => DenseDot(Row(mat, n, i), vec))
  }

  /** The dense product of an all-zero matrix is the zero vector. */
  lemma {:induction false} ZeroDenseProduct(mat: seq<real>, n: nat, vec: seq<real>)
    requires |mat| == RowOffset(n, n) && n <= |vec|
    requires forall k :: 0 <= k < |mat| ==> mat[k] == 0.0
    ensures DenseProduct(mat, n, vec) == seq(n, _ => 0.0)
  {
    forall i | 0 <= i < n ensures DenseProduct(mat, n, vec)[i] == 0.0 {
      RowFits(n, i);
      DenseDotZero(Row(mat, n, i), vec);
    }
  }
}
