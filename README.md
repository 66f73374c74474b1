# CSR sparse matrix-vector product

This is a Dafny model of the compressed-sparse-row (CSR) layer of an HPC
benchmark that compares dense and sparse matrix-vector products. The layer
has two operations:

- `dense_to_csr` converts an n x n row-major dense matrix into a `CSRMatrix`.
  That record holds three heap arrays: `row_ptr` (n + 1 row offsets),
  `col_indices` and `values`.
  - The conversion runs in two passes over the cells with a running counter
    `nnz`.
  - The counting pass records where each row starts and how many non-zero
    cells the matrix has.
  - The two entry arrays are then allocated with exactly that many slots.
  - The filling pass scans the cells again, in the same order, and writes
    each non-zero value and its column to the next free slot.
- `my_sparse` multiplies a CSR matrix by a vector. For each row it zeroes
  `result[i]` and then accumulates `values[k] * vec[col_indices[k]]` over the
  row's slice `[row_ptr[i], row_ptr[i+1])`.

The project has three files:

- `dense.dfy`, module `Dense`:
  - the row-major layout, where row i starts at `RowOffset(n, i)` = i * n;
  - counting the non-zero cells;
  - the dense product. It stands for the reference result that the benchmark
    checks the sparse kernel against.
- `csr.dfy`, module `Csr`:
  - the CSR matrix as a value (`CsrData`);
  - its structural invariant (`WellFormed`);
  - what it means to store a given dense matrix (`Represents`);
  - the builder specified as a function (`ToCsr`);
  - the sparse product specified as a function (`Spmv`);
  - the lemmas connecting these. The central one, `RoundTrip`, says that the
    CSR product of the converted matrix equals the dense product.
- `my_sparse.dfy`, module `CsrImpl`:
  - the imperative code: a `CsrMatrix` class over three arrays;
  - the two passes of `dense_to_csr`, with their nested loops written as
    methods and proved against `ToCsr`;
  - the `my_sparse` kernel, proved against `Spmv`;
  - `SparseMatVec`, which is what the benchmark driver does: convert, then
    multiply. It is proved equal to the dense product.

Matrix elements are exact `real`s. "Non-zero" is therefore exact inequality
with 0, and every sum is exact.

## Model

| member | source | states |
|---|---|---|
| CsrImpl.CsrMatrix.constructor | spmv.h:6-10 | The record holds the three given arrays: row offsets, column indices and values. |
| CsrImpl.DenseToCsr | my_sparse.c:16-47 | Returns freshly allocated arrays whose contents are the CSR form `ToCsr` of the matrix. That CSR form represents the matrix. row_ptr[n], the length of values and the length of col_indices all equal the number of non-zero cells. |
| CsrImpl.CountPass | my_sparse.c:18-30 | row_ptr gets n + 1 entries. Entry i is the number of non-zero cells in the rows before i. The final counter, stored in row_ptr[n], is the number of non-zero cells in the whole matrix. |
| CsrImpl.CountRow | my_sparse.c:24-28 | The inner counting loop over row i adds exactly that row's non-zero count to the counter, which then equals the offset of row i + 1. |
| CsrImpl.RowBase | my_sparse.c:25 | The index i * n is where row i starts in the row-major buffer. |
| CsrImpl.FillPass | my_sparse.c:35-44 | With the arrays sized by the counting pass, it writes into values the non-zero cells of all rows, row after row, and into col_indices their columns. The invariant is that the counter equals the offset of row i (row_ptr[i]) when row i starts. |
| CsrImpl.FillRow | my_sparse.c:37-43 | The inner filling loop over row i appends that row's non-zero values and their columns after slot nnz0. It leaves the earlier slots unchanged, and every slot from the new counter on keeps its old content. |
| CsrImpl.FillCell | my_sparse.c:38-42 | One cell: a non-zero cell is written with its column to the next free slot and the counter moves on; a zero cell changes nothing. No slot from the new counter on is touched. |
| CsrImpl.MySparse | my_sparse.c:5-13 | For every row i < n, result[i] is the sparse dot product over row i's slice, i.e. entry i of `Spmv`. Entries of result from n on are unchanged. The return value is always 0. |
| CsrImpl.RowProduct | my_sparse.c:7-10 | result[i] is reset and then becomes the sum of values[k] * vec[col_indices[k]] over the slice. No other entry of result changes. |
| CsrImpl.SparseMatVec | spmv.c:125-174 | Converting the matrix and running the kernel yields the dense product mat * vec, which is the comparison the driver makes against its reference result. |
| CsrImpl.CsrMatrix.Model | spmv.h:6-10 | The record viewed as a value: the current contents of its three arrays, as a `CsrData`. |
| Csr.WellFormed | spmv.h:6-10 | The structural invariant of a CSR matrix of dimension n: n + 1 row offsets starting at 0 and never decreasing, the last equal to the number of stored entries, and every column in [0, n). |
| Csr.Represents | my_sparse.c:16-47 | What the conversion must produce from an n x n matrix: a well-formed CSR matrix in which every row is stored in its own slice. |
| Csr.RowRepresented | my_sparse.c:36-44 | Row i is stored in the slice [row_ptr[i], row_ptr[i+1]): as many entries as the row has non-zero cells, each non-zero and equal to the cell it names, columns strictly increasing, and no non-zero cell missing. |
| Csr.RowStart | my_sparse.c:19-28 | The counter nnz when a pass reaches row i: the number of non-zero cells in rows 0 .. i-1. It never exceeds the i * n cells scanned so far. |
| Csr.SparseDot | my_sparse.c:8-9 | The sum of values[k] * vec[col_indices[k]] over a slice, accumulated in increasing k. |
| Csr.SpmvRow | my_sparse.c:7-10 | result[i]: the sparse dot product over row i's slice, starting from 0. |
| Csr.ToCsr | my_sparse.c:16-47 | The builder's output is well formed: n + 1 offsets starting at 0 and never decreasing, the last offset equal to the number of entries, and every column in [0, n). |
| Csr.BuildCorrect | my_sparse.c:16-47 | The builder's output represents the matrix, and row_ptr[n] = length of values = length of col_indices = number of non-zero cells. |
| Csr.BuildRepresents | my_sparse.c:36-44 | Every row of the matrix is stored in its own slice of the builder's output. |
| Csr.BuildRow | my_sparse.c:36-44 | In row i's slice: the length equals the row's non-zero count; each entry is non-zero and equals the cell it names; the columns strictly increase; and every non-zero cell of the row appears. Together these mean each non-zero cell is stored exactly once. |
| Csr.CsrRowSlice | my_sparse.c:22-29 | When the filling pass reaches row i its counter equals row i's offset. So row i's non-zero values and columns occupy exactly the slice from row i's offset to row i + 1's. |
| Csr.FillSlotInRange | my_sparse.c:32-42 | While row i is being filled, the next free slot is still inside the arrays sized by the counting pass. |
| Csr.RowStartMonotone | my_sparse.c:22-29 | Row offsets never decrease. |
| Csr.RowStartStep | my_sparse.c:22-28 | The offset of row i + 1 is the offset of row i plus row i's non-zero count. |
| Csr.RowStartCountsPrefix | my_sparse.c:22-30 | Row i's offset is the number of non-zero cells among the first i * n cells in row-major order. |
| Csr.RowStartCountsOffset | my_sparse.c:22-30 | The same as RowStartCountsPrefix, with i * n written as RowOffset. |
| Csr.BuildCountsNonZeros | my_sparse.c:30-33 | row_ptr[n] and the length of values both equal the number of non-zero cells in the matrix. |
| Csr.AllZeroBuild | my_sparse.c:22-33 | An all-zero matrix, or n = 0, gives an all-zero row_ptr and empty values and col_indices. |
| Csr.AllZero | my_sparse.c:5-47 | An all-zero matrix gives an all-zero row_ptr, no stored entries, and a zero product for every vector, equal to the dense product. |
| Csr.EmptyProduct | my_sparse.c:5-13 | A well-formed CSR matrix with no stored entries multiplies every vector to zero, because every row's accumulator stays at 0. |
| Csr.OneByOne | my_sparse.c:5-47 | The 1 x 1 matrix [5] converts to offsets [0, 1], column [0] and value [5], and times [2] it gives [10]. |
| Csr.CsrColsRange | my_sparse.c:40 | Every column the builder stores lies in [0, n). |
| Csr.CsrStep | my_sparse.c:36-44 | Scanning row i appends that row's non-zero values and columns to the entries stored so far. |
| Csr.CsrValuesPrefix | my_sparse.c:36-44 | The values written up to row a are never overwritten later: they are a prefix of those written up to any later row b. |
| Csr.CsrColsPrefix | my_sparse.c:36-44 | The same for the columns. |
| Csr.OffsetsStep | my_sparse.c:22-23 | The offsets recorded up to row i, followed by row i's own, are the offsets up to row i + 1. |
| Csr.ToCsrFields | my_sparse.c:16-47 | The builder's output, field by field: row_ptr[i] is row i's offset; values and col_indices are the rows' non-zero values and columns, concatenated. |
| Csr.NonZeroColsRange | my_sparse.c:38-40 | Every column recorded for a row is in range and names a non-zero cell of that row. |
| Csr.NonZeroColsIncreasing | my_sparse.c:37-42 | The columns recorded for a row strictly increase, because the inner loop scans j upwards. |
| Csr.NonZeroValuesAt | my_sparse.c:38-40 | The t-th value recorded for a row is the cell named by the t-th recorded column. |
| Csr.NonZeroColsComplete | my_sparse.c:37-42 | No non-zero cell of a row is skipped. |
| Csr.PrefixStep | my_sparse.c:24-27 | Extending the scan of a row by one cell grows the count, the values and the columns by that cell exactly when it is non-zero. |
| Csr.FillStep | my_sparse.c:38-42 | If the arrays hold the entries for the scanned part of the row, then after one more cell (appended if non-zero, skipped if zero) they hold the entries for the longer part. |
| Csr.SliceHoldsRow | my_sparse.c:36-44 | A slice holding a row's non-zero values and columns stores only that row's non-zero cells, in strictly increasing columns, and misses none of them. |
| Csr.SliceEntry | my_sparse.c:38-40 | One entry of such a slice: its column is in range, and its value is non-zero and equals the cell it names. |
| Csr.SparseDotSnoc | my_sparse.c:9 | Each iteration of the accumulation adds values[k] * vec[col_indices[k]] to the running sum. |
| Csr.DenseDotZeroLast | my_sparse.c:38 | A trailing zero cell is neither stored nor adds anything to the dense sum. |
| Csr.DenseDotNonZeroLast | my_sparse.c:38-41 | A trailing non-zero cell is stored last, with its column, and adds its product to the dense sum. |
| Csr.RowDotStep | my_sparse.c:8-9 | If the sparse and dense sums agree on all but a row's last cell, they agree on the whole row. |
| Csr.RowDot | my_sparse.c:8-9 | For every row, summing the stored non-zeros against the vector gives the dense dot product, because the skipped cells are zero. |
| Csr.RoundTrip | my_sparse.c:5-47 | The CSR product of the builder's output equals the dense product, for every matrix and every vector. |
| Csr.NonZeroValues | my_sparse.c:38-41 | A row contributes as many values as it has non-zero cells. |
| Csr.NonZeroCols | my_sparse.c:38-41 | A row contributes as many columns as it has non-zero cells. |
| Csr.CsrValues | my_sparse.c:36-44 | After rows 0 .. i-1 the filling pass has written exactly as many values as row i's offset. |
| Csr.CsrCols | my_sparse.c:36-44 | The same for the columns. |
| Csr.Offsets | my_sparse.c:18-30 | row_ptr has n + 1 entries. |
| Csr.Spmv | my_sparse.c:5-13 | The CSR product has one entry per row. |
| Dense.RowOffset | my_sparse.c:25 | The index i * n at which row i starts in the row-major buffer. |
| Dense.DenseDot | spmv.c:98 | One row of the reference product: the sum over j of row[j] * vec[j]. |
| Dense.RowOffsetIsProduct | my_sparse.c:25 | The row offset written as repeated addition equals the index i * n that the C code computes. |
| Dense.RowFits | my_sparse.c:24-25 | Row i (i < n) lies inside the n * n buffer. |
| Dense.Row | my_sparse.c:24-25 | A row of the matrix has n cells. |
| Dense.CountNonZero | my_sparse.c:24-28 | A count of non-zero cells never exceeds the number of cells, so nnz <= n * n. |
| Dense.CountNonZeroIsZero | my_sparse.c:30-33 | The count is 0 exactly when every cell is zero. This holds in both directions. |
| Dense.CountNonZeroAppend | my_sparse.c:22-29 | Counting is additive over consecutive stretches of cells. This is why the counter's total is the sum of the per-row counts. |
| Dense.CountNonZeroPrefix | my_sparse.c:36-43 | Counting part of a row never gives more than counting the whole row. |
| Dense.DenseProduct | spmv.c:98 | The dense product has n entries. |
| Dense.DenseDotZero | spmv.c:98 | A zero row contributes 0 to the dense product, whatever the vector. |
| Dense.ZeroDenseProduct | spmv.c:98 | The dense product of an all-zero matrix is the zero vector. |

## Left out

- `free_csr` (my_sparse.c:49-54) and the four `malloc` calls, with their possible failure: Dafny allocates arrays with `new` and reclaims them by garbage collection. `DenseToCsr` states that the arrays it returns are fresh.
- Floating point: `double` is modelled as exact `real`. IEEE-754 rounding and the dependence of the sum on accumulation order have no counterpart. The special values are lost as well:
  - a NaN cell passes the `!= 0` test at my_sparse.c:25 and 38, so the C code stores it;
  - `-0.0` compares equal to 0, so it is skipped;
  - an infinity or NaN in `vec` can make the dense and sparse sums differ even without rounding, because a skipped zero cell times an infinite entry is NaN in the dense sum.

  `RoundTrip` therefore describes the C code only for finite inputs, and then only up to rounding. The tolerance comparison `check_result`/`is_nearly_equal` (spmv.c:44-59) is replaced by exact equality in `RoundTrip` and `SparseMatVec`.
- Integer widths: `nnz`, `row_ptr` and `col_indices` are C `int`, and `i * n` and `n + 1` are `unsigned int`. The model uses unbounded integers, so it does not capture overflow for matrices with more than `INT_MAX` non-zero cells or with `n * n` beyond the `unsigned` range. The counts are at most n * n (`Dense.CountNonZero`).
- `my_dense` is not part of this model, because its source is not available. `cblas_dgemv` (spmv.c:98) is a foreign library call. `Dense.DenseProduct` stands in for both, as the exact dense product.
- The GSL comparison path (spmv.c:129-163): foreign library calls.
- `populate_sparse_matrix` and `populate_vector` (spmv.c:14-42): pseudorandom input generation. The model quantifies over all matrices and vectors instead.
- `main`, its argument parsing, `printf` output and the timers: I/O and wall-clock time.
- Csr.SparseDot: the specification sum is total, so an entry whose column falls outside the vector adds 0. A well-formed CSR matrix holds no such entry, and `MySparse` requires a well-formed matrix. The C code would read out of bounds in that case.
- CsrImpl.MySparse: the C code dereferences whatever `CSRMatrix` it is given. The model requires it to be well formed (`WellFormed`), which every matrix built by `DenseToCsr` is.
- CsrImpl.MySparse: requires `result` to be a different array from `vec` and from `csr.values`. The C kernel does not check this: if they alias, writing `result[i]` changes the inputs of later rows, and the model does not cover that case.
- CsrImpl.RowProduct: requires the same separation of `result` from `vec` and `values`, for the same reason.
- CsrImpl.FillPass: requires the entry arrays to be different from `mat`. This always holds, because `DenseToCsr` allocates them fresh, as the C code does with `malloc`.
- CsrImpl.SparseMatVec: requires `result` to be a different array from `mat` and from `vec`. In the driver it is a separate buffer, `mysol` (spmv.c:169).
