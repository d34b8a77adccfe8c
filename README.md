# amgcl block adapter and runtime direct solver, in Dafny

This project models two pieces of amgcl.

**The block-matrix adapter.** `block_matrix_adapter` shows a scalar sparse
matrix as a matrix of dense B×B blocks. It does not build a new matrix.

- The scalar matrix is a sequence of rows. Each row is a sequence of
  (column, value) entries (`ScalarMatrix`). A well-formed matrix has
  strictly increasing columns in each row, all inside its column count.
- The adapter is a value (`BlockMatrixAdapter.Adapter`). Its subset type
  `BlockAdapter` carries the constructor's check that B divides both
  dimensions.
- The row iterator is a class, `BlockMatrixAdapter.RowIterator`. It holds an
  `array<nat>` of B cursor positions, one per scalar row of the block row.
  - `col()`, `value()`, `operator bool` and `operator++` are methods with
    loops.
  - Each method is proved against a function on the entries the cursors
    have not consumed yet. Those functions are in the module `BlockMerge`:
    `CurCol`, `BlockValue`, `AnyLeft` and `Step`.
  - `BlockMerge.Blocks` is the whole sequence of blocks one block row emits.
  - On sorted rows the lemmas prove three things. The block columns
    strictly increase. Each `++` consumes at least one entry. The blocks
    hold exactly the scalar entries of the B rows.

**The runtime direct solver.** `runtime::mpi::direct::solver` picks one
distributed direct solver when the program runs (`DirectSolverRuntime`).

- The `type` enum is modelled by its integer values. Which enumerators
  exist depends on the `AMGCL_HAVE_EIGEN` and `AMGCL_HAVE_PASTIX` build
  flags. What a missing `"type"` does depends on the `AMGCL_PARAM_MISSING`
  macro, which the user may define. Its definition is in amgcl/util.hpp,
  which is not part of this model. The model therefore treats it as a
  third build choice, `missingRaises`: either the macro raises an error, or
  the constructor goes on. All three choices are a `BuildConfig` parameter,
  so every proof covers all eight builds.
- `operator<<` and `operator>>` are `Print` and `Parse`. They are proved to
  be inverse on the compiled enumerators, and the error message is proved
  to list exactly those enumerators.
- The `solver` class reads and erases `"type"` and builds the back-end for
  that tag. Its call and its destructor each have their own switch on the
  same stored tag, and each case names a back-end class (`BackendType`).
  The back-ends are opaque values that record their class and the
  parameters they received. Building one can throw, and the solver passes
  that error on unchanged; what the build throws, if anything, is a
  parameter (`fault`).
- Reading `"type"` follows the parameter tree's conversion. The value is
  read with `operator>>`. If anything other than white space follows the
  word, the conversion fails and the default skyline_lu is used.

`nonzeros()` returns the scalar nonzero count divided by B·B, and the code
calls it an estimate. On a well-formed matrix it is a lower bound on the
number of blocks the adapter emits (`BlockMatrixAdapter.NonzerosIsLowerBound`),
because each block holds at most B·B scalar entries. So it never exceeds the
true count, and equals it only when every emitted block holds B·B entries.

## Model

| member | source | states |
|---|---|---|
| BlockMatrixAdapter.BlockMatrix | amgcl/adapter/block_matrix.hpp:47-53 | construction succeeds iff B divides the row count and the column count; the adapter wraps the given matrix and B; otherwise it fails with "Matrix size is not divisible by block size!" |
| BlockMatrixAdapter.Rows | amgcl/adapter/block_matrix.hpp:55-57 | the block row count times B is exactly the scalar row count |
| BlockMatrixAdapter.Cols | amgcl/adapter/block_matrix.hpp:59-61 | the block column count times B is exactly the scalar column count |
| BlockMatrixAdapter.Nonzeros | amgcl/adapter/block_matrix.hpp:63-66 | the result is the scalar nonzero count divided by B·B, rounded down: r·B² ≤ nnz < (r+1)·B² |
| BlockMatrixAdapter.NonzerosIsLowerBound | amgcl/adapter/block_matrix.hpp:63-66 | on a well-formed matrix the estimate never exceeds the number of blocks the iterators emit over all block rows |
| BlockMatrixAdapter.ChunkBlocksFrom | amgcl/adapter/block_matrix.hpp:75-78 | from scalar row i·B on, the consecutive chunks of B scalar rows are exactly the block rows i, i+1, …, so their block counts agree |
| BlockMatrixAdapter.BlockCountByRows | amgcl/adapter/block_matrix.hpp:75-78 | the block count of the whole matrix is the sum, over block rows i, of the blocks row_begin(i) emits |
| BlockMatrixAdapter.NonzerosBelowBlockRows | amgcl/adapter/block_matrix.hpp:63-78 | on a well-formed matrix the estimate never exceeds the sum over block rows i of the number of blocks ReadBlockRow(i) returns |
| BlockMatrixAdapter.StartRows | amgcl/adapter/block_matrix.hpp:75-78 | block row i has B scalar rows; row k is scalar row i·B+k, which exists |
| BlockMatrixAdapter.RowIterator.constructor | amgcl/adapter/block_matrix.hpp:75-78 | the new iterator has one cursor at the first entry of each scalar row i·B+k, for k below B |
| BlockMatrixAdapter.RowIterator.HasMore | amgcl/adapter/block_matrix.hpp:80-84 | true iff some cursor still has an entry |
| BlockMatrixAdapter.RowIterator.Col | amgcl/adapter/block_matrix.hpp:98-112 | the smallest block column over the cursors that have an entry, or 0 when none has; the iterator is unchanged |
| BlockMatrixAdapter.RowIterator.RunEnd | amgcl/adapter/block_matrix.hpp:90-92 | a cursor's run in block column c ends where its first entry outside c is, or at the row's end |
| BlockMatrixAdapter.RowIterator.BlockLine | amgcl/adapter/block_matrix.hpp:119-121 | row i of the block is filled from a copy of cursor i: each entry of its run writes its value at column mod B, and everything else is zero |
| BlockMatrixAdapter.RowIterator.Value | amgcl/adapter/block_matrix.hpp:114-125 | the B×B block at the current block column, built from copies of the cursors; the iterator is unchanged |
| BlockMatrixAdapter.RowIterator.Next | amgcl/adapter/block_matrix.hpp:86-96 | each cursor moves past its entries in the current block column and nothing else changes; if the iterator was valid, at least one entry is consumed; on sorted rows the next block column is strictly greater |
| BlockMatrixAdapter.RowBegin | amgcl/adapter/block_matrix.hpp:128-130 | returns a fresh iterator whose cursors start at the rows of block row i |
| BlockMatrixAdapter.ReadBlockRow | amgcl/adapter/block_matrix.hpp:80-130 | a client loop over row_begin(i) that reads col() and value() and calls ++ while the iterator is valid collects exactly the blocks of block row i |
| BlockMatrixAdapter.EntryInBlock | amgcl/adapter/block_matrix.hpp:114-125 | on a well-formed matrix, the entry at position m of scalar row i·B+k lies in an emitted block whose column is its column divided by B, at row k and column mod B of that block's value |
| BlockMatrixAdapter.BlockRowOrdered | amgcl/adapter/block_matrix.hpp:86-112 | on a well-formed matrix the block columns of one block row strictly increase |
| BlockMatrixAdapter.BlockRowInside | amgcl/adapter/block_matrix.hpp:59-61 | on a well-formed matrix every emitted block column is below cols() |
| BlockMatrixAdapter.BlockRowValues | amgcl/adapter/block_matrix.hpp:114-125 | position (k, j) of the block at block column c holds the scalar of row i·B+k at column c·B+j, or zero where none is stored |
| BlockMatrixAdapter.BlockRowCovers | amgcl/adapter/block_matrix.hpp:86-96 | every scalar entry of the B rows lies in an emitted block; with the ordering, that block is the only one of its column |
| BlockMerge.MinHead | amgcl/adapter/block_matrix.hpp:98-112 | None iff no cursor has an entry; otherwise a block column that some cursor's head has, and no head's block column is smaller |
| BlockMerge.RunLength | amgcl/adapter/block_matrix.hpp:90-92 | the length of the longest prefix of the row whose entries lie in block column c |
| BlockMerge.StepRow | amgcl/adapter/block_matrix.hpp:86-96 | on sorted rows, `++` drops from each row exactly its leading run in the current block column; what is left stays sorted and lies in greater block columns |
| BlockMerge.StepProgress | amgcl/adapter/block_matrix.hpp:86-96 | while some cursor has an entry, `++` strictly lowers the number of entries left; on sorted rows the next block column is strictly greater |
| BlockMerge.NextColIncreases | amgcl/adapter/block_matrix.hpp:86-112 | on sorted rows, if entries remain after `++`, the next block column is strictly greater |
| BlockMerge.BlockSource | amgcl/adapter/block_matrix.hpp:98-112 | every emitted block column is the block column of some scalar entry of the B rows |
| BlockMerge.BlocksOrdered | amgcl/adapter/block_matrix.hpp:86-112 | on sorted rows, an earlier block has a strictly smaller block column than a later one |
| BlockMerge.BlockOfEntry | amgcl/adapter/block_matrix.hpp:86-96 | every scalar entry's block column is the column of some emitted block, whose index is returned |
| BlockMerge.BlockEntryAt | amgcl/adapter/block_matrix.hpp:114-125 | on sorted rows, position (k, j) of an emitted block holds the scalar of row k at column col·B+j, or zero |
| BlockMerge.FillAt | amgcl/adapter/block_matrix.hpp:118-121 | filling from a sorted run inside block column c puts at j the scalar at column c·B+j, or zero |
| BlockMerge.RunAtMostB | amgcl/adapter/block_matrix.hpp:90-92 | a sorted row has at most B entries in one block column |
| BlockMerge.EntriesPerBlock | amgcl/adapter/block_matrix.hpp:63-66 | on sorted rows there are at most B·B scalar entries per emitted block |
| DirectSolverRuntime.Enumerators | amgcl/mpi/direct_solver/runtime.hpp:48-57 | skyline_lu is always the first enumerator; an enumerator exists iff its build flag is set; none appears twice |
| DirectSolverRuntime.Code | amgcl/mpi/direct_solver/runtime.hpp:48-57 | an enumerator's integer value is its position among the compiled enumerators |
| DirectSolverRuntime.CaseOf | amgcl/mpi/direct_solver/runtime.hpp:61-76 | a value matches a case label iff it is the value of a compiled enumerator, and then that enumerator's label |
| DirectSolverRuntime.Print | amgcl/mpi/direct_solver/runtime.hpp:59-77 | a compiled enumerator prints as its own name; any other value prints "???" |
| DirectSolverRuntime.PrintInjective | amgcl/mpi/direct_solver/runtime.hpp:59-77 | two values print the same and one of them is an enumerator only if they are equal |
| DirectSolverRuntime.SkipSpace | amgcl/mpi/direct_solver/runtime.hpp:81-82 | drops exactly the leading white space |
| DirectSolverRuntime.TakeWord | amgcl/mpi/direct_solver/runtime.hpp:81-82 | the longest prefix without white space |
| DirectSolverRuntime.FirstWordOf | amgcl/mpi/direct_solver/runtime.hpp:81-82 | the word read from leading space, a word and then space or the end is that word |
| DirectSolverRuntime.AfterWord | amgcl/mpi/direct_solver/runtime.hpp:81-82 | what the stream still holds after the word is a suffix of the input, and it is empty or starts with white space |
| DirectSolverRuntime.AfterWordOf | amgcl/mpi/direct_solver/runtime.hpp:81-82 | after reading a word with white space before it, the stream holds exactly what followed the word |
| DirectSolverRuntime.Lookup | amgcl/mpi/direct_solver/runtime.hpp:84-95 | finds a compiled enumerator with the given name, and fails iff no compiled enumerator has that name |
| DirectSolverRuntime.Parse | amgcl/mpi/direct_solver/runtime.hpp:79-109 | succeeds with an enumerator whose name is the word read; fails with the invalid-value message iff no compiled enumerator has that name |
| DirectSolverRuntime.InvalidValueMessageLists | amgcl/mpi/direct_solver/runtime.hpp:96-106 | the message lists the names of exactly the compiled enumerators, in declaration order, separated by ", " and ended by "." |
| DirectSolverRuntime.ParseName | amgcl/mpi/direct_solver/runtime.hpp:84-95 | reading a compiled enumerator's name gives that enumerator |
| DirectSolverRuntime.PrintParse | amgcl/mpi/direct_solver/runtime.hpp:59-95 | parsing what a compiled enumerator prints gives that enumerator back |
| DirectSolverRuntime.ParsePrint | amgcl/mpi/direct_solver/runtime.hpp:59-95 | printing a parsed value gives the word that was read |
| DirectSolverRuntime.ParseRejectsAbsent | amgcl/mpi/direct_solver/runtime.hpp:86-106 | the name of an enumerator that is not compiled in is rejected with the invalid-value message |
| DirectSolverRuntime.ReadType | amgcl/mpi/direct_solver/runtime.hpp:118 | without "type" the result is skyline_lu; with it, it fails iff the first word is not a compiled name, with the invalid-value message; the parsed tag when only white space follows the word, skyline_lu when other text follows; a success always has a case label |
| DirectSolverRuntime.ReadTypeName | amgcl/mpi/direct_solver/runtime.hpp:118 | a compiled name with only white space around it gives that enumerator |
| DirectSolverRuntime.ReadTypeTrailingText | amgcl/mpi/direct_solver/runtime.hpp:118 | a compiled name followed by white space and then other text gives the default skyline_lu |
| DirectSolverRuntime.Configure | amgcl/mpi/direct_solver/runtime.hpp:117-120 | succeeds iff the type is read and either "type" is present or a missing parameter does not raise; an invalid name gives the invalid-value error; a missing key gives the missing-parameter error when the macro raises, otherwise skyline_lu with the parameters unchanged; the forwarded parameters are the given ones without "type" |
| DirectSolverRuntime.Construct | amgcl/mpi/direct_solver/runtime.hpp:122-153 | builds a back-end iff the tag matches a case label and building it does not throw; the back-end is of the class that label's case names and gets the parameters; with no case label, "Unsupported direct solver type" before anything is built; otherwise the back-end's own error, unchanged |
| DirectSolverRuntime.ConfiguredTagConstructs | amgcl/mpi/direct_solver/runtime.hpp:118-153 | a tag read from the parameters always matches a case label, so the constructor's default label is never reached: the switch fails iff the back-end throws, and then with that error |
| DirectSolverRuntime.Dispatch | amgcl/mpi/direct_solver/runtime.hpp:156-190 | the call's own switch casts the handle, unchanged, to the class its case for the tag names iff there is such a case; otherwise "Unsupported direct solver type" |
| DirectSolverRuntime.Destroy | amgcl/mpi/direct_solver/runtime.hpp:192-225 | the destructor's own switch deletes through the class its case for the tag names iff there is such a case; otherwise nothing is deleted |
| DirectSolverRuntime.LabelInjective | amgcl/mpi/direct_solver/runtime.hpp:122-225 | no two back-end classes are named by the case of the same enumerator |
| DirectSolverRuntime.DispatchMatchesConstruct | amgcl/mpi/direct_solver/runtime.hpp:122-225 | a back-end built for a tag is cast back to the class it was allocated as on every call, and deleted through that class |
| DirectSolverRuntime.UnmatchedTag | amgcl/mpi/direct_solver/runtime.hpp:151-152 | a tag with no case label fails in the constructor, whatever building a back-end would do, and in the call, and is a no-op in the destructor |
| DirectSolverRuntime.Solver.constructor | amgcl/mpi/direct_solver/runtime.hpp:227-228 | given a tag with a case label and a back-end of the class that case names, stores the build, the tag and the handle, and the solver is valid |
| DirectSolverRuntime.Solver.Create | amgcl/mpi/direct_solver/runtime.hpp:116-154 | succeeds iff reading the parameters (Configure) succeeds and building the back-end does not throw; a reading error is returned as is, and otherwise the back-end's error unchanged; the new solver is valid, keeps the tag read and holds the back-end built from the parameters without "type" |
| DirectSolverRuntime.Solver.Apply | amgcl/mpi/direct_solver/runtime.hpp:156-190 | fails with "Unsupported direct solver type" iff the stored tag has no case; otherwise casts the handle to the class its case names; on a valid solver that is the handle's own class; changes nothing |
| DirectSolverRuntime.Solver.Release | amgcl/mpi/direct_solver/runtime.hpp:192-225 | deletes through the class the stored tag's case names, which on a valid solver is the handle's own class, and then drops the handle; on the default label the handle stays; validity is kept |

## Left out

- The `backend::` trait specialisations for the adapter (amgcl/adapter/block_matrix.hpp:141-202) only forward to the members modelled here.
- amgcl/make_block_solver.hpp is not part of this model. Its own logic reinterprets scalar buffers as block buffers, which is a memory-layout cast.
- examples/nonscalar.cpp is not part of this model. It is a driver: file input, command-line options and profiling.
- Floating point: matrix and block values are integers, and a block is a `seq<seq<int>>` with zero for "nothing stored".
- The scalar row cursor (`backend::row_iterator`) is an index into a row of the scalar matrix. Other scalar matrix formats are not modelled.
- `size_t` and `ptrdiff_t` widths: indices are unbounded, and overflow of `row * BlockSize + i` is not modelled.
- BlockMatrixAdapter.RowIterator.constructor: requires the block row to exist. The source does not check this, and reading rows past the end is undefined there.
- The `shared_ptr` cursors of `row_iterator` are one array of positions. Copying an iterator, which shares the cursors in the source, is not modelled.
- The back-end solvers, the MPI communicator, the matrix argument and the solve itself are opaque. A back-end is a value that records its type and the parameters it received, and a call records the type the handle is cast to. Whether building a back-end throws, and what, is the `fault` parameter of `Construct` and `Solver.Create`; why it throws is not modelled.
- `void*` handle mechanics: the handle is an `Option<Backend>`. Deletion is modelled by dropping it.
- The parameter tree is a map from top-level keys to strings. Nested keys and repeated keys are not modelled. The conversion of a value is `operator>>` on the first white-space-delimited word, followed by the check that only white space is left; the stream's own flags are not modelled.
- The constructor's default argument `params()` is the empty map; it is covered because every contract holds for any map.
- AMGCL_PARAM_MISSING: the model assumes the macro either raises `MissingParameter("type")` or does nothing. A user definition that does something else is not modelled.
- DirectSolverRuntime.Solver.Create: does not return an error from the constructor's default label. ConfiguredTagConstructs proves that label cannot be reached from a parsed tag.
- The build flags and the missing-parameter choice are a `BuildConfig` parameter instead of preprocessor constants, so one proof covers all eight builds.
