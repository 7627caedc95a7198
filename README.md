# Online array: a verified model of lazy array indexing and `fill_array`

The online array looks like a multidimensional numpy array but stores no
data. Each element is computed on demand by a coordinate function. Indexing
the array either returns a narrower array or evaluates the function:

- a narrower array keeps the function and remembers the coordinates fixed
  so far (its `parameters`) and the number of axes still open (its
  `dimensions`);
- evaluating the function passes it all the coordinates.

Two revisions of the indexing code are modelled:

- `OnlineArray` (`online_array/online_array.py`) accepts scalars and
  tuples. A tuple shorter than the open axes narrows the array by all of
  its coordinates at once.
- `OnlineMatrix` (`online_matrix/online_matrix.py`) is the older revision.
  A tuple always goes straight to the function.

The utility `fill_array` (`online_array/utils.py`) walks every coordinate
of a real array depth first and writes the function's value into each cell.
It is modelled as a recursive method over a flat Dafny `array`. The array
is laid out in row-major order, as a C-contiguous numpy array is.

Files:

- `views.dfy`: the shared values. These are the coordinate function (`Fn`,
  an arity plus a map from coordinate tuples to values), the array record
  (`View`), the index kinds (`Index`), the outcome of one subscription
  (`Result`), Python's call and `s[n:]` (`Apply`, `Drop`), and the
  bookkeeping invariant `Wellformed`.
- `online_array.dfy`: `_make_sub_array`, `__getitem__` and `online_array`
  of the current revision. It also contains nested-list subscription
  (`Chain`), the lemmas relating the two subscription styles, and the
  corrected tuple case (`GetWithPrefix`).
- `online_matrix.dfy`: `__getitem__` and `online_matrix` of the older
  revision, with the same kind of lemmas.
- `revisions.dfy`: where the two revisions agree and where they differ.
- `utils.dfy`: the row-major layout, the reference walk `Enum` and the
  lemmas about it, and `FillArray` proved against them.
- `examples.dfy`: the repository's own test assertions, stated on the
  model, plus the inputs behind the finding below.

Calling the coordinate function with any number of arguments other than
its parameter count raises a TypeError in Python. The model carries that
count as the function's arity and returns `ArityError` in that case, so no
subscription needs a precondition.

This revision does no bounds checks, negative-index wrap-around or slicing.
For the full-length tuple below the root, see "## Findings".

## Model

| member | source | states |
|---|---|---|
| Views.Apply | online_array/online_array.py:54 | calling the function succeeds exactly when the argument count is its arity, and then yields the function's value at those arguments; it never yields an array |
| Views.Drop | online_array/online_array.py:32 | `shape[n:]` has `len - n` entries (none when n is past the end), and entry k is the original's entry n + k |
| OnlineArray.MakeSubArray | online_array/online_array.py:18-37 | the sub-array shares the function; its parameters are the parent's followed by the new coordinates; its dimensions go down by their count; its shape drops that many leading entries; well-formedness is kept |
| OnlineArray.Get | online_array/online_array.py:40-62 | a tuple shorter than the open axes narrows by the whole tuple. Any other tuple calls the function on the tuple alone, failing unless its length is the arity. A scalar narrows by one while more than one axis is open, and otherwise calls the function on the parameters plus the scalar. The result is a sub-array exactly in the two narrowing cases, so a failed call is never an array. Every narrower array keeps well-formedness and at least one open axis |
| OnlineArray.Create | online_array/online_array.py:72-90 | a root array fixes no coordinates, has one open axis per parameter of the function, keeps the given shape and is well-formed |
| OnlineArray.Chain | online_array/online_array.py:57-62 | fewer scalars than open axes give a sub-array with the scalars appended to the parameters; on a well-formed array, as many scalars as open axes evaluate the function at parameters plus scalars |
| OnlineArray.RootChainEqualsTuple | online_array/test.py:11-22 | on a root array, `a[c0]...[ck]`, `a[c0, ..., ck]` and the function at those coordinates are equal |
| OnlineArray.PartialTupleThenChain | online_array/test.py:24-28 | a partial tuple followed by scalars reaches the same value as the scalars alone, and that value is the function at parameters plus all coordinates |
| OnlineArray.FullTupleNeedsRoot | online_array/online_array.py:49-54 | on a well-formed array, a tuple as long as the open axes succeeds if and only if no coordinate has been fixed |
| OnlineArray.ScalarOnLastAxis | online_array/online_array.py:61-62 | on the last open axis of a well-formed array a scalar always completes the coordinates and evaluates the function there |
| OnlineArray.GetWithPrefix | online_array/online_array.py:54 | corrected tuple case: a long tuple evaluates the function at parameters plus tuple; scalars and short tuples behave as in `Get`; the result is a sub-array exactly in the narrowing cases |
| OnlineArray.TupleEqualsChain | online_array/online_array.py:48-62 | with the prefix restored, tuple and nested-list subscription give the same result on every well-formed array, root or not |
| OnlineArray.ChainShape | online_array/online_array.py:30-35 | the sub-array reached by a chain of scalars is the one that `_make_sub_array` builds from the same coordinates at once |
| OnlineArray.DropDrop | online_array/online_array.py:32 | dropping leading shape entries in two steps equals dropping them in one |
| OnlineMatrix.Get | online_matrix/online_matrix.py:18-47 | a tuple of any length calls the function on the tuple alone; a scalar narrows by one (shape `[1:]`, parameters plus the scalar, dimensions minus one, same function) while more than one axis is open, and otherwise calls the function on the parameters plus the scalar; the result is a sub-matrix exactly for a scalar with more than one open axis |
| OnlineMatrix.Create | online_matrix/online_matrix.py:57-75 | a root matrix fixes no coordinates, has one open axis per function parameter, keeps the shape and is well-formed |
| OnlineMatrix.Chain | online_matrix/online_matrix.py:30-47 | scalars short of the last axis give a sub-matrix with the scalars appended, the shape shortened by their count and well-formedness kept; scalars down to the last axis evaluate the function at parameters plus scalars |
| OnlineMatrix.RootChainEqualsTuple | online_matrix/test.py:14-22 | on a root matrix, chained scalars to full depth equal the full tuple and the function's value |
| OnlineMatrix.TupleIgnoresPosition | online_matrix/online_matrix.py:27-28 | a tuple succeeds exactly when it supplies every function parameter, and gives at any sub-matrix what it gives at the root |
| Revisions.AgreeExceptShortTuples | online_array/online_array.py:49-54 | the two revisions give the same result if and only if the index is not a tuple shorter than the open axes |
| Revisions.ChainsAgree | online_array/online_array.py:57-62 | chained scalar subscription is the same in both revisions |
| Utils.Offset | online_array/utils.py:21 | the block of cells under an in-bounds coordinate prefix lies inside the buffer; a full in-bounds tuple names one cell of it |
| Utils.BlockSizeStep | online_array/utils.py:16-17 | the block of a prefix is `shape[d]` blocks of the next depth |
| Utils.CellInBlock | online_array/utils.py:16-21 | the cell of a full in-bounds tuple lies in the block of each of its prefixes |
| Utils.PrefixOffset | online_array/utils.py:18-21 | one more coordinate moves the block start by that coordinate times the next block size |
| Utils.ChildOffset | online_array/utils.py:18-21 | the block of `index + (i,)` starts i blocks of the next depth after the block of `index` |
| Utils.UptoStep | online_array/utils.py:16-19 | one more pass of the loop appends the visits under child i, and at the last axis that is the one cell `index + (i,)` |
| Utils.EnumShape | online_array/utils.py:16-21 | the walk under a prefix visits one full in-bounds tuple extending it per cell of its block, the j-th visit being the j-th cell, so cells are visited in ascending buffer order |
| Utils.UptoShape | online_array/utils.py:16-19 | the first i passes of the loop visit i blocks' worth of cells, in ascending buffer order |
| Utils.ConcatVisits | online_array/utils.py:16-19 | the visits of the earlier passes followed by those of the next pass are consecutive cells of the parent block |
| Utils.VisitUnderChild | online_array/utils.py:18-19 | a visit under child i is a visit under the parent, shifted by where child i's block starts |
| Utils.EnumComplete | online_array/utils.py:16-21 | every full in-bounds tuple extending the prefix is visited |
| Utils.UptoComplete | online_array/utils.py:16-19 | a full tuple extending the prefix, whose next coordinate is below i, is visited by the first i passes |
| Utils.ProductZero | online_array/utils.py:16 | an array with an empty axis has no cells |
| Utils.ZeroExtentWritesNothing | online_array/utils.py:16 | when an axis at or below the current depth is empty, the walk visits nothing and the block is empty |
| Utils.RootWalkIsRowMajor | online_array/utils.py:16-19 | from the root the walk visits exactly as many cells as the array has, the j-th visit being cell j |
| Utils.VisitsDistinct | online_array/utils.py:16-21 | the walk never visits the same coordinates twice, so each cell is assigned once and the function is called once per cell |
| Utils.Coverage | online_array/utils.py:3-21 | a fully written buffer holds, at every position, the function's value at the coordinates the walk visits there |
| Utils.EarlierSibling | online_array/utils.py:16-19 | cells under an earlier child lie before the block of a later child |
| Utils.IterationDone | online_array/utils.py:16-21 | one pass of the loop extends the written cells from the first i children to the first i + 1 and keeps the changes inside the passes done so far |
| Utils.GrowWritten | online_array/utils.py:16-21 | cells of earlier children stay written while a later child is filled |
| Utils.GrowSame | online_array/utils.py:16-21 | changes confined to adjacent ranges are confined to their union |
| Utils.LeafDone | online_array/utils.py:20-21 | the single write at the last axis fills the block of a full tuple, which is that one cell, and changes nothing else |
| Utils.ChildInBounds | online_array/utils.py:16-18 | the child prefix `index + (i,)` of the loop stays in bounds |
| Utils.LoopExit | online_array/utils.py:16-22 | after the last pass every cell under the prefix is written, the trace is the whole walk, and the changes stay in the prefix's block |
| Utils.FillArray | online_array/utils.py:3-22 | every cell under `index` receives the function's value at its coordinates; the cells are written in the order of the reference walk `Enum`; no cell outside `index`'s block changes |
| Examples.ArrayOfTwoAxes | online_array/test.py:12-16 | for `f` on shape (4, 3): `m[2][2] == m[2, 2] == 5`, the shape is kept and there are two axes |
| Examples.ArrayOfThreeAxes | online_array/test.py:18-28 | for `g` on shape (4, 3, 5): `m[2][2][1] == m[2, 2, 1] == 6`, there are three axes, and `m[0][1][2] == m[0, 1][2] == 3` |
| Examples.MatrixChecks | online_matrix/test.py:11-24 | the same assertions on the older revision |
| Examples.FullTupleBelowRoot | online_array/online_array.py:54 | on `m[0]` of `g`, the tuple (1, 2) raises while `m[0][1][2]` is 3; the corrected case gives 3; the tuple (1, 2, 3) gives the root's element 6 |
| Examples.FillTwoByThree | online_array/utils.py:3-22 | filling a 2 x 3 buffer with `f` gives the rows (1, 2, 3) and (2, 3, 4) |
| Examples.CellOfTwoByThree | online_array/utils.py:21 | in a filled 2 x 3 buffer element (i, j) is at position 3 i + j |

## Left out

- Slices and indexes that are neither integers nor tuples: the modelled code passes them on to the function unchanged, and their meaning there depends on the caller's function.
- Bounds checks, negative-index wrap-around and `IndexError`: the modelled code performs none of them, since `a[-5]` simply calls the function at -5. The revision that has them is not part of this model.
- The `OnlineArray((5,), function=...)` constructor used by tests/test_online_array.py: it is not the constructor of the modelled revision.
- `unbounded_online_array` is not part of this model.
- numpy allocation, dtype conversion and the rest of the ndarray protocol: the array is an explicit record, and `shape` is carried, never checked.
- `__str__` and `__repr__`: their text depends on Python's class representation.
- Reading the arity by reflection (`func_code.co_argcount`) is replaced by the explicit `arity` of `Fn`.
- Coordinate functions with defaulted or variadic (`*args`) parameters are not modelled: `co_argcount` counts defaulted parameters and ignores `*args`, so such a function can accept other argument counts, while `Fn.arity` is the exact argument count.
- The command-line and packaging glue in `online_array/__init__.py` is I/O, not indexing logic.
- Utils.FillArray: requires at least one axis, because on a 0-dimensional array Python fails at `shape[0]` before writing anything. It also takes the function as a map from coordinate tuples, so an arity mismatch with the array's dimension, which Python reports as a TypeError, is not modelled.
- Utils.FillArray: the numpy array is modelled as its flat row-major buffer, so views with other strides are not covered.
- Utils.FillArray: the cast of `function(...)` to the array's dtype on assignment is not modelled; the cell receives `f(c)` as it is.
- Shape entries are natural numbers, since numpy rejects negative extents.

## Findings

| source | as written | input that shows it | evidently intended | confidence | as-written member | corrected member |
|---|---|---|---|---|---|---|
| online_array/online_array.py:54 | a tuple at least as long as the open axes calls `function(*index)` with the tuple alone, dropping the coordinates already fixed | `g(x, y, z) = x*y + z + 1` on shape (4, 3, 5), `m = online_array(g, (4, 3, 5))`: `m[0][1, 2]` raises TypeError (two arguments for three parameters), while `m[0][1][2]` is 3; also `m[0][1, 2, 3]` is 6, the element (1, 2, 3) of the root | `function(*self.parameters + index)`, as the nested-list case does, so that tuple and nested-list subscription agree | medium, not executed | OnlineArray.Get, Examples.FullTupleBelowRoot | OnlineArray.GetWithPrefix, OnlineArray.TupleEqualsChain |
