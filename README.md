# CLCV host-side bookkeeping, modelled in Dafny

CLCV is a small OpenCL mathematical-morphology library. This project models
its host side, with every OpenCL object replaced by an abstract handle:

- **the device session `CLCV<cl_int>`** (`Clcv.Session`). It holds the
  following state:
  - a pool of buffer pairs keyed by byte size;
  - the table of open images, with the image id counter and the current-image
    slot;
  - the table of loaded structuring elements (SEs), with its own id counter;
  - the global and local work sizes.

  On the device side the model adds three things:
  - the byte size of every buffer created;
  - the contents of every buffer, one `cl_int` per element;
  - the in-order command queue, an append-only log of uploads, read-backs
    and kernel dispatches.

  Every `push_*` builds its kernel with the pre-swap (in, out) pair, swaps the
  image's roles, and enqueues one dispatch whose outcome lands in the out
  buffer.
- **the records and kernels** (`ClcvTypes`). This covers `clcv_bufferpair`,
  `clcv_image`, `clcv_se`, `cl::NDRange` and the kernels with their bound
  arguments.
- **structuring-element windows `win2d`** (`Win2D`). A window is an ordered
  set of ((row, col), weight) entries, kept as a strictly increasing sequence
  in the order of `less<pair<point2d, T>>`. The module covers `add`, `count`,
  the extent statistics, and the standard windows `win_c4p`, `win_c8p` and
  `win_rect`.
- **`point2d`** (`Point2D`). The coordinate pair, with its dimension-0 = row
  convention and its lexicographic order.
- **`image2d`** (`Image2D`). A row-major image whose storage is a
  `data_wrapper` object holding a pixel array and a reference count that
  several handles share.
- **`freeimage2image2d`** (`FreeImageConversion`). It does three things:
  - rounds the bitmap's dimensions up to multiples of the work-group block;
  - pads the extra cells with a constant;
  - copies the bottom-up scanlines flipped.

  The bitmap is a width and a sequence of scanlines.

`Unsigned` holds the 32-bit `unsigned` reduction used where the source stores
a signed value into an unsigned field or rounds in unsigned arithmetic.

The session is instantiated on `cl_int` pixels, as its only client does.
Four things the model cannot see are parameters of the session:
- the device class, which sets the CPU overrides;
- what each kernel computes (`run`);
- what a freshly created buffer holds (`initial`);
- the set of device classes present, used for the GPU-to-CPU fallback.

The source's `assert`s become `requires` clauses.

## Model

| member | source | states |
|---|---|---|
| Unsigned.U32 | clcv/clcv.hxx:264 | a value stored into an `unsigned` field lies below 2^32; it is unchanged when already in range, and a negative value above -2^32 wraps to value + 2^32 |
| Point2D.Point2d.At | clcv/point2d.hxx:35-45 | `operator[]`: dimension 0 reads the row and dimension 1 the column |
| Point2D.Point2d.SetAt | clcv/point2d.hxx:35-39 | a write through the mutable `operator[]` sets coordinate d and leaves the other coordinate unchanged |
| Point2D.Point2d.SetRow | clcv/point2d.hxx:47-51 | a write through the mutable `row()` changes the row only |
| Point2D.Point2d.SetCol | clcv/point2d.hxx:59-63 | a write through the mutable `col()` changes the column only |
| Point2D.Origin | clcv/point2d.hxx:21-26 | the default point has both coordinates 0 |
| Point2D.LessIsLexicographic | clcv/point2d.h:52-60 | `less<point2d>` holds exactly when the row is smaller, or the rows are equal and the column is smaller |
| Point2D.LessIsStrictTotalOrder | clcv/point2d.h:54-59 | `less<point2d>` is irreflexive, transitive and asymmetric, and any two distinct points are comparable |
| Win2D.EntryLessIsStrictTotalOrder | clcv/win2d.h:96-109 | the entry order (row, then column, then weight) is a strict total order, so it fixes the iteration order of a window |
| Win2D.Insert | clcv/win2d.hxx:40-46 | `set::insert` keeps the window strictly ordered, and the window's entries become exactly the old ones plus the new entry |
| Win2D.InsertPresent | clcv/win2d.hxx:40-54 | re-adding an entry that is present leaves the window unchanged |
| Win2D.InsertGreatest | clcv/win2d.hxx:40-54 | an entry above every present entry is appended at the end of the iteration order |
| Win2D.InsertCount | clcv/win2d.hxx:40-61 | `add` grows `count` by one exactly when the (point, weight) entry is new, so the same point with another weight is a second entry |
| Win2D.SortedCard | clcv/win2d.hxx:56-61 | the number of entries of a window is the size of its set of distinct entries |
| Win2D.MinOf | clcv/win2d.hxx:121-131 | the minimum of coordinate d is attained by some entry and is at most every entry's coordinate d |
| Win2D.MaxOf | clcv/win2d.hxx:133-143 | the maximum of coordinate d is attained by some entry and is at least every entry's coordinate d |
| Win2D.MinOfUnique | clcv/win2d.hxx:121-131 | any attained lower bound of coordinate d is the minimum |
| Win2D.MaxOfUnique | clcv/win2d.hxx:133-143 | any attained upper bound of coordinate d is the maximum |
| Win2D.SpanOf | clcv/win2d.hxx:93-98 | the span maxdim - mindim + 1 of a non-empty window is at least 1 |
| Win2D.Built | clcv/win2d.hxx:31-38 | adding the triples of a table one by one yields a strictly ordered window |
| Win2D.BuiltMembers | clcv/win2d.hxx:31-38 | the window built from a table holds exactly the triples (c[3i], c[3i+1], c[3i+2]) for i < n |
| Win2D.TriplesIncrease | clcv/win2d.hxx:31-38 | in a table whose consecutive triples increase, any earlier triple is below any later one |
| Win2D.TripleSetBelow | clcv/win2d.hxx:31-38 | in such a table, triple j is above every triple before it |
| Win2D.BuiltIncreasing | clcv/win2d.hxx:31-38 | when a table lists its triples in window order, the window iterates them in table order |
| Win2D.Window.Empty | clcv/win2d.hxx:24-29 | the default window is empty |
| Win2D.Window.FromTriples | clcv/win2d.hxx:31-38 | the array constructor leaves the window built by adding the n triples in turn |
| Win2D.Window.AddTriple | clcv/win2d.hxx:36-37 | one iteration of the array constructor's loop adds triple k and keeps the window well formed |
| Win2D.Window.Add | clcv/win2d.hxx:40-46 | `add(p, weight)` inserts the entry in order, and the set of entries gains exactly that entry |
| Win2D.Window.AddAt | clcv/win2d.hxx:48-54 | `add(row, col, weight)` does the same for the point (row, col) |
| Win2D.Window.Count | clcv/win2d.hxx:56-61 | `count` is the number of distinct (point, weight) entries |
| Win2D.Window.MinDim | clcv/win2d.hxx:121-131 | the loop returns a coordinate d attained by some entry and below every entry, so it returns `MinOf` |
| Win2D.Window.MaxDim | clcv/win2d.hxx:133-143 | the loop returns a coordinate d attained by some entry and above every entry, so it returns `MaxOf` |
| Win2D.Window.MinRow | clcv/win2d.hxx:79-84 | `minrow` is the minimum over dimension 0 |
| Win2D.Window.MaxRow | clcv/win2d.hxx:86-91 | `maxrow` is the maximum over dimension 0 |
| Win2D.Window.MinCol | clcv/win2d.hxx:100-105 | `mincol` is the minimum over dimension 1 |
| Win2D.Window.MaxCol | clcv/win2d.hxx:107-112 | `maxcol` is the maximum over dimension 1 |
| Win2D.Window.NRows | clcv/win2d.hxx:93-98 | `nrows` is maxrow - minrow + 1, at least 1 for a non-empty window |
| Win2D.Window.NCols | clcv/win2d.hxx:114-119 | `ncols` is maxcol - mincol + 1, at least 1 for a non-empty window |
| Win2D.WinC4p | clcv/win2d.h:62-68 | `win_c4p` holds five weight-1 entries: the origin and its four axis neighbours, in window order |
| Win2D.WinC8p | clcv/win2d.h:70-76 | `win_c8p` holds the nine weight-1 entries of the 3x3 block, in window order |
| Win2D.C4pTriples | clcv/win2d.h:65 | the `win_c4p` table read as triples is the origin and its four axis neighbours |
| Win2D.C4pIncreasing | clcv/win2d.h:65 | the `win_c4p` table lists its triples in window order |
| Win2D.C8pTriples | clcv/win2d.h:73 | the `win_c8p` table read as triples is the 3x3 block, row by row |
| Win2D.C8pIncreasing | clcv/win2d.h:73 | the `win_c8p` table lists its triples in window order |
| Win2D.RowSegMembers | clcv/win2d.h:89-90 | one row of the rectangle holds exactly the weight-1 points of that row in its column range |
| Win2D.RectRowsMembers | clcv/win2d.h:88-90 | rows lo .. hi-1 of the rectangle hold exactly the weight-1 points with lo <= row < hi and -hc <= col <= hc |
| Win2D.RectPrefixBelow | clcv/win2d.h:88-90 | every entry `win_rect` adds before (row, col) is below it in window order |
| Win2D.RectStep | clcv/win2d.h:88-90 | each `add` of `win_rect` appends its entry, since the entry is the greatest so far |
| Win2D.WinRect | clcv/win2d.h:78-92 | `win_rect(nr, nc)` requires odd sizes of at least 1, and builds the rectangle of rows -nr/2 .. nr/2 and columns -nc/2 .. nc/2 in window order |
| Win2D.AddRectRow | clcv/win2d.h:89-90 | the inner loop of `win_rect` appends one full row of the rectangle |
| Win2D.AddRectCell | clcv/win2d.h:90 | one `add` of `win_rect` extends the current row by one column |
| Win2D.RectSize | clcv/win2d.h:84-91 | the rectangle holds (2hr+1)(2hc+1) entries, which is nr * nc |
| Win2D.RectMembers | clcv/win2d.h:84-91 | the rectangle's entries are exactly the weight-1 points with -hr <= row <= hr and -hc <= col <= hc |
| Win2D.RectExtent | clcv/win2d.h:84-91 | the rectangle's minrow is -hr, its maxrow hr, its mincol -hc and its maxcol hc |
| Win2D.RectSpan | clcv/win2d.h:84-91 | the rectangle's `nrows` is 2hr+1 and its `ncols` 2hc+1, so they equal nr and nc |
| Image2D.OffsetInRange | clcv/image2d.hxx:86-97 | every element of an nrows x ncols image lies inside its nrows * ncols storage |
| Image2D.OffsetInjective | clcv/image2d.hxx:86-97 | distinct elements have distinct storage indices |
| Image2D.OffsetDecodes | clcv/image2d.hxx:86-97 | storage index r * ncols + c decodes back to row r and column c |
| Image2D.OffsetOnto | clcv/image2d.hxx:86-97 | every storage index is the offset of some element |
| Image2D.DataWrapper.constructor | clcv/image2d.h:44-48 | a new wrapper owns `size` fresh elements and has count 1 |
| Image2D.DataWrapper.Ref | clcv/image2d.h:50 | `ref` adds one to the count and keeps the data |
| Image2D.DataWrapper.Unref | clcv/image2d.h:51-58 | `unref` as written: the count drops by one, the result is true exactly when it reached 0, and the data pointer is null afterwards in every case |
| Image2D.DataWrapper.Release | clcv/image2d.h:51-58 | `unref` as evidently intended: the same count and result, but the data pointer is cleared only when the count reached 0 |
| Image2D.DataWrapper.Get | clcv/image2d.h:61 | the const `operator[]` reads element i; the index bound is the caller's obligation |
| Image2D.DataWrapper.Put | clcv/image2d.h:60 | a write through the mutable `operator[]` changes element i alone |
| Image2D.Image.At | clcv/image2d.hxx:92-97 | the const `operator()(row, col)` reads storage element row * ncols + col |
| Image2D.Image.constructor | clcv/image2d.hxx:21-27 | for a pixel count that fits the `unsigned` product, a new image records nrows and ncols and owns fresh storage of nrows * ncols elements with count 1 |
| Image2D.Image.Copy | clcv/image2d.hxx:29-35 | the copy constructor shares the other handle's storage and adds one to its count |
| Image2D.Image.Assign | clcv/image2d.hxx:37-49 | self-assignment keeps the handle's storage, its data and its count; otherwise the handle takes the other's storage and data and that count grows by one, and the storage held before is neither released nor changed |
| Image2D.Image.DestroyAsWritten | clcv/image2d.hxx:51-58 | the destructor as written, through `unref`: one sharer fewer, the storage deleted exactly when the count reaches 0, and the data pointer null afterwards even when sharers remain |
| Image2D.Image.Destroy | clcv/image2d.hxx:51-58 | the destructor with `unref` as evidently intended: one sharer fewer, the storage deleted exactly when the count reaches 0, and otherwise the other sharers keep a live handle with their pixels |
| Image2D.Image.Set | clcv/image2d.hxx:85-90 | a write through the mutable `operator()(row, col)` changes storage element row * ncols + col, and only that one |
| Image2D.Image.Clone | clcv/image2d.hxx:60-69 | `clone` gives an image of the same dimensions and pixels in fresh storage with count 1 |
| Image2D.Image.CopyRowTo | clcv/image2d.hxx:66-67 | the inner loop of `clone` copies one more row into the clone |
| Image2D.WriteKeepsOthers | clcv/image2d.hxx:85-90 | a write to element (r, c) leaves every other element of the image as it was |
| Image2D.SharedWrite | clcv/image2d.hxx:29-35 | for any image and any cell, a write through a copy is visible through the original |
| Image2D.CloneIsolated | clcv/image2d.hxx:60-69 | for any image and any cell, a write to a clone lands in the clone and is not visible through the original |
| Image2D.SharedUnrefLosesData | clcv/image2d.h:51-58 | for any image, with the destructor as written, destroying a copy leaves the original counted as before but without its pixels |
| Image2D.SharedReleaseKeepsData | clcv/image2d.hxx:51-58 | for any image and any cell, with the corrected release, destroying a copy leaves the original valid, counted as before and with the same pixels |
| FreeImageConversion.RoundUpNoWrap | fimage.h:35-36 | when n + k fits in 32 bits, the unsigned rounding is ((n - 1) / k + 1) * k computed exactly |
| FreeImageConversion.RoundUpIsLeastMultiple | fimage.h:35-36 | for n >= 1 and k >= 1 without overflow, the rounded size is the least multiple of k that is at least n, and lies below n + k |
| FreeImageConversion.PadRow | fimage.h:40-41 | the inner padding loop sets every cell of row r to the padding value and nothing else |
| FreeImageConversion.CopyRow | fimage.h:45-46 | the inner copying loop sets row r, columns below the width, from scanline height-r-1, and nothing else |
| FreeImageConversion.CopiedRow | fimage.h:43-47 | after row r is copied, the rows up to r hold the converted picture and the rest still hold the padding |
| FreeImageConversion.FreeImageToImage2d | fimage.h:28-50 | the result is a fresh image of the rounded dimensions; cell (r, c) is scanline height-r-1 at column c inside the bitmap's extent and the padding value outside it |
| ClcvTypes.BufferPair.Swapped | clcv/clcv.hxx:323-328 | swapping exchanges the in and out roles |
| ClcvTypes.SwapTwice | clcv/clcv.hxx:323-328 | swapping twice restores the pair |
| ClcvTypes.NDRange.Size | clcv/clcv.hxx:474-475 | `local[i]` reads the i-th size the range gives; a size the range does not give is taken as 0 (see Left out) |
| ClcvTypes.DeviceFallback | clcv/clinit.cpp:34-52 | requires a device of the requested class or a CPU, as `get_cpu_device` asserts; the session's device is the requested class when a device of it exists, else a CPU |
| ClcvTypes.Lanes | clcv/clcv.hxx:414 | the packed kernels use work-groups of 1 on a CPU and of 64 otherwise |
| ClcvTypes.CreateUnbitmap | clcv/clcv.hxx:339-346 | `create_unbitmap` binds only the in and out buffers |
| ClcvTypes.CreateBinarize | clcv/clcv.hxx:375-388 | `create_binarize` binds in, out, the dimensions, the threshold, min and max, in that order |
| ClcvTypes.CreateBitmappedBinarize | clcv/clcv.hxx:410-425 | requires the pixel count to be a multiple of 32 * lanes; (hit, miss) is (1, 0) when inverted and (0, 1) otherwise; the scratch is 32 * lanes * sizeof(cl_int) bytes |
| ClcvTypes.CreateNaiveMorph | clcv/clcv.hxx:455-479 | `create_naivemorph` binds all eleven arguments in order: in, out, nrows, ncols, the SE buffer, rowrad, colrad, se_nonzero, the target sum, the SE scratch of the SE's buffer size and the tile scratch of (lx + 2 colrad)(ly + 2 rowrad) * sizeof(cl_int) |
| ClcvTypes.DilationTarget | clcv/clcv.hxx:509-512 | the dilation target sum plus se_nonzero is 1 |
| ClcvTypes.ErosionTarget | clcv/clcv.hxx:534-537 | the erosion target sum is se_nonzero, and it and the dilation target sum add up to 1 |
| ClcvTypes.CreateNaiveDilation | clcv/clcv.hxx:502-513 | `create_naivedilation` is the naive morphology kernel with target sum 1 - se_nonzero |
| ClcvTypes.CreateNaiveErosion | clcv/clcv.hxx:527-538 | `create_naiveerosion` is the naive morphology kernel with target sum se_nonzero |
| ClcvTypes.SeLayout | clcv/clcv.hxx:254-260 | the uploaded SE holds three `cl_int`s per entry |
| ClcvTypes.SeLayoutAt | clcv/clcv.hxx:254-260 | entry k of the window is uploaded at positions 3k (row), 3k+1 (column) and 3k+2 (weight) |
| ClcvTypes.SeLayoutAppend | clcv/clcv.hxx:255-260 | each iteration of the upload loop appends one entry's triple |
| ClcvTypes.SeLayoutOfTable | clcv/clcv.hxx:254-260 | loading a window built from a table listed in window order uploads the table itself |
| ClcvTypes.TriplesLayout | clcv/clcv.hxx:254-260 | the upload of a table's triples in table order is the table's prefix |
| Clcv.ElementsOfBytes | clcv/clcv.hxx:153 | a byte size made of whole `cl_int`s holds that many elements |
| Clcv.RolesRestored | clcv/clcv.hxx:552-564 | two swaps of one image leave the image table as it was |
| Clcv.ExtendsKeeps | clcv/clcv.hxx:135-136 | creating buffers keeps every pool pair, open image and loaded SE well formed |
| Clcv.Session.constructor | clcv/clcv.hxx:30-40 | with a device of the requested class or a CPU present, a new session runs on the requested class (GPU by default) or a CPU, with null work sizes, nothing open or loaded, image ids from 1, SE ids from 0 and no current image |
| Clcv.Session.SetGlobalWorkSize | clcv/clcv.hxx:99-102 | the global work size becomes the argument |
| Clcv.Session.SetLocalWorkSize | clcv/clcv.hxx:106-110 | the local work size becomes (1, 1) on a CPU device whatever the argument, and the argument otherwise |
| Clcv.Session.Blank | clcv/clcv.hxx:135-136 | a new buffer of n elements holds n device-given values |
| Clcv.Session.GetBufferPair | clcv/clcv.hxx:128-140 | for a non-zero size (a 0-byte `cl::Buffer` throws), a stored size returns its pair and changes nothing; a new size gets two new distinct buffers of that size, stored under it; no other pool entry and no existing buffer changes |
| Clcv.Session.NewBufferPair | clcv/clcv.hxx:135-139 | for a non-zero size, the miss path creates exactly two new distinct buffers of the size and files them under it |
| Clcv.Session.CreateBlank | clcv/clcv.hxx:135 | for a non-zero size, one new buffer under a never-used id, of the given byte size |
| Clcv.Session.ClearBufferPairs | clcv/clcv.hxx:144-147 | the pool becomes empty and the session stays well formed |
| Clcv.Session.GetImage | clcv/clcv.hxx:284-289 | `get_image` requires the image to be open, and its record has one host element per pixel, default global size (ncols, nrows) and two distinct buffers |
| Clcv.Session.GetSe | clcv/clcv.hxx:300-305 | `get_se` requires the SE to be loaded, and its buffer holds three `cl_int`s per entry |
| Clcv.Session.Open | clcv/clcv.hxx:151-173 | for an image with pixels (none would make its buffers throw), `open` copies the pixels row-major; the image is filed under the next id, which becomes current, with default global size (ncols, nrows) and the pool pair of its byte size; one upload of the host copy into its in buffer is enqueued |
| Clcv.Session.OpenCopied | clcv/clcv.hxx:161-172 | the session side of `open`, after the host copy, for a non-zero pixel count |
| Clcv.Session.Upload | clcv/clcv.hxx:167-171 | a well-formed record is filed under the next id and made current, and its upload is enqueued |
| Clcv.Session.Register | clcv/clcv.hxx:167-169 | image ids are handed out in sequence and never reused (below 2^32 opens, see Left out), and the new image becomes current |
| Clcv.Session.WriteMem | clcv/clinit.cpp:102-109 | `write_mem` enqueues one upload, after which the buffer holds the data |
| Clcv.Session.Fetch | clcv/clcv.hxx:185-190 | `fetch()` enqueues one read-back of the whole image and the host copy becomes the in buffer's contents |
| Clcv.Session.FetchSize | clcv/clcv.hxx:177-181 | `fetch(size)` enqueues one read-back of `size` bytes, which replace the start of the host copy |
| Clcv.Session.Save | clcv/clcv.hxx:194-203 | `save` gives a fresh image of the record's dimensions whose (r, c) is host element r * ncols + c |
| Clcv.Session.Close | clcv/clcv.hxx:207-216 | `close` removes the image if it is open, is a no-op otherwise, and always leaves no current image |
| Clcv.Session.SwapBuffers | clcv/clcv.hxx:323-335 | `swap_buffers` exchanges the image's in and out roles and changes nothing else, the pool included |
| Clcv.Session.LoadSe | clcv/clcv.hxx:248-271 | `load_se` uploads the window's triples in window order into one new buffer of 12 bytes per entry, and files its descriptor under the next SE id |
| Clcv.Session.RegisterSe | clcv/clcv.hxx:268-270 | SE ids are handed out in sequence and never reused (below 2^32 loads, see Left out) |
| Clcv.Session.CreateBuffer | clcv/clcv.hxx:262 | for non-empty host data, a buffer created from it is new, sized for the data and holds it |
| Clcv.Session.UnloadSe | clcv/clcv.hxx:275-280 | `unload_se` removes the SE if it is loaded and is a no-op otherwise |
| Clcv.Session.Outcome | clcv/clcv.hxx:369 | a dispatch leaves one kernel-computed value per element of its out buffer |
| Clcv.Session.Enqueue | clcv/clcv.hxx:369 | a dispatch appends one Run command, and the kernel's out buffer receives its outcome |
| Clcv.Session.PushUnbitmap | clcv/clcv.hxx:350-371 | requires pixels divisible by 32 * lanes; binds the pre-swap (in, out), swaps once, and enqueues one dispatch over pixels / 32 items in groups of 1 (CPU) or 64 |
| Clcv.Session.PushBinarize | clcv/clcv.hxx:392-406 | binds the pre-swap (in, out) and the thresholds, swaps once, and enqueues one dispatch over the session's global size, or the image's default when that has no dimensions |
| Clcv.Session.PushBitmappedBinarize | clcv/clcv.hxx:429-451 | as `push_unbitmap` for the sizes, with the bitmapped binarize kernel; `inverted` defaults to false |
| Clcv.Session.PushNaiveMorph | clcv/clcv.hxx:483-498 | binds the pre-swap (in, out), the SE and the target sum, swaps once, and enqueues one dispatch with the session's local size |
| Clcv.Session.PushNaiveDilation | clcv/clcv.hxx:517-523 | one naive morphology dispatch with target sum 1 - se_nonzero |
| Clcv.Session.PushNaiveErosion | clcv/clcv.hxx:542-548 | one naive morphology dispatch with target sum se_nonzero |
| Clcv.Session.PushNaiveOpening | clcv/clcv.hxx:552-556 | an erosion then a dilation with the same SE, the second on the swapped pair; the first's out buffer holds the erosion's outcome, the dilation reads that buffer and writes the original in buffer; the image's roles end as they began |
| Clcv.Session.PushNaiveClosing | clcv/clcv.hxx:560-564 | a dilation then an erosion with the same SE, the second on the swapped pair; the first's out buffer holds the dilation's outcome, the erosion reads that buffer and writes the original in buffer; the image's roles end as they began |
| Clcv.DispatchGlobal | clcv/clcv.hxx:394-397 | the dispatch uses the session's global size when it has dimensions, and the image's default (ncols, nrows) otherwise |
| Clcv.MorphCommand | clcv/clcv.hxx:485-496 | a naive morphology dispatch reads the image's in buffer, writes its out buffer, and uses the chosen global size and the session's local size |
| Clcv.HostCopy | clcv/clcv.hxx:155-160 | the row-by-row copy loop yields the image's pixels in storage order |
| Clcv.ImageOfRows | clcv/clcv.hxx:197-201 | the fill loop of `save` gives an image whose (r, c) is data[r * ncols + c] |
| Clcv.FillRow | clcv/clcv.hxx:200-201 | the inner loop of `save` fills row r from the next ncols host elements, so one more row of the image agrees with the data |
| Clcv.Describe | clcv/clcv.hxx:264 | the SE descriptor holds the window's nrows and ncols, maxrow and maxcol as unsigned radii, 12 bytes per entry, and the entry count |
| Clcv.UploadLayout | clcv/clcv.hxx:254-260 | the upload loop writes each entry's (row, col, weight) in window order |
| Clcv.OpenThenSave | clcv/clcv.hxx:151-203 | saving an image just opened gives back its dimensions and pixels |
| Clcv.OpenFetchSave | clcv/clcv.hxx:151-203 | opening, fetching and saving gives back the image: the upload and the read-back agree; two commands are enqueued, a write then a read |
| Clcv.SameSizeSharesPair | clcv/clcv.hxx:137-139 | two images of one size get the same pool pair; after a dispatch swaps the first image's roles, the pool keeps the original order, so the second image names the same buffers crosswise |

## Left out

- OpenCL setup is left out: context, queue and program creation, kernel-file loading and platform queries (`clcv/clinit.cpp`, `clcv/clinit.h`, `clcv/clinfo.*`). These are foreign calls. The device class and the set of classes present are parameters of the session.
- What the kernels of `clcv/clcv.cl` compute is left out. It is the `run` parameter, and a dispatch writes its value into the out buffer.
- What a new buffer holds is left out. It is the `initial` parameter.
- `flush`, `finish`, events and blocking are left out: the queue is an in-order log and a read-back sees the current buffer contents. The event a `push_*` returns is its index in the log.
- Device errors (`cl::Error`, thrown because `__CL_ENABLE_EXCEPTIONS` is set at clcv/clcv.h:20) are not modelled as outcomes. Where the source would throw, the model requires the condition that avoids it: Clcv.Session.GetBufferPair, Clcv.Session.NewBufferPair, Clcv.Session.CreateBlank and Clcv.Session.CreateBuffer require a non-zero size, and Clcv.Session.Open and Clcv.Session.OpenCopied an image with pixels.
- ClcvTypes.DeviceFallback and Clcv.Session.constructor require a device of the requested class or a CPU. Without either, `get_cpu_device` fails its assert (clcv/clinit.cpp:37-39), and the model has no session for that case.
- The destructor of the session and the freeing of host arrays and device buffers are not modelled. `close` and `unload_se` only remove the record, and buffers stay in the device-memory map.
- The session's copy constructor and assignment are private and have no body, so the session cannot be copied. The model has no member for them.
- `get_device_id`, `get_device_type`, `get_context`, `get_queue`, `get_global_work_size` and `get_local_work_size` are field reads of the session and have no member of their own.
- `get_nrows`, `get_ncols`, `get_in_buffer` and `get_out_buffer` are field reads of `Clcv.Session.GetImage`'s record.
- The bitmapped morphology members and `round`, `xdim` and `ydim` are declared in `clcv/clcv.h:105-138,158-160` without a body in any file, so they are not modelled.
- Clcv.Session.Open: `open` allocates its host array and `load_se` its upload buffer with a byte count used as an element count. The model keeps only the nrows * ncols and 3 * count elements that are written.
- Clcv.Session.Open: the byte size is an `unsigned` product and the dimensions pass to kernels as `cl_int`. The model requires nrows * ncols * 4 < 2^32 and keeps the integers unbounded.
- Clcv.Session.FetchSize: requires `size` to be a whole number of `cl_int`s within the image, because the model has no partial elements.
- ClcvTypes.CreateNaiveMorph: the tile scratch is computed in `size_t` and stored into a `cl_int` (clcv/clcv.hxx:474-476). The model keeps the unbounded value and does not model that truncation.
- Clcv.Describe: the radii are maxrow and maxcol stored as `unsigned`, as written (`U32`). The window's `nrows`/`ncols` are `unsigned` too, but they are at least 1 and kept unbounded.
- Win2D.Window.MinDim: `mindim`/`maxdim` start from `numeric_limits<coord>` sentinels. The model starts from the first entry. Both give the same result on a non-empty window, which the source asserts.
- Coordinates: `coord.h` is not part of this model, so coordinates are unbounded integers.
- A `point2d` is a value the window copies into its entries. The mutable references its accessors return are modelled as functional updates (`SetAt`, `SetRow`, `SetCol`).
- `win_c4p` and `win_c8p` return a function-local static window. The model builds a fresh window on each call, with the same contents.
- Image2D.DataWrapper.Ref: `m_count` is an `unsigned` and could wrap after 2^32 references. The model's count is unbounded.
- Image2D.Image.Destroy: models the destructor with the intended release (see Findings). The destructor as written is `Image2D.Image.DestroyAsWritten`, which leaves surviving sharers a null data pointer.
- Image2D.Image.constructor: requires nrows * ncols < 2^32. The source's `unsigned` product would wrap and allocate too little, and its indexing `row * m_ncols + col` would wrap too. `FreeImageConversion.FreeImageToImage2d` and `Clcv.ImageOfRows` carry the same bound on the image they build.
- Image2D.Image.Clone: the result is the clone itself, as if the copy of a by-value return were elided. C++03 allows but does not require that elision; without it the local is destroyed through `unref` as written, and the returned copy's data pointer is null (see Findings). `Clcv.Session.Save` and `FreeImageConversion.FreeImageToImage2d` return the same way.
- Image2D.Image.Assign: as written, assignment neither releases the storage held before nor lowers its count, so that storage leaks. The model states the leak and does not correct it.
- FreeImageConversion.RoundUp: a zero dimension makes `nrows - 1` wrap, as written. `RoundUpIsLeastMultiple` is stated for dimensions of at least 1 only, and the conversion requires the rounded size to cover the bitmap.
- ClcvTypes.NDRange.Size: a size the range does not give (the second size of a 1-D or null local range, read at clcv/clcv.hxx:474-475) is taken as 0. The source reads whatever the range object holds there, which the model does not capture.
- Clcv.Session.Register: `m_next_image_id` is `unsigned` and wraps after 2^32 opens (clcv/clcv.hxx:167). The model's counter is unbounded, so "never reused" holds only below that.
- Clcv.Session.RegisterSe: `m_next_se_id` is `unsigned` and wraps after 2^32 loads (clcv/clcv.hxx:268). The model's counter is unbounded, so "never reused" holds only below that.
- FreeImage loading, saving and palettes (`fimage.cpp`) are left out. So are the benchmark driver (`example.cpp`) and the `operator<<` printers. These are I/O.

## Findings

| source | as written | input that shows it | evidently intended | confidence | as-written member | corrected member |
|---|---|---|---|---|---|---|
| clcv/image2d.h:51-58 | `unref` sets `m_data` to null outside the `if`, so it clears the pointer even when other handles still share the storage. `clone`, `save` and `freeimage2image2d` return an `image2d` by value; without copy elision, which C++03 does not require, destroying the local nulls the returned copy's data too. `Image2D.Image.Clone` and the other by-value returns assume elision | an image and a copy of it; destroy the copy: the count drops to 1 and the surviving handle's data pointer is null | clear the pointer only when the count reaches 0, so the survivor keeps its pixels | not executed | Image2D.DataWrapper.Unref, Image2D.Image.DestroyAsWritten, Image2D.SharedUnrefLosesData | Image2D.DataWrapper.Release, Image2D.Image.Destroy, Image2D.SharedReleaseKeepsData |
