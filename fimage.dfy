/** Conversion of a loaded bitmap into an image2d (freeimage2image2d): the
    dimensions are rounded up to multiples of the work-group block, the extra
    cells are padded with a constant, and the bottom-up scanlines are flipped. */
module FreeImageConversion {
  import opened Image2D
  import opened Unsigned

  /** An 8-bit sample of a scanline. */
  newtype Byte = x: int | 0 <= x < 256

  /** A bitmap as the conversion sees it: its width and its scanlines, with
      scanline 0 the bottom row of the picture. A scanline may be padded past
      the width. */
  datatype Bitmap = Bitmap(width: nat, scanlines: seq<seq<Byte>>)
  {
    function Height(): nat
    {
      |scanlines|
    }

    ghost predicate WellFormed()
    {
      && width < Two32 && Height() < Two32
      && forall y :: 0 <= y < |scanlines| ==> width <= |scanlines[y]|
    }
  }

  /** `((n - 1) / k + 1) * k` in unsigned 32-bit arithmetic, with k the `int`
      round converted to unsigned. */
  function RoundUp(n: nat, k: int): nat
    requires n < Two32 && U32(k) != 0
  {
    U32((U32(n - 1) / U32(k) + 1) * U32(k))
  }

  /** Euclidean division by k brackets x between two consecutive multiples of k. */
  lemma DivBrackets(x: nat, k: nat)
    requires k >= 1
    ensures (x / k) * k <= x < (x / k) * k + k
  {
  }

  /** Without overflow, the unsigned computation is the plain one. */
  lemma RoundUpNoWrap(n: nat, k: int)
    requires 1 <= n && 1 <= k && n + k <= Two32
    ensures RoundUp(n, k) == ((n - 1) / k + 1) * k
    ensures (n - 1) / k * k <= n - 1 < (n - 1) / k * k + k
  {
    var q := (n - 1) / k;
    DivBrackets(n - 1, k);
    assert U32(n - 1) == n - 1 && U32(k) == k;
    var r := (q + 1) * k;
    assert r == q * k + k;
    assert U32(r) == r;
  }

  /** A multiple of k leaves remainder zero. */
  lemma MultipleMod(q: nat, k: nat)
    requires k >= 1
    ensures (q * k) % k == 0
  {
    var m := q * k;
    DivBrackets(m, k);
    var j := m / k;
    if j < q {
      MulMono(j + 1, q, k);
    } else if q < j {
      MulMono(q + 1, j, k);
    }
    assert j == q;
  }

  /** For a non-empty dimension whose rounding does not overflow, the rounded
      size is the least multiple of k that is at least n, and lies below n + k. */
  lemma RoundUpIsLeastMultiple(n: nat, k: int)
    requires 1 <= n && 1 <= k && n + k <= Two32
    ensures RoundUp(n, k) % k == 0
    ensures n <= RoundUp(n, k) < n + k
    ensures forall m: nat :: m % k == 0 && n <= m ==> RoundUp(n, k) <= m
  {
    var q := (n - 1) / k;
    RoundUpNoWrap(n, k);
    MultipleMod(q + 1, k);
    assert (q + 1) * k == q * k + k;
    forall m: nat | m % k == 0 && n <= m
      ensures (q + 1) * k <= m
    {
      NextMultiple(q, k, m);
    }
  }

  /** A multiple of k above q * k is at least (q + 1) * k. */
  lemma NextMultiple(q: nat, k: nat, m: nat)
    requires k >= 1 && m % k == 0 && q * k < m
    ensures (q + 1) * k <= m
  {
    var j := m / k;
    assert m == j * k;
    if j <= q {
      MulMono(j, q, k);
      assert false;
    }
    assert (q + 1) * k <= j * k by {
      MulMono(q + 1, j, k);
    }
  }

  /** The value the conversion leaves at (r, c): the flipped scanline sample
      inside the bitmap's extent, the padding value outside it. */
  function Converted(b: Bitmap, initVal: int, r: nat, c: nat): int
    requires b.WellFormed()
  {
    if r < b.Height() && c < b.width then b.scanlines[b.Height() - r - 1][c] as int else initVal
  }

  /** `Converted` at storage index i of an image with ncols columns. */
  ghost function ConvertedAt(b: Bitmap, initVal: int, ncols: nat, i: nat): int
    requires b.WellFormed()
  {
    if ncols == 0 then initVal else Converted(b, initVal, i / ncols, i % ncols)
  }

  /** The inner loop of the padding pass: every cell of row r becomes v. */
  method PadRow(img: Image<int>, r: nat, v: int)
    requires img.Valid() && r < img.nrows
    modifies img.store.data
    ensures img.Valid() && |img.Pixels()| == |old(img.Pixels())|
    ensures Offset(r, img.ncols, img.ncols) <= |img.Pixels()|
    ensures forall i :: 0 <= i < |img.Pixels()| ==>
              img.Pixels()[i] ==
              if Offset(r, 0, img.ncols) <= i < Offset(r, img.ncols, img.ncols) then v
              else old(img.Pixels())[i]
  {
    RowEndInRange(r, img.nrows, img.ncols);
    var c := 0;
    while c < img.ncols
      invariant 0 <= c <= img.ncols
      invariant img.Valid() && |img.Pixels()| == |old(img.Pixels())|
      invariant forall i :: 0 <= i < |img.Pixels()| ==>
                  img.Pixels()[i] ==
                  if Offset(r, 0, img.ncols) <= i < Offset(r, c, img.ncols) then v
                  else old(img.Pixels())[i]
    {
      img.Set(r, c, v);
      c := c + 1;
    }
  }

  /** The inner loop of the copying pass: row r takes the first `width`
      samples of scanline height-r-1. */
  method CopyRow(img: Image<int>, b: Bitmap, r: nat)
    requires img.Valid() && b.WellFormed()
    requires r < b.Height() && b.Height() <= img.nrows && b.width <= img.ncols
    modifies img.store.data
    ensures img.Valid() && |img.Pixels()| == |old(img.Pixels())|
    ensures Offset(r, img.ncols, img.ncols) <= |img.Pixels()|
    ensures forall i :: 0 <= i < |img.Pixels()| ==>
              img.Pixels()[i] ==
              if Offset(r, 0, img.ncols) <= i < Offset(r, b.width, img.ncols)
              then b.scanlines[b.Height() - r - 1][i - Offset(r, 0, img.ncols)] as int
              else old(img.Pixels())[i]
  {
    RowEndInRange(r, img.nrows, img.ncols);
    var c := 0;
    while c < b.width
      invariant 0 <= c <= b.width
      invariant img.Valid() && |img.Pixels()| == |old(img.Pixels())|
      invariant forall i :: 0 <= i < |img.Pixels()| ==>
                  img.Pixels()[i] ==
                  if Offset(r, 0, img.ncols) <= i < Offset(r, c, img.ncols)
                  then b.scanlines[b.Height() - r - 1][i - Offset(r, 0, img.ncols)] as int
                  else old(img.Pixels())[i]
    {
      img.Set(r, c, b.scanlines[b.Height() - r - 1][c] as int);
      c := c + 1;
    }
  }

  /** After the copying pass has done row r, the rows up to r hold the
      converted picture and the rest still hold the padding. */
  lemma CopiedRow(b: Bitmap, initVal: int, nrows: nat, ncols: nat, r: nat, before: seq<int>, after: seq<int>)
    requires b.WellFormed() && r < b.Height() && b.Height() <= nrows && b.width <= ncols
    requires |before| == |after| == nrows * ncols && Offset(r, ncols, ncols) <= nrows * ncols
    requires forall i :: 0 <= i < |before| ==>
               before[i] == if i < Offset(r, 0, ncols) then ConvertedAt(b, initVal, ncols, i) else initVal
    requires forall i :: 0 <= i < |after| ==>
               after[i] ==
               if Offset(r, 0, ncols) <= i < Offset(r, b.width, ncols)
               then b.scanlines[b.Height() - r - 1][i - Offset(r, 0, ncols)] as int
               else before[i]
    ensures forall i :: 0 <= i < |after| ==>
              after[i] == if i < Offset(r + 1, 0, ncols) then ConvertedAt(b, initVal, ncols, i) else initVal
  {
    forall i | Offset(r, 0, ncols) <= i < Offset(r, ncols, ncols)
      ensures after[i] == ConvertedAt(b, initVal, ncols, i)
    {
      var c := i - Offset(r, 0, ncols);
      OffsetDecodes(r, c, ncols);
    }
  }

  /** `freeimage2image2d`: first fills every cell of the rounded image with
      `initVal`, then copies the scanlines, row r from scanline height-r-1. */
  method FreeImageToImage2d(b: Bitmap, rowRound: int, colRound: int, initVal: int)
      returns (img: Image<int>)
    requires b.WellFormed()
    requires U32(rowRound) != 0 && U32(colRound) != 0
    requires b.Height() <= RoundUp(b.Height(), rowRound) && b.width <= RoundUp(b.width, colRound)
    requires RoundUp(b.Height(), rowRound) * RoundUp(b.width, colRound) < Two32
    ensures fresh(img) && img.Valid() && img.store.count == 1
    ensures img.nrows == RoundUp(b.Height(), rowRound) && img.ncols == RoundUp(b.width, colRound)
    ensures forall r: nat, c: nat :: r < img.nrows && c < img.ncols ==>
              img.At(r, c) == Converted(b, initVal, r, c)
  {
    var nrows := b.Height();
    var ncols := b.width;
    var nrowsRound := RoundUp(nrows, rowRound);
    var ncolsRound := RoundUp(ncols, colRound);
    img := new Image(nrowsRound, ncolsRound);

    var r := 0;
    while r < nrowsRound
      invariant 0 <= r <= nrowsRound
      invariant fresh(img) && fresh(img.store) && fresh(img.store.data)
      invariant img.Valid() && img.store.count == 1
      invariant img.nrows == nrowsRound && img.ncols == ncolsRound
      invariant forall i :: 0 <= i < |img.Pixels()| && i < Offset(r, 0, ncolsRound) ==>
                  img.Pixels()[i] == initVal
    {
      PadRow(img, r, initVal);
      OffsetNextRow(r, ncolsRound);
      r := r + 1;
    }
    assert |img.Pixels()| == Offset(nrowsRound, 0, ncolsRound);

    r := 0;
    while r < nrows
      invariant 0 <= r <= nrows
      invariant fresh(img) && fresh(img.store) && fresh(img.store.data)
      invariant img.Valid() && img.store.count == 1
      invariant img.nrows == nrowsRound && img.ncols == ncolsRound
      invariant forall i :: 0 <= i < |img.Pixels()| ==>
                  img.Pixels()[i] ==
                  if i < Offset(r, 0, ncolsRound) then ConvertedAt(b, initVal, ncolsRound, i) else initVal
    {
      ghost var before := img.Pixels();
      CopyRow(img, b, r);
      CopiedRow(b, initVal, nrowsRound, ncolsRound, r, before, img.Pixels());
      r := r + 1;
    }

    forall r: nat, c: nat | r < nrowsRound && c < ncolsRound
      ensures img.At(r, c) == Converted(b, initVal, r, c)
    {
      OffsetDecodes(r, c, ncolsRound);
      if r >= nrows {
        MulMono(nrows, r, ncolsRound);
      } else {
        OffsetInRange(r, c, nrows, ncolsRound);
      }
    }
  }
}
