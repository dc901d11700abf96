/** The row-major 2-D image (image2d) whose pixel storage is shared between
    handles through a reference-counted wrapper (data_wrapper). */
module Image2D {
  import opened Unsigned

  // ---------------------------------------------------------------------------
  // Row-major layout
  // ---------------------------------------------------------------------------

  /** Storage index of element (r, c) in an image with ncols columns. */
  function Offset(r: nat, c: nat, ncols: nat): nat
  {
    r * ncols + c
  }

  /** Every element of an nrows x ncols image lies inside its nrows * ncols storage. */
  lemma OffsetInRange(r: nat, c: nat, nrows: nat, ncols: nat)
    requires r < nrows && c < ncols
    ensures Offset(r, c, ncols) < nrows * ncols
  {
    calc {
      Offset(r, c, ncols);
    <
      r * ncols + ncols;
    ==
      (r + 1) * ncols;
    <= { MulMono(r + 1, nrows, ncols); }
      nrows * ncols;
    }
  }

  lemma MulMono(a: nat, b: nat, k: nat)
    requires a <= b
    ensures a * k <= b * k
  {
  }

  /** Distinct elements have distinct storage indices. */
  lemma OffsetInjective(r1: nat, c1: nat, r2: nat, c2: nat, ncols: nat)
    requires c1 < ncols && c2 < ncols
    requires Offset(r1, c1, ncols) == Offset(r2, c2, ncols)
    ensures r1 == r2 && c1 == c2
  {
    if r1 < r2 {
      MulMono(r1 + 1, r2, ncols);
      assert false;
    } else if r2 < r1 {
      MulMono(r2 + 1, r1, ncols);
      assert false;
    }
  }

  /** The row-major walk: the element after the last of row r is the first of row r+1. */
  lemma OffsetNextRow(r: nat, ncols: nat)
    ensures Offset(r, ncols, ncols) == Offset(r + 1, 0, ncols)
  {
  }

  /** The rows before row r + 1 fit in the storage of an image with more than r rows. */
  lemma RowEndInRange(r: nat, nrows: nat, ncols: nat)
    requires r < nrows
    ensures Offset(r, ncols, ncols) <= nrows * ncols
  {
    MulMono(r + 1, nrows, ncols);
  }

  /** Storage index r * ncols + c decodes back to row r and column c. */
  lemma OffsetDecodes(r: nat, c: nat, ncols: nat)
    requires c < ncols
    ensures Offset(r, c, ncols) / ncols == r && Offset(r, c, ncols) % ncols == c
  {
    var i := Offset(r, c, ncols);
    OffsetOnto(i, ncols);
    OffsetInjective(i / ncols, i % ncols, r, c, ncols);
  }

  /** Every storage index is the offset of exactly one element. */
  lemma OffsetOnto(i: nat, ncols: nat)
    requires ncols > 0
    ensures i / ncols * ncols + i % ncols == i
    ensures Offset(i / ncols, i % ncols, ncols) == i && i % ncols < ncols
  {
  }

  // ---------------------------------------------------------------------------
  // The shared, reference-counted storage
  // ---------------------------------------------------------------------------

  /** data_wrapper: the pixel array and the number of handles sharing it. */
  class DataWrapper<T(0)> {
    var data: array?<T>
    var count: nat

    /** A new wrapper owns `size` fresh elements and has one sharer. */
    constructor(size: nat)
      ensures data != null && fresh(data) && data.Length == size
      ensures count == 1
    {
      data := new T[size];
      count := 1;
    }

    /** `ref`: one more sharer. */
    method Ref()
      modifies this
      ensures count == old(count) + 1
      ensures data == old(data)
    {
      count := count + 1;
    }

    /** `unref` as written: the count drops by one, the result says whether
        it reached zero, and the data pointer is cleared in every case. */
    method Unref() returns (last: bool)
      requires count > 0
      modifies this
      ensures count == old(count) - 1
      ensures last <==> count == 0
      ensures data == null
    {
      count := count - 1;
      data := null;
      last := count == 0;
    }

    /** `unref` as evidently intended: the data pointer is cleared only when
        the last sharer lets go; other sharers keep their pixels. */
    method Release() returns (last: bool)
      requires count > 0
      modifies this
      ensures count == old(count) - 1
      ensures last <==> count == 0
      ensures data == if last then null else old(data)
    {
      count := count - 1;
      if count == 0 {
        data := null;
      }
      last := count == 0;
    }

    /** The const `operator[]`: unchecked, so the index bound is the caller's. */
    method Get(i: nat) returns (v: T)
      requires data != null && i < data.Length
      ensures v == data[i]
    {
      v := data[i];
    }

    /** A write through the mutable `operator[]`: element i alone changes. */
    method Put(i: nat, v: T)
      requires data != null && i < data.Length
      modifies data
      ensures data[..] == old(data[..])[i := v]
    {
      data[i] := v;
    }
  }

  // ---------------------------------------------------------------------------
  // The image handle
  // ---------------------------------------------------------------------------

  /** image2d: dimensions and a pointer to shared storage. */
  class Image<T(0)> {
    var nrows: nat
    var ncols: nat
    var store: DataWrapper<T>

    /** A live handle: its storage holds nrows * ncols elements and counts it.
        The element count is an `unsigned` product, so it stays below 2^32. */
    ghost predicate Valid()
      reads this, store
    {
      store.data != null && store.data.Length == nrows * ncols && nrows * ncols < Two32 && store.count >= 1
    }

    /** The pixels in storage order. */
    ghost function Pixels(): seq<T>
      reads this, store, store.data
      requires Valid()
    {
      store.data[..]
    }

    /** The const `operator()(row, col)`: storage element row * ncols + col. */
    function At(r: nat, c: nat): (v: T)
      reads this, store, store.data
      requires Valid() && r < nrows && c < ncols
      ensures Offset(r, c, ncols) < |Pixels()| && v == Pixels()[Offset(r, c, ncols)]
    {
      OffsetInRange(r, c, nrows, ncols);
      store.data[Offset(r, c, ncols)]
    }

    /** `image2d(nrows, ncols)`: fresh storage of nrows * ncols elements, count 1.
        The element count is computed in `unsigned`, so it must stay below 2^32. */
    constructor(nr: nat, nc: nat)
      requires nr * nc < Two32
      ensures nrows == nr && ncols == nc
      ensures fresh(store) && fresh(store.data)
      ensures store.count == 1 && Valid()
    {
      nrows, ncols := nr, nc;
      store := new DataWrapper(nr * nc);
    }

    /** The copy constructor: shares the other handle's storage and counts one more sharer. */
    constructor Copy(other: Image<T>)
      requires other.Valid()
      modifies other.store
      ensures nrows == other.nrows && ncols == other.ncols
      ensures store == other.store && store.data == old(other.store.data)
      ensures store.count == old(other.store.count) + 1
      ensures Valid() && other.Valid()
    {
      nrows, ncols := other.nrows, other.ncols;
      store := other.store;
      new;
      store.Ref();
    }

    /** `operator=`: a distinct source is shared and counted; the storage held
        before is neither released nor changed. Self-assignment changes nothing. */
    method Assign(other: Image<T>)
      requires Valid() && other.Valid()
      modifies this, other.store
      ensures this == other ==> nrows == old(nrows) && ncols == old(ncols) && store == old(store)
                                && store.count == old(store.count)
      ensures this != other ==> nrows == other.nrows && ncols == other.ncols && store == other.store
                                && store.count == old(other.store.count) + 1
      ensures old(store) != other.store ==>
                old(store).count == old(store.count) && old(store).data == old(store.data)
      ensures this != other ==> store.data == old(other.store.data)
      ensures this == other ==> store.data == old(store.data)
      ensures Valid() && other.Valid()
    {
      if this != other {
        nrows, ncols := other.nrows, other.ncols;
        store := other.store;
        store.Ref();
      }
    }

    /** The destructor as written: one sharer fewer and the storage deleted
        exactly when the count reaches zero, but through `unref`, which clears
        the data pointer of the sharers that remain as well. */
    method DestroyAsWritten() returns (deleted: bool)
      requires Valid()
      modifies store
      ensures store.count == old(store.count) - 1
      ensures deleted <==> old(store.count) == 1
      ensures store.data == null
    {
      deleted := store.Unref();
    }

    /** The destructor as evidently intended: one sharer fewer; the storage is
        deleted exactly when the count reaches zero, and the other sharers keep
        their pixels. */
    method Destroy() returns (deleted: bool)
      requires Valid()
      modifies store
      ensures store.count == old(store.count) - 1
      ensures deleted <==> old(store.count) == 1
      ensures !deleted ==> Valid() && store.data == old(store.data)
    {
      deleted := store.Release();
    }

    /** The mutable `operator()(row, col)` written through: storage element
        row * ncols + col becomes v, and every handle sharing the storage sees
        it; `WriteKeepsOthers` shows that no other element changes. */
    method Set(r: nat, c: nat, v: T)
      requires Valid() && r < nrows && c < ncols
      modifies store.data
      ensures Valid()
      ensures Offset(r, c, ncols) < |old(Pixels())|
      ensures Pixels() == old(Pixels())[Offset(r, c, ncols) := v]
      ensures At(r, c) == v
    {
      OffsetInRange(r, c, nrows, ncols);
      store.Put(Offset(r, c, ncols), v);
    }

    /** `clone`: an image of the same dimensions and pixels in fresh storage
        with count 1, so that later writes to either do not reach the other. */
    method Clone() returns (img: Image<T>)
      requires Valid()
      ensures fresh(img) && fresh(img.store) && fresh(img.store.data)
      ensures img.Valid() && img.store.count == 1
      ensures img.nrows == nrows && img.ncols == ncols
      ensures img.Pixels() == Pixels()
      ensures forall r: nat, c: nat :: r < nrows && c < ncols ==> img.At(r, c) == At(r, c)
    {
      img := new Image(nrows, ncols);
      var r := 0;
      while r < nrows
        invariant 0 <= r <= nrows
        invariant fresh(img) && fresh(img.store) && fresh(img.store.data)
        invariant img.Valid() && img.store.count == 1
        invariant img.nrows == nrows && img.ncols == ncols
        invariant Offset(r, 0, ncols) <= nrows * ncols
        invariant img.Pixels()[..Offset(r, 0, ncols)] == Pixels()[..Offset(r, 0, ncols)]
      {
        CopyRowTo(img, r);
        r := r + 1;
      }
      assert Offset(nrows, 0, ncols) == nrows * ncols;
      assert img.Pixels() == img.Pixels()[..nrows * ncols] == Pixels()[..nrows * ncols] == Pixels();
    }

    /** The inner loop of `clone`: row r of this image is written into img,
        which has the same dimensions and storage of its own. */
    method CopyRowTo(img: Image<T>, r: nat)
      requires Valid() && img.Valid() && r < nrows
      requires img.nrows == nrows && img.ncols == ncols && img.store.data != store.data
      requires Offset(r, 0, ncols) <= nrows * ncols
      requires img.Pixels()[..Offset(r, 0, ncols)] == Pixels()[..Offset(r, 0, ncols)]
      modifies img.store.data
      ensures img.Valid()
      ensures Offset(r + 1, 0, ncols) <= nrows * ncols
      ensures img.Pixels()[..Offset(r + 1, 0, ncols)] == Pixels()[..Offset(r + 1, 0, ncols)]
    {
      var c := 0;
      while c < ncols
        invariant 0 <= c <= ncols
        invariant img.Valid()
        invariant Offset(r, c, ncols) <= nrows * ncols
        invariant img.Pixels()[..Offset(r, c, ncols)] == Pixels()[..Offset(r, c, ncols)]
      {
        OffsetInRange(r, c, nrows, ncols);
        img.Set(r, c, At(r, c));
        c := c + 1;
      }
      OffsetNextRow(r, ncols);
    }
  }

  /** A write to element (r, c) leaves every other element of the image as it was. */
  lemma WriteKeepsOthers<T>(pixels: seq<T>, nrows: nat, ncols: nat, r: nat, c: nat, v: T)
    requires |pixels| == nrows * ncols && r < nrows && c < ncols
    ensures Offset(r, c, ncols) < |pixels|
    ensures forall r': nat, c': nat :: r' < nrows && c' < ncols && (r' != r || c' != c) ==>
              Offset(r', c', ncols) < |pixels| &&
              pixels[Offset(r, c, ncols) := v][Offset(r', c', ncols)] == pixels[Offset(r', c', ncols)]
  {
    OffsetInRange(r, c, nrows, ncols);
    forall r': nat, c': nat | r' < nrows && c' < ncols && (r' != r || c' != c)
      ensures Offset(r', c', ncols) < |pixels|
      ensures pixels[Offset(r, c, ncols) := v][Offset(r', c', ncols)] == pixels[Offset(r', c', ncols)]
    {
      OffsetInRange(r', c', nrows, ncols);
      if Offset(r', c', ncols) == Offset(r, c, ncols) {
        OffsetInjective(r', c', r, c, ncols);
      }
    }
  }

  // ---------------------------------------------------------------------------
  // Sharing, as the handles see it
  // ---------------------------------------------------------------------------

  /** A write through a copy of any image is visible through the original,
      at any element. */
  method SharedWrite(a: Image<int>, r: nat, c: nat, v: int) returns (seen: int)
    requires a.Valid() && r < a.nrows && c < a.ncols
    modifies a.store, a.store.data
    ensures seen == v
  {
    var b := new Image.Copy(a);
    b.Set(r, c, v);
    seen := a.At(r, c);
  }

  /** A write to a clone of any image is not visible through the original, at
      any element. */
  method CloneIsolated(a: Image<int>, r: nat, c: nat, w: int) returns (original: int, copy: int)
    requires a.Valid() && r < a.nrows && c < a.ncols
    ensures original == old(a.At(r, c)) && copy == w
  {
    var b := a.Clone();
    b.Set(r, c, w);
    original := a.At(r, c);
    copy := b.At(r, c);
  }

  /** With the destructor as written, destroying a copy of any image leaves
      the original counted as before but without its pixels. */
  method SharedUnrefLosesData(a: Image<int>) returns (count: nat, hasData: bool)
    requires a.Valid()
    modifies a.store
    ensures count == old(a.store.count) && count >= 1 && !hasData
  {
    var b := new Image.Copy(a);
    var deleted := b.DestroyAsWritten();
    count, hasData := a.store.count, a.store.data != null;
  }

  /** With the destructor as evidently intended, destroying a copy of any
      image leaves the original counted as before, a live handle, and every
      pixel as it was. */
  method SharedReleaseKeepsData(a: Image<int>, r: nat, c: nat) returns (count: nat, seen: int)
    requires a.Valid() && r < a.nrows && c < a.ncols
    modifies a.store
    ensures a.Valid() && count == old(a.store.count)
    ensures a.Pixels() == old(a.Pixels()) && seen == old(a.At(r, c))
  {
    var b := new Image.Copy(a);
    var deleted := b.Destroy();
    count := a.store.count;
    seen := a.At(r, c);
  }
}
