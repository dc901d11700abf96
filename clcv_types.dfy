/** The records and device-side values the CLCV session keeps: buffer pairs,
    work-size ranges, image and structuring-element records, kernels with their
    arguments, and the commands a session enqueues. Every OpenCL object is an
    abstract handle. */
module ClcvTypes {
  import opened Win2D
  import opened Point2D
  import opened Unsigned

  /** `sizeof (cl_int)`: the session is instantiated on `cl_int` pixels. */
  const IntSize: nat := 4

  type BufferId = nat
  type ImageId = nat
  type SeId = nat

  /** `clcv_bufferpair`: first is the "in" buffer, second the "out" buffer. */
  datatype BufferPair = BufferPair(first: BufferId, second: BufferId)
  {
    /** The pair with the two roles exchanged. */
    function Swapped(): (p: BufferPair)
      ensures p.first == second && p.second == first
    {
      BufferPair(second, first)
    }
  }

  /** Swapping roles twice restores them. */
  lemma SwapTwice(p: BufferPair)
    ensures p.Swapped().Swapped() == p
  {
  }

  /** `cl::NDRange`: up to three sizes; a dimension that is not given reads as 0. */
  datatype NDRange = NDRange(sizes: seq<nat>)
  {
    function Dimensions(): nat
    {
      |sizes|
    }

    function Size(i: nat): (n: nat)
      ensures i < Dimensions() ==> n == sizes[i]
      ensures Dimensions() <= i ==> n == 0
    {
      if i < |sizes| then sizes[i] else 0
    }
  }

  /** `cl::NullRange`: no dimensions. */
  const NullRange: NDRange := NDRange([])

  /** The device classes a session can be asked for. */
  datatype DeviceType = Cpu | Gpu | Accelerator

  /** `get_device_fallback`: the requested class when a device of it exists,
      else a CPU device, which `get_cpu_device` asserts there is. */
  function DeviceFallback(requested: DeviceType, available: set<DeviceType>): (d: DeviceType)
    requires requested in available || Cpu in available
    ensures d == requested || d == Cpu
    ensures d == requested <==> requested in available || requested == Cpu
  {
    if requested in available then requested else Cpu
  }

  /** Work-items per work-group of the packed kernels: 1 on a CPU, 64 otherwise. */
  function Lanes(device: DeviceType): (n: nat)
    ensures n == 1 || n == 64
    ensures n == 1 <==> device == Cpu
  {
    if device == Cpu then 1 else 64
  }

  /** `clcv_image`: the host copy of the pixels, the dimensions, the buffer pair
      and the default global work size. */
  datatype ImageRecord = ImageRecord(data: seq<int>, nrows: nat, ncols: nat,
                                     buffers: BufferPair, globalWorkSize: NDRange)
  {
    function Pixels(): nat
    {
      nrows * ncols
    }

    /** The byte size the pool is keyed by. */
    function Bytes(): nat
    {
      nrows * ncols * IntSize
    }
  }

  /** `clcv_se`: the device buffer of triples, the window's extent, its radii,
      the buffer's byte size and the number of entries. */
  datatype SeRecord = SeRecord(clmem: BufferId, nrows: nat, ncols: nat, rowrad: nat, colrad: nat,
                               bufferSize: nat, seNonzero: nat)

  /** The kernels of the program that the session dispatches. */
  datatype KernelName = Unbitmap | Binarize | BitmappedBinarize | NaiveMorph

  /** A kernel argument: a buffer, an integer, or a local scratch area of some bytes. */
  datatype KernelArg = Mem(buffer: BufferId) | Int(value: int) | Local(bytes: nat)

  /** A kernel with its arguments bound; arguments 0 and 1 are the image in
      and out buffers. */
  datatype Kernel = Kernel(name: KernelName, args: seq<KernelArg>)
  {
    predicate WellFormed()
    {
      |args| >= 2 && args[0].Mem? && args[1].Mem?
    }

    function Input(): BufferId
      requires WellFormed()
    {
      args[0].buffer
    }

    function Output(): BufferId
      requires WellFormed()
    {
      args[1].buffer
    }
  }

  /** A command of the in-order queue. */
  datatype Command =
    | Write(buffer: BufferId, data: seq<int>)
    | Read(buffer: BufferId, count: nat)
    | Run(kernel: Kernel, global: NDRange, local: NDRange)

  /** What a kernel computes is not part of this model: element i of the out
      buffer is whatever this function says, given the kernel and the device
      memory it starts from. */
  type KernelSemantics = (Kernel, map<BufferId, seq<int>>, nat) -> int

  // ---------------------------------------------------------------------------
  // Kernel construction
  // ---------------------------------------------------------------------------

  /** `create_unbitmap`: binds only the in and out buffers; the dimensions it
      is handed are not passed on. */
  function CreateUnbitmap(input: BufferId, output: BufferId, nrows: int, ncols: int): (k: Kernel)
    ensures k.WellFormed() && k.name == Unbitmap
    ensures k.Input() == input && k.Output() == output && |k.args| == 2
  {
    Kernel(Unbitmap, [Mem(input), Mem(output)])
  }

  /** `create_binarize`: in, out, the dimensions, the threshold and the two output levels. */
  function CreateBinarize(input: BufferId, output: BufferId, nrows: int, ncols: int,
                          threshold: int, min: int, max: int): (k: Kernel)
    ensures k.WellFormed() && k.name == Binarize
    ensures k.Input() == input && k.Output() == output
    ensures k.args[2..] == [Int(nrows), Int(ncols), Int(threshold), Int(min), Int(max)]
  {
    Kernel(Binarize, [Mem(input), Mem(output), Int(nrows), Int(ncols), Int(threshold), Int(min), Int(max)])
  }

  /** `create_bitmappedbinarize`: the packed size must fill whole work-groups of
      32-pixel words; exactly one of (hit, miss) is 1, hit when inverted; the
      scratch holds one `cl_int` per bit of a work-group. */
  function CreateBitmappedBinarize(device: DeviceType, input: BufferId, output: BufferId,
                                   nrows: int, ncols: int, threshold: int,
                                   inverted: bool := false): (k: Kernel)
    requires (nrows * ncols) % (32 * Lanes(device)) == 0
    ensures k.WellFormed() && k.name == BitmappedBinarize
    ensures k.Input() == input && k.Output() == output && |k.args| == 6
    ensures k.args[2] == Int(threshold)
    ensures k.args[3..5] == if inverted then [Int(1), Int(0)] else [Int(0), Int(1)]
    ensures k.args[5] == Local(32 * Lanes(device) * IntSize)
  {
    Kernel(BitmappedBinarize, [Mem(input), Mem(output), Int(threshold),
                               Int(if inverted then 1 else 0), Int(if inverted then 0 else 1),
                               Local(32 * Lanes(device) * IntSize)])
  }

  /** The scratch of the naive morphology kernel: a local tile widened by the
      radii on both sides, in `cl_int`s. */
  function MorphScratch(local: NDRange, rowrad: nat, colrad: nat): nat
  {
    (local.Size(0) + colrad * 2) * (local.Size(1) + rowrad * 2) * IntSize
  }

  /** `create_naivemorph` for a loaded SE: the dimensions, the SE buffer and
      descriptor, the target sum, a local copy of the SE and the tile scratch. */
  function CreateNaiveMorph(input: BufferId, output: BufferId, nrows: int, ncols: int,
                            se: SeRecord, targetSum: int, local: NDRange): (k: Kernel)
    ensures k.WellFormed() && k.name == NaiveMorph
    ensures k.Input() == input && k.Output() == output && |k.args| == 11
    ensures k.args[2..4] == [Int(nrows), Int(ncols)]
    ensures k.args[4] == Mem(se.clmem)
    ensures k.args[5..7] == [Int(se.rowrad), Int(se.colrad)]
    ensures k.args[7] == Int(se.seNonzero) && k.args[8] == Int(targetSum)
    ensures k.args[9] == Local(se.bufferSize)
    ensures k.args[10] == Local((local.Size(0) + 2 * se.colrad) * (local.Size(1) + 2 * se.rowrad) * IntSize)
  {
    Kernel(NaiveMorph, [Mem(input), Mem(output), Int(nrows), Int(ncols), Mem(se.clmem),
                        Int(se.rowrad), Int(se.colrad), Int(se.seNonzero), Int(targetSum),
                        Local(se.bufferSize), Local(MorphScratch(local, se.rowrad, se.colrad))])
  }

  /** The target sum of a naive dilation: 1 - se_nonzero. */
  function DilationTarget(se: SeRecord): (t: int)
    ensures t + se.seNonzero == 1
  {
    -(se.seNonzero as int) + 1
  }

  /** The target sum of a naive erosion: se_nonzero. */
  function ErosionTarget(se: SeRecord): (t: int)
    ensures t == se.seNonzero && t + DilationTarget(se) == 1
  {
    se.seNonzero
  }

  /** `create_naivedilation`: the naive morphology kernel with target 1 - se_nonzero. */
  function CreateNaiveDilation(input: BufferId, output: BufferId, nrows: int, ncols: int,
                               se: SeRecord, local: NDRange): (k: Kernel)
    ensures k.WellFormed() && k.Input() == input && k.Output() == output && |k.args| == 11
    ensures k.args[8] == Int(1 - se.seNonzero)
  {
    CreateNaiveMorph(input, output, nrows, ncols, se, DilationTarget(se), local)
  }

  /** `create_naiveerosion`: the naive morphology kernel with target se_nonzero. */
  function CreateNaiveErosion(input: BufferId, output: BufferId, nrows: int, ncols: int,
                              se: SeRecord, local: NDRange): (k: Kernel)
    ensures k.WellFormed() && k.Input() == input && k.Output() == output && |k.args| == 11
    ensures k.args[8] == Int(se.seNonzero)
  {
    CreateNaiveMorph(input, output, nrows, ncols, se, ErosionTarget(se), local)
  }

  // ---------------------------------------------------------------------------
  // The structuring element as uploaded
  // ---------------------------------------------------------------------------

  /** The triples (row, col, weight) of the entries, in window order. */
  function SeLayout(es: seq<Entry>): (t: seq<int>)
    ensures |t| == 3 * |es|
  {
    if |es| == 0 then [] else SeLayout(es[..|es| - 1]) + [es[|es| - 1].p.row, es[|es| - 1].p.col, es[|es| - 1].weight]
  }

  /** Entry k of the window sits at positions 3k, 3k+1 and 3k+2 of the upload. */
  lemma {:induction false} SeLayoutAt(es: seq<Entry>, k: nat)
    requires k < |es|
    ensures SeLayout(es)[3 * k] == es[k].p.row
    ensures SeLayout(es)[3 * k + 1] == es[k].p.col
    ensures SeLayout(es)[3 * k + 2] == es[k].weight
  {
    if k < |es| - 1 {
      SeLayoutAt(es[..|es| - 1], k);
    }
  }

  /** The upload of a window is the concatenation of its prefixes' uploads. */
  lemma SeLayoutAppend(es: seq<Entry>, e: Entry)
    ensures SeLayout(es + [e]) == SeLayout(es) + [e.p.row, e.p.col, e.weight]
  {
    assert (es + [e])[..|es|] == es;
  }

  /** Loading a window built from a table listed in window order uploads the
      table itself. */
  lemma {:induction false} SeLayoutOfTable(c: seq<Coord>, n: nat)
    requires 3 * n <= |c| && IncreasingTriples(c, n)
    ensures SeLayout(Built(c, n)) == c[..3 * n]
  {
    BuiltIncreasing(c, n);
    TriplesLayout(c, n);
  }

  lemma {:induction false} TriplesLayout(c: seq<Coord>, n: nat)
    requires 3 * n <= |c|
    ensures SeLayout(Triples(c, n)) == c[..3 * n]
  {
    if n > 0 {
      var k := n - 1;
      TriplesLayout(c, k);
      LayoutStep(c, k);
      SliceSplit(c, 3 * k, 3 * n);
    }
  }

  /** Adding triple k of a table appends its three coordinates to the upload. */
  lemma LayoutStep(c: seq<Coord>, k: nat)
    requires 3 * k + 3 <= |c|
    ensures SeLayout(Triples(c, k + 1)) == SeLayout(Triples(c, k)) + c[3 * k..3 * k + 3]
  {
    SeLayoutAppend(Triples(c, k), Triple(c, k));
    assert c[3 * k..3 * k + 3] == [c[3 * k], c[3 * k + 1], c[3 * k + 2]];
  }

  lemma SliceSplit(c: seq<Coord>, a: nat, b: nat)
    requires a <= b <= |c|
    ensures c[..b] == c[..a] + c[a..b]
  {
  }
}
