/** The device session CLCV<cl_int>: a pool of buffer pairs keyed by byte
    size, the open images and loaded structuring elements with their id
    counters, the current image, the work sizes, and, on the device side, the
    allocated buffers, their contents and the in-order command queue. */
module Clcv {
  import opened Unsigned
  import opened Point2D
  import opened Win2D
  import opened Image2D
  import opened ClcvTypes

  /** The contents a newly created buffer happens to hold, element by element. */
  type BufferFill = (BufferId, nat) -> int

  // ---------------------------------------------------------------------------
  // The session invariant, over the session's values
  // ---------------------------------------------------------------------------

  /** Two distinct allocated buffers of the given byte size. */
  ghost predicate PairOk(bytes: map<BufferId, nat>, p: BufferPair, size: nat)
  {
    && p.first != p.second
    && p.first in bytes && p.second in bytes
    && bytes[p.first] == size && bytes[p.second] == size
  }

  /** An open image: its host copy has one element per pixel, its default
      global size is (ncols, nrows), and its pair is sized for its pixels. */
  ghost predicate ImageOk(bytes: map<BufferId, nat>, rec: ImageRecord)
  {
    && |rec.data| == rec.Pixels() && rec.Pixels() < Two32
    && rec.globalWorkSize == NDRange([rec.ncols, rec.nrows])
    && PairOk(bytes, rec.buffers, rec.Bytes())
  }

  /** A loaded SE: its buffer holds one triple per entry. */
  ghost predicate SeOk(bytes: map<BufferId, nat>, se: SeRecord)
  {
    && se.clmem in bytes
    && se.bufferSize == se.seNonzero * IntSize * 3
    && bytes[se.clmem] == se.bufferSize
  }

  /** Buffers are numbered below the counter, and each holds as many elements
      as its byte size allows. */
  ghost predicate BuffersOk(next: BufferId, bytes: map<BufferId, nat>, memory: map<BufferId, seq<int>>)
  {
    && (forall b :: b in bytes ==> b < next)
    && memory.Keys == bytes.Keys
    && (forall b :: b in memory ==> |memory[b]| == bytes[b] / IntSize)
  }

  /** Every pool entry is a pair of buffers of its key's size. */
  ghost predicate PoolOk(bytes: map<BufferId, nat>, pool: map<nat, BufferPair>)
  {
    forall size :: size in pool ==> PairOk(bytes, pool[size], size)
  }

  /** Image ids are 1 up to the counter, and every open image is well formed. */
  ghost predicate ImagesOk(bytes: map<BufferId, nat>, images: map<ImageId, ImageRecord>, next: ImageId)
  {
    && 1 <= next
    && forall id :: id in images ==> 1 <= id < next && ImageOk(bytes, images[id])
  }

  /** SE ids are below the counter, and every loaded SE is well formed. */
  ghost predicate SesOk(bytes: map<BufferId, nat>, ses: map<SeId, SeRecord>, next: SeId)
  {
    forall id :: id in ses ==> id < next && SeOk(bytes, ses[id])
  }

  /** A byte size made of whole `cl_int`s holds that many elements. */
  lemma ElementsOfBytes(n: nat)
    ensures (n * IntSize) / IntSize == n && (n * IntSize) % IntSize == 0
  {
  }

  /** The byte size of n triples of `cl_int`s, counted either way. */
  lemma TripleBytes(n: nat)
    ensures (3 * n) * IntSize == n * IntSize * 3 == 12 * n
  {
  }

  /** Swapping an image's roles twice leaves the image table as it was. */
  lemma RolesRestored(images: map<ImageId, ImageRecord>, id: ImageId)
    requires id in images
    ensures var rec := images[id];
            var swapped := rec.(buffers := rec.buffers.Swapped());
            images[id := swapped][id := swapped.(buffers := swapped.buffers.Swapped())] == images
  {
    var rec := images[id];
    assert rec.buffers.Swapped().Swapped() == rec.buffers;
  }

  /** `bytes2` keeps every buffer of `bytes` with its size. */
  ghost predicate Extends(bytes: map<BufferId, nat>, bytes2: map<BufferId, nat>)
  {
    forall b :: b in bytes ==> b in bytes2 && bytes2[b] == bytes[b]
  }

  /** Creating buffers keeps every pair, image and SE well formed. */
  lemma ExtendsKeeps(bytes: map<BufferId, nat>, bytes2: map<BufferId, nat>,
                     pool: map<nat, BufferPair>, images: map<ImageId, ImageRecord>, nextImage: ImageId,
                     ses: map<SeId, SeRecord>, nextSe: SeId)
    requires Extends(bytes, bytes2)
    ensures PoolOk(bytes, pool) ==> PoolOk(bytes2, pool)
    ensures ImagesOk(bytes, images, nextImage) ==> ImagesOk(bytes2, images, nextImage)
    ensures SesOk(bytes, ses, nextSe) ==> SesOk(bytes2, ses, nextSe)
  {
  }

  class Session {
    /** The class of the device the session runs on. */
    const deviceType: DeviceType
    /** What the kernels compute. */
    const run: KernelSemantics
    /** What a buffer holds before anything is written to it. */
    const initial: BufferFill

    var globalWorkSize: NDRange
    var localWorkSize: NDRange
    /** `m_bufferpairs`: byte size -> (in, out). */
    var bufferPairs: map<nat, BufferPair>
    var images: map<ImageId, ImageRecord>
    var nextImageId: ImageId
    var currentImageId: ImageId
    var ses: map<SeId, SeRecord>
    var nextSeId: SeId

    /** Buffers are numbered in creation order and never reused. */
    var nextBufferId: BufferId
    /** The byte size of every buffer created. */
    var bufferBytes: map<BufferId, nat>
    /** The contents of every buffer created, one `cl_int` per element. */
    var memory: map<BufferId, seq<int>>
    /** The commands enqueued so far, oldest first. */
    var queue: seq<Command>

    ghost predicate Valid()
      reads this
    {
      && BuffersOk(nextBufferId, bufferBytes, memory)
      && PoolOk(bufferBytes, bufferPairs)
      && ImagesOk(bufferBytes, images, nextImageId)
      && (currentImageId == 0 || currentImageId in images)
      && SesOk(bufferBytes, ses, nextSeId)
    }

    /** The session on the requested device class (GPU unless said otherwise),
        falling back to a CPU, one of which must exist; nothing is open or loaded, image ids start at 1,
        SE ids at 0, and both work sizes are the null range. */
    constructor(run: KernelSemantics, initial: BufferFill, available: set<DeviceType>,
                requested: DeviceType := Gpu)
      requires requested in available || Cpu in available
      ensures deviceType == DeviceFallback(requested, available)
      ensures this.run == run && this.initial == initial
      ensures globalWorkSize == NullRange && localWorkSize == NullRange
      ensures bufferPairs == map[] && images == map[] && ses == map[]
      ensures nextImageId == 1 && currentImageId == 0 && nextSeId == 0
      ensures bufferBytes == map[] && memory == map[] && queue == []
      ensures Valid()
    {
      deviceType := DeviceFallback(requested, available);
      this.run := run;
      this.initial := initial;
      globalWorkSize, localWorkSize := NullRange, NullRange;
      bufferPairs := map[];
      images, nextImageId, currentImageId := map[], 1, 0;
      ses, nextSeId := map[], 0;
      nextBufferId, bufferBytes, memory, queue := 0, map[], map[], [];
    }

    // -------------------------------------------------------------------------
    // Work sizes
    // -------------------------------------------------------------------------

    /** `set_global_work_size`. */
    method SetGlobalWorkSize(g: NDRange)
      requires Valid()
      modifies this`globalWorkSize
      ensures Valid() && globalWorkSize == g
    {
      globalWorkSize := g;
    }

    /** `set_local_work_size`: a CPU device always gets (1, 1). */
    method SetLocalWorkSize(l: NDRange)
      requires Valid()
      modifies this`localWorkSize
      ensures Valid()
      ensures localWorkSize == if deviceType == Cpu then NDRange([1, 1]) else l
    {
      localWorkSize := if deviceType == Cpu then NDRange([1, 1]) else l;
    }

    // -------------------------------------------------------------------------
    // The buffer pool
    // -------------------------------------------------------------------------

    /** The contents of a new buffer of n elements. */
    function Blank(b: BufferId, n: nat): (s: seq<int>)
      ensures |s| == n
    {
      var f := initial;
      seq(n, i requires 0 <= i < n => f(b, i))
    }

    /** `get_bufferpair`: the stored pair when the size is a key; otherwise two
        new distinct buffers of that size, stored under it. No other entry of
        the pool changes. A buffer of 0 bytes is a `cl::Error`. */
    method GetBufferPair(size: nat) returns (pair: BufferPair)
      requires Valid() && size > 0
      modifies this`bufferPairs, this`nextBufferId, this`bufferBytes, this`memory
      ensures Valid()
      ensures PairOk(bufferBytes, pair, size)
      ensures bufferPairs == old(bufferPairs)[size := pair]
      ensures size in old(bufferPairs) ==>
                && pair == old(bufferPairs)[size] && bufferPairs == old(bufferPairs)
                && nextBufferId == old(nextBufferId)
                && bufferBytes == old(bufferBytes) && memory == old(memory)
      ensures size !in old(bufferPairs) ==>
                && pair == BufferPair(old(nextBufferId), old(nextBufferId) + 1)
                && nextBufferId == old(nextBufferId) + 2
                && bufferBytes == old(bufferBytes)[pair.first := size][pair.second := size]
                && memory == old(memory)[pair.first := Blank(pair.first, size / IntSize)]
                                        [pair.second := Blank(pair.second, size / IntSize)]
      ensures forall b :: b in old(memory) ==> b in memory && memory[b] == old(memory)[b]
    {
      if size in bufferPairs {
        pair := bufferPairs[size];
      } else {
        pair := NewBufferPair(size);
      }
    }

    /** The miss path of `get_bufferpair`: two new buffers of `size` bytes,
        filed in the pool under that size. */
    method NewBufferPair(size: nat) returns (pair: BufferPair)
      requires Valid() && size > 0 && size !in bufferPairs
      modifies this`bufferPairs, this`nextBufferId, this`bufferBytes, this`memory
      ensures Valid()
      ensures PairOk(bufferBytes, pair, size) && bufferPairs == old(bufferPairs)[size := pair]
      ensures pair == BufferPair(old(nextBufferId), old(nextBufferId) + 1)
      ensures nextBufferId == old(nextBufferId) + 2
      ensures bufferBytes == old(bufferBytes)[pair.first := size][pair.second := size]
      ensures memory == old(memory)[pair.first := Blank(pair.first, size / IntSize)]
                                   [pair.second := Blank(pair.second, size / IntSize)]
      ensures forall b :: b in old(memory) ==> b in memory && memory[b] == old(memory)[b]
    {
      var a := CreateBlank(size);
      var b := CreateBlank(size);
      pair := BufferPair(a, b);
      bufferPairs := bufferPairs[size := pair];
    }

    /** A new buffer of `size` bytes under the next buffer id, holding the
        device's initial contents. */
    method CreateBlank(size: nat) returns (b: BufferId)
      requires Valid() && size > 0
      modifies this`nextBufferId, this`bufferBytes, this`memory
      ensures Valid()
      ensures b == old(nextBufferId) && b !in old(bufferBytes) && nextBufferId == b + 1
      ensures bufferBytes == old(bufferBytes)[b := size]
      ensures memory == old(memory)[b := Blank(b, size / IntSize)]
    {
      b := nextBufferId;
      nextBufferId := nextBufferId + 1;
      bufferBytes := bufferBytes[b := size];
      memory := memory[b := Blank(b, size / IntSize)];
      ExtendsKeeps(old(bufferBytes), bufferBytes, bufferPairs, images, nextImageId, ses, nextSeId);
    }

    /** `clear_bufferpairs`: the pool forgets every pair; the buffers that open
        images hold stay with them. */
    method ClearBufferPairs()
      requires Valid()
      modifies this`bufferPairs
      ensures Valid() && bufferPairs == map[]
    {
      bufferPairs := map[];
    }

    // -------------------------------------------------------------------------
    // Images
    // -------------------------------------------------------------------------

    /** `get_image(id)`: the record of an open image, which must be open. */
    function GetImage(id: ImageId): (rec: ImageRecord)
      reads this
      requires Valid() && id in images
      ensures rec == images[id]
      ensures |rec.data| == rec.nrows * rec.ncols
      ensures rec.globalWorkSize == NDRange([rec.ncols, rec.nrows])
      ensures rec.buffers.first != rec.buffers.second
    {
      images[id]
    }

    /** `get_se(id)`: the record of a loaded SE, which must be loaded. */
    function GetSe(id: SeId): (se: SeRecord)
      reads this
      requires Valid() && id in ses
      ensures se == ses[id]
      ensures se.bufferSize == 3 * IntSize * se.seNonzero
      ensures se.clmem in memory && |memory[se.clmem]| == 3 * se.seNonzero
    {
      ses[id]
    }

    /** `open`: copies the pixels row by row into a host array, takes the pool
        pair for the image's byte size, files the record under the next id,
        makes it current, and enqueues the upload into its "in" buffer. An image
        without pixels would ask for a buffer of 0 bytes, which is a `cl::Error`. */
    method Open(img: Image<int>) returns (id: ImageId)
      requires Valid() && img.Valid()
      requires 0 < img.nrows * img.ncols && img.nrows * img.ncols * IntSize < Two32
      modifies this`bufferPairs, this`nextBufferId, this`bufferBytes, this`memory
      modifies this`images, this`nextImageId, this`currentImageId, this`queue
      ensures Valid()
      ensures id == old(nextImageId) && id !in old(images)
      ensures nextImageId == id + 1 && currentImageId == id
      ensures images == old(images)[id := images[id]]
      ensures images[id] == ImageRecord(old(img.Pixels()), img.nrows, img.ncols, images[id].buffers,
                                        NDRange([img.ncols, img.nrows]))
      ensures var size := img.nrows * img.ncols * IntSize;
              && bufferPairs == old(bufferPairs)[size := images[id].buffers]
              && (size in old(bufferPairs) ==> images[id].buffers == old(bufferPairs)[size])
              && (size !in old(bufferPairs) ==> images[id].buffers == BufferPair(old(nextBufferId), old(nextBufferId) + 1))
      ensures queue == old(queue) + [Write(images[id].buffers.first, images[id].data)]
      ensures images[id].buffers.first in memory && memory[images[id].buffers.first] == images[id].data
      ensures forall b :: b in old(memory) && b != images[id].buffers.first ==>
                b in memory && memory[b] == old(memory)[b]
    {
      var data := HostCopy(img);
      id := OpenCopied(img.nrows, img.ncols, data);
    }

    /** The session side of `open`, once the pixels are in a host array. */
    method OpenCopied(nrows: nat, ncols: nat, data: seq<int>) returns (id: ImageId)
      requires Valid() && |data| == nrows * ncols
      requires 0 < nrows * ncols && nrows * ncols * IntSize < Two32
      modifies this`bufferPairs, this`nextBufferId, this`bufferBytes, this`memory
      modifies this`images, this`nextImageId, this`currentImageId, this`queue
      ensures Valid()
      ensures id == old(nextImageId) && id !in old(images)
      ensures nextImageId == id + 1 && currentImageId == id
      ensures images == old(images)[id := images[id]]
      ensures images[id] == ImageRecord(data, nrows, ncols, images[id].buffers, NDRange([ncols, nrows]))
      ensures var size := nrows * ncols * IntSize;
              && bufferPairs == old(bufferPairs)[size := images[id].buffers]
              && (size in old(bufferPairs) ==> images[id].buffers == old(bufferPairs)[size])
              && (size !in old(bufferPairs) ==> images[id].buffers == BufferPair(old(nextBufferId), old(nextBufferId) + 1))
      ensures queue == old(queue) + [Write(images[id].buffers.first, data)]
      ensures images[id].buffers.first in memory && memory[images[id].buffers.first] == data
      ensures forall b :: b in old(memory) && b != images[id].buffers.first ==>
                b in memory && memory[b] == old(memory)[b]
    {
      var size := nrows * ncols * IntSize;
      var pair := GetBufferPair(size);
      var rec := ImageRecord(data, nrows, ncols, pair, NDRange([ncols, nrows]));
      assert ImageOk(bufferBytes, rec);
      id := Upload(rec);
    }

    /** Files a well-formed record as the current image and enqueues the
        upload of its pixels into its "in" buffer. */
    method Upload(rec: ImageRecord) returns (id: ImageId)
      requires Valid() && ImageOk(bufferBytes, rec)
      modifies this`images, this`nextImageId, this`currentImageId, this`memory, this`queue
      ensures Valid()
      ensures id == old(nextImageId) && id !in old(images)
      ensures nextImageId == id + 1 && currentImageId == id
      ensures images == old(images)[id := rec]
      ensures queue == old(queue) + [Write(rec.buffers.first, rec.data)]
      ensures memory == old(memory)[rec.buffers.first := rec.data]
    {
      id := Register(rec);
      ElementsOfBytes(rec.Pixels());
      WriteMem(rec.buffers.first, rec.data);
    }

    /** Files a well-formed record under the next image id and makes it current. */
    method Register(rec: ImageRecord) returns (id: ImageId)
      requires Valid() && ImageOk(bufferBytes, rec)
      modifies this`images, this`nextImageId, this`currentImageId
      ensures Valid()
      ensures id == old(nextImageId) && id !in old(images)
      ensures nextImageId == id + 1 && currentImageId == id
      ensures images == old(images)[id := rec]
    {
      id := nextImageId;
      nextImageId := nextImageId + 1;
      images := images[id := rec];
      currentImageId := id;
    }

    /** `write_mem`: enqueues the upload of `data` into a buffer of exactly
        its size, which then holds it. */
    method WriteMem(b: BufferId, data: seq<int>)
      requires Valid() && b in bufferBytes && bufferBytes[b] / IntSize == |data|
      modifies this`memory, this`queue
      ensures Valid()
      ensures queue == old(queue) + [Write(b, data)]
      ensures memory == old(memory)[b := data]
    {
      queue := queue + [Write(b, data)];
      memory := memory[b := data];
    }

    /** `fetch()`: reads the current image's "in" buffer back into its host copy. */
    method Fetch() returns (event: nat)
      requires Valid() && currentImageId in images
      modifies this`images, this`queue
      ensures Valid()
      ensures var rec := old(images[currentImageId]);
              && images == old(images)[currentImageId := rec.(data := memory[rec.buffers.first])]
              && queue == old(queue) + [Read(rec.buffers.first, rec.Bytes())]
      ensures event == |old(queue)|
    {
      var rec := images[currentImageId];
      assert rec.Bytes() / IntSize == rec.Pixels();
      images := images[currentImageId := rec.(data := memory[rec.buffers.first])];
      event := |queue|;
      queue := queue + [Read(rec.buffers.first, rec.Bytes())];
    }

    /** `fetch(size)`: reads the first `size` bytes of the current image's "in"
        buffer over the start of its host copy. */
    method FetchSize(size: nat) returns (event: nat)
      requires Valid() && currentImageId in images
      requires size % IntSize == 0 && size <= images[currentImageId].Bytes()
      modifies this`images, this`queue
      ensures Valid()
      ensures var rec := old(images[currentImageId]);
              var n := size / IntSize;
              && n <= |rec.data|
              && images == old(images)[currentImageId :=
                                         rec.(data := memory[rec.buffers.first][..n] + rec.data[n..])]
              && queue == old(queue) + [Read(rec.buffers.first, size)]
      ensures event == |old(queue)|
    {
      var rec := images[currentImageId];
      assert rec.Bytes() / IntSize == rec.Pixels();
      var n := size / IntSize;
      images := images[currentImageId := rec.(data := memory[rec.buffers.first][..n] + rec.data[n..])];
      event := |queue|;
      queue := queue + [Read(rec.buffers.first, size)];
    }

    /** `save`: a new image of the record's dimensions whose element (r, c) is
        host element r * ncols + c. */
    method Save(id: ImageId) returns (img: Image<int>)
      requires Valid() && id in images
      ensures fresh(img) && fresh(img.store) && fresh(img.store.data)
      ensures img.Valid() && img.store.count == 1
      ensures img.nrows == images[id].nrows && img.ncols == images[id].ncols
      ensures img.Pixels() == images[id].data
      ensures forall r: nat, c: nat :: r < img.nrows && c < img.ncols ==>
                Offset(r, c, img.ncols) < |images[id].data| && img.At(r, c) == images[id].data[Offset(r, c, img.ncols)]
    {
      var src := images[id];
      img := ImageOfRows(src.data, src.nrows, src.ncols);
    }

    /** `close`: forgets the image if it is open, and in every case leaves no
        image current. */
    method Close(id: ImageId)
      requires Valid()
      modifies this`images, this`currentImageId
      ensures Valid()
      ensures images == old(images) - {id} && currentImageId == 0
    {
      if id in images {
        images := images - {id};
      }
      currentImageId := 0;
    }

    /** `swap_buffers(id)`: exchanges the image's in and out roles, and nothing
        else; in particular the pool keeps the pair in its original order. */
    method SwapBuffers(id: ImageId)
      requires Valid() && id in images
      modifies this`images
      ensures Valid()
      ensures images == old(images)[id := old(images[id]).(buffers := old(images[id]).buffers.Swapped())]
    {
      var rec := images[id];
      images := images[id := rec.(buffers := rec.buffers.Swapped())];
    }

    // -------------------------------------------------------------------------
    // Structuring elements
    // -------------------------------------------------------------------------

    /** `load_se`: uploads the window's triples in window order into a new
        buffer and files the descriptor under the next SE id. The radii are
        maxrow and maxcol taken as unsigned. */
    method LoadSe(win: Window) returns (id: SeId)
      requires Valid() && win.Valid() && |win.entries| > 0
      modifies this`ses, this`nextSeId, this`nextBufferId, this`bufferBytes, this`memory
      ensures Valid()
      ensures id == old(nextSeId) && id !in old(ses) && nextSeId == id + 1
      ensures var b := old(nextBufferId);
              && ses == old(ses)[id := Descriptor(win.entries, b)]
              && nextBufferId == b + 1
              && bufferBytes == old(bufferBytes)[b := |win.entries| * IntSize * 3]
              && memory == old(memory)[b := SeLayout(win.entries)]
    {
      var se := Describe(win, nextBufferId);
      var buffer := UploadLayout(win.entries);
      var b := CreateBuffer(buffer);
      TripleBytes(|win.entries|);
      assert SeOk(bufferBytes, se);
      id := RegisterSe(se);
    }

    /** Files a descriptor whose buffer is in place under the next SE id. */
    method RegisterSe(se: SeRecord) returns (id: SeId)
      requires Valid() && SeOk(bufferBytes, se)
      modifies this`ses, this`nextSeId
      ensures Valid()
      ensures id == old(nextSeId) && id !in old(ses) && nextSeId == id + 1
      ensures ses == old(ses)[id := se]
    {
      id := nextSeId;
      nextSeId := nextSeId + 1;
      ses := ses[id := se];
    }

    /** A read-only buffer created from host data: the next buffer id, sized
        for the data and holding it. */
    method CreateBuffer(data: seq<int>) returns (b: BufferId)
      requires Valid() && |data| > 0
      modifies this`nextBufferId, this`bufferBytes, this`memory
      ensures Valid()
      ensures b == old(nextBufferId) && b !in old(bufferBytes) && nextBufferId == b + 1
      ensures bufferBytes == old(bufferBytes)[b := |data| * IntSize]
      ensures memory == old(memory)[b := data]
    {
      b := nextBufferId;
      nextBufferId := nextBufferId + 1;
      bufferBytes := bufferBytes[b := |data| * IntSize];
      ElementsOfBytes(|data|);
      memory := memory[b := data];
      ExtendsKeeps(old(bufferBytes), bufferBytes, bufferPairs, images, nextImageId, ses, nextSeId);
    }

    /** `unload_se`: forgets the SE if it is loaded; otherwise nothing happens. */
    method UnloadSe(id: SeId)
      requires Valid()
      modifies this`ses
      ensures Valid()
      ensures ses == old(ses) - {id}
    {
      if id in ses {
        ses := ses - {id};
      }
    }

    // -------------------------------------------------------------------------
    // Dispatch
    // -------------------------------------------------------------------------

    /** What a dispatch of k leaves in its out buffer of n elements. */
    function Outcome(k: Kernel, mem: map<BufferId, seq<int>>, n: nat): (s: seq<int>)
      ensures |s| == n
    {
      var f := run;
      seq(n, i requires 0 <= i < n => f(k, mem, i))
    }

    /** `enqueueNDRangeKernel`: one Run command at the end of the queue; the
        kernel's out buffer receives its outcome. */
    method Enqueue(k: Kernel, global: NDRange, local: NDRange) returns (event: nat)
      requires Valid() && k.WellFormed() && k.Output() in bufferBytes
      modifies this`memory, this`queue
      ensures Valid()
      ensures event == |old(queue)| && queue == old(queue) + [Run(k, global, local)]
      ensures memory == old(memory)[k.Output() := Outcome(k, old(memory), bufferBytes[k.Output()] / IntSize)]
    {
      memory := memory[k.Output() := Outcome(k, memory, bufferBytes[k.Output()] / IntSize)];
      event := |queue|;
      queue := queue + [Run(k, global, local)];
    }

    /** `push_unbitmap`: the pixel count must fill whole work-groups of 32-pixel
        words; binds the current (in, out), swaps them, and dispatches over
        pixels/32 work-items in groups of 1 (CPU) or 64. */
    method PushUnbitmap() returns (event: nat)
      requires Valid() && currentImageId in images
      requires images[currentImageId].Pixels() % (32 * Lanes(deviceType)) == 0
      modifies this`images, this`memory, this`queue
      ensures Valid()
      ensures var rec := old(images[currentImageId]);
              var k := CreateUnbitmap(rec.buffers.first, rec.buffers.second, rec.nrows, rec.ncols);
              && images == old(images)[currentImageId := rec.(buffers := rec.buffers.Swapped())]
              && queue == old(queue) + [Run(k, NDRange([rec.Pixels() / 32]), NDRange([Lanes(deviceType)]))]
              && memory == old(memory)[rec.buffers.second := Outcome(k, old(memory), rec.Pixels())]
      ensures event == |old(queue)|
    {
      var rec := images[currentImageId];
      var size := rec.nrows * rec.ncols;
      var g := NDRange([size / 32]);
      var l := NDRange([Lanes(deviceType)]);
      var k := CreateUnbitmap(rec.buffers.first, rec.buffers.second, rec.nrows, rec.ncols);
      SwapBuffers(currentImageId);
      assert rec.Bytes() / IntSize == rec.Pixels();
      event := Enqueue(k, g, l);
    }

    /** `push_binarize`: binds the current (in, out) with the thresholds, swaps
        them, and dispatches over the session's global size, or the image's
        default when the session's has no dimensions. */
    method PushBinarize(threshold: int, min: int, max: int) returns (event: nat)
      requires Valid() && currentImageId in images
      modifies this`images, this`memory, this`queue
      ensures Valid()
      ensures var rec := old(images[currentImageId]);
              var k := CreateBinarize(rec.buffers.first, rec.buffers.second, rec.nrows, rec.ncols,
                                      threshold, min, max);
              && images == old(images)[currentImageId := rec.(buffers := rec.buffers.Swapped())]
              && queue == old(queue) + [Run(k, DispatchGlobal(globalWorkSize, rec), localWorkSize)]
              && memory == old(memory)[rec.buffers.second := Outcome(k, old(memory), rec.Pixels())]
      ensures event == |old(queue)|
    {
      var rec := images[currentImageId];
      var l := localWorkSize;
      var g := DispatchGlobal(globalWorkSize, rec);
      var k := CreateBinarize(rec.buffers.first, rec.buffers.second, rec.nrows, rec.ncols,
                              threshold, min, max);
      SwapBuffers(currentImageId);
      assert rec.Bytes() / IntSize == rec.Pixels();
      event := Enqueue(k, g, l);
    }

    /** `push_bitmappedbinarize`: as `push_unbitmap` for the sizes, with the
        bitmapped binarize kernel (not inverted unless asked). */
    method PushBitmappedBinarize(threshold: int, inverted: bool := false) returns (event: nat)
      requires Valid() && currentImageId in images
      requires images[currentImageId].Pixels() % (32 * Lanes(deviceType)) == 0
      modifies this`images, this`memory, this`queue
      ensures Valid()
      ensures var rec := old(images[currentImageId]);
              var k := CreateBitmappedBinarize(deviceType, rec.buffers.first, rec.buffers.second,
                                               rec.nrows, rec.ncols, threshold, inverted);
              && images == old(images)[currentImageId := rec.(buffers := rec.buffers.Swapped())]
              && queue == old(queue) + [Run(k, NDRange([rec.Pixels() / 32]), NDRange([Lanes(deviceType)]))]
              && memory == old(memory)[rec.buffers.second := Outcome(k, old(memory), rec.Pixels())]
      ensures event == |old(queue)|
    {
      var rec := images[currentImageId];
      var size := rec.nrows * rec.ncols;
      var g := NDRange([size / 32]);
      var l := NDRange([Lanes(deviceType)]);
      var k := CreateBitmappedBinarize(deviceType, rec.buffers.first, rec.buffers.second,
                                       rec.nrows, rec.ncols, threshold, inverted);
      SwapBuffers(currentImageId);
      assert rec.Bytes() / IntSize == rec.Pixels();
      event := Enqueue(k, g, l);
    }

    /** `push_naivemorph`: binds the current (in, out) with the SE and the
        target sum, swaps them, and dispatches. */
    method PushNaiveMorph(seId: SeId, targetSum: int) returns (event: nat)
      requires Valid() && currentImageId in images && seId in ses
      modifies this`images, this`memory, this`queue
      ensures Valid()
      ensures var rec := old(images[currentImageId]);
              var cmd := MorphCommand(rec, old(ses[seId]), targetSum, globalWorkSize, localWorkSize);
              && images == old(images)[currentImageId := rec.(buffers := rec.buffers.Swapped())]
              && queue == old(queue) + [cmd]
              && memory == old(memory)[rec.buffers.second := Outcome(cmd.kernel, old(memory), rec.Pixels())]
      ensures event == |old(queue)|
    {
      var rec := images[currentImageId];
      var cmd := MorphCommand(rec, ses[seId], targetSum, globalWorkSize, localWorkSize);
      SwapBuffers(currentImageId);
      assert rec.Bytes() / IntSize == rec.Pixels();
      event := Enqueue(cmd.kernel, cmd.global, cmd.local);
    }

    /** `push_naivedilation`: the naive morphology pass with target 1 - se_nonzero. */
    method PushNaiveDilation(seId: SeId) returns (event: nat)
      requires Valid() && currentImageId in images && seId in ses
      modifies this`images, this`memory, this`queue
      ensures Valid()
      ensures var rec := old(images[currentImageId]);
              var se := old(ses[seId]);
              var cmd := MorphCommand(rec, se, DilationTarget(se), globalWorkSize, localWorkSize);
              && images == old(images)[currentImageId := rec.(buffers := rec.buffers.Swapped())]
              && queue == old(queue) + [cmd]
              && memory == old(memory)[rec.buffers.second := Outcome(cmd.kernel, old(memory), rec.Pixels())]
      ensures event == |old(queue)|
    {
      event := PushNaiveMorph(seId, DilationTarget(ses[seId]));
    }

    /** `push_naiveerosion`: the naive morphology pass with target se_nonzero. */
    method PushNaiveErosion(seId: SeId) returns (event: nat)
      requires Valid() && currentImageId in images && seId in ses
      modifies this`images, this`memory, this`queue
      ensures Valid()
      ensures var rec := old(images[currentImageId]);
              var se := old(ses[seId]);
              var cmd := MorphCommand(rec, se, ErosionTarget(se), globalWorkSize, localWorkSize);
              && images == old(images)[currentImageId := rec.(buffers := rec.buffers.Swapped())]
              && queue == old(queue) + [cmd]
              && memory == old(memory)[rec.buffers.second := Outcome(cmd.kernel, old(memory), rec.Pixels())]
      ensures event == |old(queue)|
    {
      event := PushNaiveMorph(seId, ErosionTarget(ses[seId]));
    }

    /** `push_naiveopening`: an erosion, then a dilation with the same SE; two
        dispatches, the second reading what the first wrote, and the image's
        roles end as they began. */
    method PushNaiveOpening(seId: SeId) returns (event: nat)
      requires Valid() && currentImageId in images && seId in ses
      modifies this`images, this`memory, this`queue
      ensures Valid()
      ensures var rec := old(images[currentImageId]);
              var se := old(ses[seId]);
              && images == old(images)
              && queue == old(queue) + [MorphCommand(rec, se, ErosionTarget(se), globalWorkSize, localWorkSize)]
                                     + [MorphCommand(rec.(buffers := rec.buffers.Swapped()), se, DilationTarget(se), globalWorkSize, localWorkSize)]
      ensures var rec := old(images[currentImageId]);
              var se := old(ses[seId]);
              var k1 := MorphCommand(rec, se, ErosionTarget(se), globalWorkSize, localWorkSize).kernel;
              var k2 := MorphCommand(rec.(buffers := rec.buffers.Swapped()), se, DilationTarget(se), globalWorkSize, localWorkSize).kernel;
              var m1 := old(memory)[rec.buffers.second := Outcome(k1, old(memory), rec.Pixels())];
              memory == m1[rec.buffers.first := Outcome(k2, m1, rec.Pixels())]
      ensures event == |old(queue)| + 1
    {
      ghost var rec, se := images[currentImageId], ses[seId];
      ghost var swapped := rec.(buffers := rec.buffers.Swapped());
      ghost var first := MorphCommand(rec, se, ErosionTarget(se), globalWorkSize, localWorkSize);
      ghost var second := MorphCommand(swapped, se, DilationTarget(se), globalWorkSize, localWorkSize);
      ghost var q := queue;
      var _ := PushNaiveErosion(seId);
      assert images == old(images)[currentImageId := swapped] && queue == q + [first];
      event := PushNaiveDilation(seId);
      RolesRestored(old(images), currentImageId);
    }

    /** `push_naiveclosing`: a dilation, then an erosion with the same SE; two
        dispatches, the second reading what the first wrote, and the image's
        roles end as they began. */
    method PushNaiveClosing(seId: SeId) returns (event: nat)
      requires Valid() && currentImageId in images && seId in ses
      modifies this`images, this`memory, this`queue
      ensures Valid()
      ensures var rec := old(images[currentImageId]);
              var se := old(ses[seId]);
              && images == old(images)
              && queue == old(queue) + [MorphCommand(rec, se, DilationTarget(se), globalWorkSize, localWorkSize)]
                                     + [MorphCommand(rec.(buffers := rec.buffers.Swapped()), se, ErosionTarget(se), globalWorkSize, localWorkSize)]
      ensures var rec := old(images[currentImageId]);
              var se := old(ses[seId]);
              var k1 := MorphCommand(rec, se, DilationTarget(se), globalWorkSize, localWorkSize).kernel;
              var k2 := MorphCommand(rec.(buffers := rec.buffers.Swapped()), se, ErosionTarget(se), globalWorkSize, localWorkSize).kernel;
              var m1 := old(memory)[rec.buffers.second := Outcome(k1, old(memory), rec.Pixels())];
              memory == m1[rec.buffers.first := Outcome(k2, m1, rec.Pixels())]
      ensures event == |old(queue)| + 1
    {
      ghost var rec, se := images[currentImageId], ses[seId];
      ghost var swapped := rec.(buffers := rec.buffers.Swapped());
      ghost var first := MorphCommand(rec, se, DilationTarget(se), globalWorkSize, localWorkSize);
      ghost var second := MorphCommand(swapped, se, ErosionTarget(se), globalWorkSize, localWorkSize);
      ghost var q := queue;
      var _ := PushNaiveDilation(seId);
      assert images == old(images)[currentImageId := swapped] && queue == q + [first];
      event := PushNaiveErosion(seId);
      RolesRestored(old(images), currentImageId);
    }
  }

  /** The global size a binarize or naive morphology dispatch uses: the
      session's setting when it has dimensions, else the image's default. */
  function DispatchGlobal(setting: NDRange, rec: ImageRecord): (g: NDRange)
    ensures setting.Dimensions() > 0 ==> g == setting
    ensures setting.Dimensions() == 0 ==> g == rec.globalWorkSize
  {
    if setting.Dimensions() == 0 then rec.globalWorkSize else setting
  }

  /** The dispatch of a naive morphology pass over the image with the given
      record, with the SE, the target sum and the session's work sizes. */
  function MorphCommand(rec: ImageRecord, se: SeRecord, targetSum: int,
                        global: NDRange, local: NDRange): (cmd: Command)
    ensures cmd.Run? && cmd.kernel.WellFormed()
    ensures cmd.kernel.Input() == rec.buffers.first && cmd.kernel.Output() == rec.buffers.second
    ensures cmd.global == DispatchGlobal(global, rec) && cmd.local == local
  {
    Run(CreateNaiveMorph(rec.buffers.first, rec.buffers.second, rec.nrows, rec.ncols,
                         se, targetSum, local),
        DispatchGlobal(global, rec), local)
  }

  /** The host side of `open`: the pixels read row by row into a host array,
      which is then the image's storage order. */
  method HostCopy(img: Image<int>) returns (data: seq<int>)
    requires img.Valid()
    ensures data == img.Pixels()
  {
    var nrows, ncols := img.nrows, img.ncols;
    var arr := new int[nrows * ncols];
    var i := 0;
    var r := 0;
    while r < nrows
      invariant 0 <= r <= nrows && i == Offset(r, 0, ncols) && i <= nrows * ncols
      invariant arr[..i] == img.Pixels()[..i]
    {
      RowEndInRange(r, nrows, ncols);
      var c := 0;
      while c < ncols
        invariant 0 <= c <= ncols && i == Offset(r, c, ncols)
        invariant arr[..i] == img.Pixels()[..i]
      {
        arr[i] := img.At(r, c);
        i, c := i + 1, c + 1;
      }
      r := r + 1;
    }
    data := arr[..];
  }

  /** The host side of `save`: an image of the given dimensions filled row by
      row, element (r, c) from data[r * ncols + c]. */
  method ImageOfRows(data: seq<int>, nrows: nat, ncols: nat) returns (img: Image<int>)
    requires |data| == nrows * ncols && nrows * ncols < Two32
    ensures fresh(img) && fresh(img.store) && fresh(img.store.data)
    ensures img.Valid() && img.store.count == 1
    ensures img.nrows == nrows && img.ncols == ncols
    ensures img.Pixels() == data
    ensures forall r: nat, c: nat :: r < nrows && c < ncols ==>
              Offset(r, c, ncols) < |data| && img.At(r, c) == data[Offset(r, c, ncols)]
  {
    img := new Image(nrows, ncols);
    var r := 0;
    while r < nrows
      invariant 0 <= r <= nrows
      invariant fresh(img) && fresh(img.store) && fresh(img.store.data)
      invariant img.Valid() && img.store.count == 1
      invariant img.nrows == nrows && img.ncols == ncols
      invariant Offset(r, 0, ncols) <= nrows * ncols
      invariant img.Pixels()[..Offset(r, 0, ncols)] == data[..Offset(r, 0, ncols)]
    {
      FillRow(img, data, r);
      r := r + 1;
    }
    assert Offset(nrows, 0, ncols) == nrows * ncols;
    forall r: nat, c: nat | r < nrows && c < ncols
      ensures Offset(r, c, ncols) < |data| && img.At(r, c) == data[Offset(r, c, ncols)]
    {
      OffsetInRange(r, c, nrows, ncols);
    }
  }

  /** The inner loop of `save`: row r of the image takes data[r * ncols ..
      (r + 1) * ncols]. */
  method FillRow(img: Image<int>, data: seq<int>, r: nat)
    requires img.Valid() && r < img.nrows && |data| == img.nrows * img.ncols
    requires Offset(r, 0, img.ncols) <= |data|
    requires img.Pixels()[..Offset(r, 0, img.ncols)] == data[..Offset(r, 0, img.ncols)]
    modifies img.store.data
    ensures img.Valid()
    ensures Offset(r + 1, 0, img.ncols) <= |data|
    ensures img.Pixels()[..Offset(r + 1, 0, img.ncols)] == data[..Offset(r + 1, 0, img.ncols)]
  {
    var c := 0;
    while c < img.ncols
      invariant 0 <= c <= img.ncols
      invariant img.Valid()
      invariant Offset(r, c, img.ncols) <= |data|
      invariant img.Pixels()[..Offset(r, c, img.ncols)] == data[..Offset(r, c, img.ncols)]
    {
      OffsetInRange(r, c, img.nrows, img.ncols);
      img.Set(r, c, data[Offset(r, c, img.ncols)]);
      c := c + 1;
    }
    OffsetNextRow(r, img.ncols);
  }

  /** The descriptor `load_se` files for a window uploaded into buffer clmem:
      the window's extent, maxrow and maxcol taken as unsigned for the radii,
      three `cl_int`s per entry, and the entry count. */
  function Descriptor(es: seq<Entry>, clmem: BufferId): SeRecord
    requires |es| > 0
  {
    SeRecord(clmem, SpanOf(es, 0), SpanOf(es, 1), U32(MaxOf(es, 0)), U32(MaxOf(es, 1)),
             |es| * IntSize * 3, |es|)
  }

  /** The window queries of `load_se`. */
  method Describe(win: Window, clmem: BufferId) returns (se: SeRecord)
    requires win.Valid() && |win.entries| > 0
    ensures se == Descriptor(win.entries, clmem)
  {
    ghost var es := win.entries;
    var count := win.Count();
    SortedCard(es);
    var nr := win.NRows();
    var nc := win.NCols();
    var maxRow := win.MaxRow();
    var maxCol := win.MaxCol();
    assert count == |es| && nr == SpanOf(es, 0) && nc == SpanOf(es, 1);
    se := SeRecord(clmem, nr, nc, U32(maxRow), U32(maxCol), count * IntSize * 3, count);
  }

  /** The host side of `load_se`: the entries' triples (row, col, weight)
      written one after another, in window order. */
  method UploadLayout(es: seq<Entry>) returns (buffer: seq<int>)
    ensures buffer == SeLayout(es)
  {
    var arr := new int[3 * |es|];
    var i := 0;
    var k := 0;
    while k < |es|
      invariant 0 <= k <= |es| && i == 3 * k
      invariant arr[..i] == SeLayout(es[..k])
    {
      var e := es[k];
      arr[i] := e.p.row;
      arr[i + 1] := e.p.col;
      arr[i + 2] := e.weight;
      SeLayoutAppend(es[..k], e);
      assert es[..k + 1] == es[..k] + [e];
      i, k := i + 3, k + 1;
    }
    assert es[..k] == es;
    buffer := arr[..];
  }

  // ---------------------------------------------------------------------------
  // Sessions as a client drives them
  // ---------------------------------------------------------------------------

  /** Opening an image and saving it back gives the same pixels. */
  method OpenThenSave(s: Session, img: Image<int>) returns (id: ImageId, back: Image<int>)
    requires s.Valid() && img.Valid()
    requires 0 < img.nrows * img.ncols && img.nrows * img.ncols * IntSize < Two32
    modifies s
    ensures s.Valid() && fresh(back) && back.Valid()
    ensures back.nrows == img.nrows && back.ncols == img.ncols
    ensures forall r: nat, c: nat :: r < img.nrows && c < img.ncols ==> back.At(r, c) == img.At(r, c)
  {
    id := s.Open(img);
    back := s.Save(id);
  }

  /** Opening an image, fetching its in buffer back and saving gives the same
      pixels: the upload and the read-back agree. */
  method OpenFetchSave(s: Session, img: Image<int>) returns (id: ImageId, back: Image<int>)
    requires s.Valid() && img.Valid()
    requires 0 < img.nrows * img.ncols && img.nrows * img.ncols * IntSize < Two32
    modifies s
    ensures s.Valid() && fresh(back) && back.Valid()
    ensures back.nrows == img.nrows && back.ncols == img.ncols
    ensures forall r: nat, c: nat :: r < img.nrows && c < img.ncols ==> back.At(r, c) == img.At(r, c)
    ensures |s.queue| == |old(s.queue)| + 2
    ensures s.queue[|old(s.queue)|].Write? && s.queue[|old(s.queue)| + 1].Read?
  {
    id := s.Open(img);
    var _ := s.Fetch();
    back := s.Save(id);
  }

  /** Two open images of the same size share one pool pair; after a dispatch
      swaps the first image's roles, the second still gets the pair in the
      pool's order, so the two images then name the same buffers crosswise. */
  method SameSizeSharesPair(s: Session, a: Image<int>, b: Image<int>, threshold: int)
      returns (ida: ImageId, idb: ImageId)
    requires s.Valid() && a.Valid() && b.Valid()
    requires a.nrows == b.nrows && a.ncols == b.ncols
    requires 0 < a.nrows * a.ncols && a.nrows * a.ncols * IntSize < Two32
    modifies s
    ensures s.Valid() && ida != idb && ida in s.images && idb in s.images
    ensures a.nrows * a.ncols * IntSize in s.bufferPairs
    ensures s.images[ida].buffers == s.images[idb].buffers.Swapped()
    ensures s.images[idb].buffers == s.bufferPairs[a.nrows * a.ncols * IntSize]
  {
    ida := s.Open(a);
    var _ := s.PushBinarize(threshold, 0, 1);
    idb := s.Open(b);
  }
}
