/**
 * `StbiWASM`: the stb_image module instance and the three calls the host makes
 * into it. Each call resets the module heap, marshals its input into freshly
 * allocated regions, calls one module export with pointers into those regions,
 * checks the export's sentinel result, and copies the result out.
 *
 * The module's image algorithms are not part of this model. A `Codec` stands
 * for them: what the module computes is a function of the bytes and numbers it
 * is given, and the export methods below store that result where the pointers
 * they receive say.
 */
module StbiWasmLib {
  import opened Int32Words
  import opened Images
  import opened LinearMemory

  const FORMAT_PNG: int := 0
  const FORMAT_BMP: int := 1
  const FORMAT_TGA: int := 2
  const FORMAT_JPEG: int := 3

  /** The three `Int`s stb_image reports for an image: width, height and components per pixel. */
  datatype Header = Header(width: i32, height: i32, components: i32)

  /** A decoded image as stb_image hands it back: its header and its pixel words. */
  datatype Decoded = Decoded(header: Header, pixels: seq<i32>)

  /**
   * What the module computes. `probe` is stbi_info on the encoded bytes, `load`
   * is stbi_load on the encoded bytes with a requested channel count, and
   * `encode` is the writer on (format code, pixel words, width, height, quality).
   */
  datatype Codec = Codec(
    probe: seq<byte> -> Option<Header>,
    load: (seq<byte>, int) -> Option<Decoded>,
    encode: (int, seq<i32>, i32, i32, int) -> seq<byte>)

  /** The encoder's output capacity `width * height * 4 + 1024`, computed exactly. */
  function OutSize(width: int, height: int): int {
    width * height * 4 + 1024
  }

  /** The capacity expression does not overflow a Kotlin `Int`. */
  predicate CapacityFits(width: i32, height: i32) {
    0 <= OutSize(width, height) <= INT32_MAX
  }

  /** What `stbi_info_from_memory(bytes)` yields. */
  function InfoSpec(codec: Codec, bytes: seq<byte>): Outcome<CoreImageInfo> {
    match codec.probe(bytes)
    case None => Error("Can't get info from image")
    case Some(h) => Ok(CoreImageInfo(h.width, h.height, Wrap32(h.components as int * 8)))
  }

  /**
   * What `stbi_load_from_memory(bytes)` yields: four channels are requested,
   * `width * height` words (a Kotlin `Int` product) are read, the reported
   * component count is ignored, and the straight-alpha image is premultiplied.
   * Reading more words than the module produced is a boundary violation.
   */
  function LoadSpec(codec: Codec, alpha: AlphaConversion, bytes: seq<byte>): Outcome<CoreImage32> {
    match codec.load(bytes, 4)
    case None => Error("Can't decode image")
    case Some(d) =>
      var count := Wrap32(d.header.width as int * d.header.height);
      if 0 <= count <= |d.pixels| then
        Ok(Premultiplied(CoreImage32(d.header.width, d.header.height, d.pixels[..count], false), alpha))
      else
        BoundaryViolation
  }

  /**
   * What `stbi_write_to_memory(image, format, quality)` yields. All of the
   * image's straight-alpha words are handed over and the module reads the
   * first `width * height` of them: when there are fewer (or the product is
   * negative) that read leaves the pixel region, a boundary violation.
   * Otherwise the result is the encoding of those words, or a boundary
   * violation when it is longer than the output capacity.
   */
  function WriteSpec(codec: Codec, alpha: AlphaConversion, image: CoreImage32, format: int, quality: int): Outcome<seq<byte>> {
    var straight := Depremultiplied(image, alpha).data;
    var count := image.width * image.height;
    if !(0 <= count <= |straight|) then BoundaryViolation
    else
      var e := codec.encode(format, straight[..count], image.width, image.height, quality);
      if |e| <= OutSize(image.width, image.height) then Ok(e) else BoundaryViolation
  }

  /**
   * A successful load is premultiplied, has the header's dimensions, holds
   * pixel `i` premultiplied at `i`, and is well formed whenever
   * `width * height` is a non-negative `Int`.
   */
  lemma LoadSpecOk(codec: Codec, alpha: AlphaConversion, bytes: seq<byte>)
    requires LoadSpec(codec, alpha, bytes).Ok?
    ensures codec.load(bytes, 4).Some?
    ensures var d := codec.load(bytes, 4).value;
            var img := LoadSpec(codec, alpha, bytes).value;
            && img.premultiplied
            && img.width == d.header.width && img.height == d.header.height
            && |img.data| <= |d.pixels|
            && (forall i :: 0 <= i < |img.data| ==> img.data[i] == alpha.toPremultiplied(d.pixels[i]))
            && (0 <= d.header.width && 0 <= d.header.height && IsInt32(d.header.width * d.header.height) ==> WellFormed(img))
  {
    var d := codec.load(bytes, 4).value;
    var prefix := d.pixels[..Wrap32(d.header.width as int * d.header.height)];
    assert forall i :: 0 <= i < |prefix| ==> prefix[i] == d.pixels[i];
  }

  /**
   * `info` and `decode` report the same dimensions for the same bytes exactly
   * when the module's probe and its loader agree on them.
   */
  lemma InfoLoadAgree(codec: Codec, alpha: AlphaConversion, bytes: seq<byte>)
    requires InfoSpec(codec, bytes).Ok? && LoadSpec(codec, alpha, bytes).Ok?
    ensures codec.probe(bytes).Some? && codec.load(bytes, 4).Some?
    ensures var info := InfoSpec(codec, bytes).value;
            var img := LoadSpec(codec, alpha, bytes).value;
            var d := codec.load(bytes, 4).value.header;
            var h := codec.probe(bytes).value;
            (info.width == img.width && info.height == img.height) <==> (h.width == d.width && h.height == d.height)
  {
  }

  /**
   * The product `width * height` wraps: a 65536 by 65536 header selects no
   * pixel at all, and the image comes back with no data.
   */
  lemma LoadSpecWrappedCount(codec: Codec, alpha: AlphaConversion, bytes: seq<byte>)
    requires codec.load(bytes, 4) == Some(Decoded(Header(65536, 65536, 4), []))
    ensures LoadSpec(codec, alpha, bytes).Ok?
    ensures !WellFormed(LoadSpec(codec, alpha, bytes).value)
  {
    assert Wrap32(65536 * 65536) == 0;
  }

  /** Without `CapacityFits`, the capacity of a 32768 by 32768 image wraps to 1024 bytes. */
  lemma OutSizeWraps()
    ensures !CapacityFits(32768, 32768) && Wrap32(OutSize(32768, 32768)) == 1024
  {
    assert OutSize(32768, 32768) == TWO_32 + 1024;
  }

  /**
   * For a well-formed image all of its straight-alpha words are encoded, and
   * the encoding is the result exactly when it fits the output capacity.
   */
  lemma WriteSpecWellFormed(codec: Codec, alpha: AlphaConversion, image: CoreImage32, format: int, quality: int)
    requires WellFormed(image)
    ensures var e := codec.encode(format, Depremultiplied(image, alpha).data, image.width, image.height, quality);
            && (WriteSpec(codec, alpha, image, format, quality).Ok? <==> |e| <= OutSize(image.width, image.height))
            && (WriteSpec(codec, alpha, image, format, quality).Ok? ==> WriteSpec(codec, alpha, image, format, quality).value == e)
  {
    var straight := Depremultiplied(image, alpha).data;
    assert straight[..image.width * image.height] == straight;
  }

  /** Encoding sees straight alpha only: encoding an image or its straight-alpha form is the same. */
  lemma WriteSpecStraightAlpha(codec: Codec, alpha: AlphaConversion, image: CoreImage32, format: int, quality: int)
    ensures WriteSpec(codec, alpha, Depremultiplied(image, alpha), format, quality) == WriteSpec(codec, alpha, image, format, quality)
  {
  }

  class StbiWasm {
    /** The module's linear memory, shared by every call. */
    const arena: Arena
    const codec: Codec
    const alpha: AlphaConversion

    ghost predicate Valid()
      reads this, arena
    {
      arena.Valid()
    }

    constructor (codec: Codec, alpha: AlphaConversion)
      ensures Valid() && fresh(arena) && arena.regions == map[]
      ensures this.codec == codec && this.alpha == alpha
    {
      arena := new Arena();
      this.codec := codec;
      this.alpha := alpha;
    }

    /**
     * The export `stbi_info_from_memory(buffer, len, xPtr, yPtr, compPtr)`: reads
     * the input, and on success stores width, height and components at the three
     * out-pointers and returns non-zero; on failure returns 0.
     */
    method ModuleInfo(buffer: int, len: int, xPtr: int, yPtr: int, compPtr: int,
                      ghost bufferRegion: int, ghost infoRegion: int)
      returns (result: int)
      requires Valid() && arena.Within(bufferRegion, buffer, len)
      requires arena.Within(infoRegion, xPtr, 4) && arena.Within(infoRegion, yPtr, 4) && arena.Within(infoRegion, compPtr, 4)
      requires WordsApart(xPtr, yPtr) && WordsApart(xPtr, compPtr) && WordsApart(yPtr, compPtr)
      modifies arena
      ensures Valid() && infoRegion in arena.regions
      ensures |arena.regions[infoRegion]| == |old(arena.regions[infoRegion])|
      ensures arena.regions == old(arena.regions)[infoRegion := arena.regions[infoRegion]]
      ensures var h := codec.probe(old(arena.BytesAt(bufferRegion, buffer, len)));
              && (result == 0 <==> h.None?)
              && (h.Some? ==>
                    && arena.WordAt(infoRegion, xPtr) == h.value.width
                    && arena.WordAt(infoRegion, yPtr) == h.value.height
                    && arena.WordAt(infoRegion, compPtr) == h.value.components)
    {
      var input := arena.Fetch(buffer, len, bufferRegion);
      var h := codec.probe(input);
      if h.None? {
        result := 0;
        assert arena.regions == arena.regions[infoRegion := arena.regions[infoRegion]];
      } else {
        arena.StoreWords3(xPtr, yPtr, compPtr, h.value.width, h.value.height, h.value.components, infoRegion);
        result := 1;
      }
    }

    /**
     * The export `stbi_load_from_memory(ptr, size, wPtr, hPtr, nPtr, channels)`:
     * on success it allocates a region for the pixel words, fills it, stores
     * width, height and components at the out-pointers and returns the region;
     * on failure it returns 0 and allocates nothing.
     */
    method ModuleLoad(ptr: int, size: int, wPtr: int, hPtr: int, nPtr: int, channels: int,
                      ghost ptrRegion: int, ghost infoRegion: int)
      returns (dataPtr: int)
      requires Valid() && arena.Within(ptrRegion, ptr, size)
      requires arena.Within(infoRegion, wPtr, 4) && arena.Within(infoRegion, hPtr, 4) && arena.Within(infoRegion, nPtr, 4)
      requires WordsApart(wPtr, hPtr) && WordsApart(wPtr, nPtr) && WordsApart(hPtr, nPtr)
      modifies arena
      ensures Valid()
      ensures var d := codec.load(old(arena.BytesAt(ptrRegion, ptr, size)), channels);
              && (d.None? ==> dataPtr == 0 && arena.regions == old(arena.regions))
              && (d.Some? ==>
                    && dataPtr != 0 && dataPtr !in old(arena.regions) && infoRegion in arena.regions
                    && |arena.regions[infoRegion]| == |old(arena.regions[infoRegion])|
                    && arena.regions == old(arena.regions)[infoRegion := arena.regions[infoRegion]]
                                                         [dataPtr := EncodeWords(d.value.pixels)]
                    && arena.WordAt(infoRegion, wPtr) == d.value.header.width
                    && arena.WordAt(infoRegion, hPtr) == d.value.header.height
                    && arena.WordAt(infoRegion, nPtr) == d.value.header.components)
    {
      var input := arena.Fetch(ptr, size, ptrRegion);
      var d := codec.load(input, channels);
      if d.None? {
        dataPtr := 0;
        return;
      }
      dataPtr := arena.AllocBytes(EncodeWords(d.value.pixels));
      ghost var afterAlloc := arena.regions;
      arena.StoreWords3(wPtr, hPtr, nPtr, d.value.header.width, d.value.header.height, d.value.header.components,
                        infoRegion);
      assert arena.regions == afterAlloc[infoRegion := arena.regions[infoRegion]];
    }

    /**
     * The export `stbi_write_to_memory(type, inp, w, h, out, outSize, quality)`:
     * encodes the `w * h` pixel words at `inp`; when the encoding fits in the
     * `outSize` bytes at `out` it is stored there and its length returned.
     * Otherwise this model returns -1: what the module does with an encoding
     * that does not fit is not part of this model. When the `w * h` words do
     * not lie inside the region at `inp`, the module's read of them is a
     * boundary violation and nothing is written.
     */
    method ModuleWrite(format: int, inp: int, w: i32, h: i32, out: int, outSize: int, quality: int,
                       ghost outRegion: int)
      returns (res: Outcome<int>)
      requires Valid() && inp in arena.regions
      requires arena.Within(outRegion, out, outSize)
      modifies arena
      ensures Valid() && outRegion in arena.regions
      ensures |arena.regions[outRegion]| == |old(arena.regions[outRegion])|
      ensures arena.regions == old(arena.regions)[outRegion := arena.regions[outRegion]]
      ensures res.BoundaryViolation? <==> !(0 <= w * h && 4 * (w * h) <= |old(arena.regions[inp])|)
      ensures !res.BoundaryViolation? ==>
                && res.Ok?
                && var e := codec.encode(format, DecodeWords(old(arena.regions[inp][..4 * (w * h)])), w, h, quality);
                && res.value == (if |e| <= outSize then |e| else -1)
                && (|e| <= outSize ==> arena.BytesAt(outRegion, out, |e|) == e)
    {
      var input := arena.ReadBytes(inp, 4 * (w * h));
      if input.None? {
        res := BoundaryViolation;
        assert arena.regions == arena.regions[outRegion := arena.regions[outRegion]];
        return;
      }
      assert input.value == arena.regions[inp][..4 * (w * h)];
      var e := codec.encode(format, DecodeWords(input.value), w, h, quality);
      if |e| <= outSize {
        arena.Store(out, e, outRegion);
        res := Ok(|e|);
      } else {
        res := Ok(-1);
        assert arena.regions == arena.regions[outRegion := arena.regions[outRegion]];
      }
    }

    /**
     * `stbi_info_from_memory(bytes)`. The result depends on `bytes` alone, not
     * on what earlier calls left in the heap, and both regions of the call stay
     * live until the next reset.
     */
    method InfoFromMemory(bytes: seq<byte>) returns (r: Outcome<CoreImageInfo>, ghost ptr: int, ghost infoPtr: int)
      requires Valid()
      modifies arena
      ensures Valid()
      ensures r == InfoSpec(codec, bytes)
      ensures ptr != infoPtr && arena.regions.Keys == {ptr, infoPtr} && arena.regions[ptr] == bytes
    {
      arena.HeapReset();
      var p := arena.AllocBytes(bytes);
      var ip := arena.AllocBytesOfSize(4 * 3);
      ptr, infoPtr := p, ip;
      assert arena.BytesAt(p, p, |bytes|) == bytes;
      var result := ModuleInfo(p, |bytes|, ip + 0, ip + 4, ip + 8, p, ip);
      if result == 0 {
        r := Error("Can't get info from image");
        return;
      }
      assert arena.Within(ip, ip, 4 * 3);
      var infos := arena.ReadInts(ip, 3);
      arena.WordsAt(ip, ip, 3);
      r := Ok(CoreImageInfo(infos.value[0], infos.value[1], Wrap32(infos.value[2] as int * 8)));
    }

    /**
     * `stbi_load_from_memory(bytes)`. The result depends on `bytes` alone. On
     * success the input, info and pixel regions are all freed; when the module
     * reports failure, or the pixel read leaves the module's output, the call
     * ends before the free and its regions stay live until the next reset.
     */
    method LoadFromMemory(bytes: seq<byte>)
      returns (r: Outcome<CoreImage32>, ghost infoPtr: int, ghost ptr: int, ghost dataPtr: int)
      requires Valid()
      modifies arena
      ensures Valid()
      ensures r == LoadSpec(codec, alpha, bytes)
      ensures r.Ok? ==> arena.regions == map[]
      ensures r.Error? ==> infoPtr != ptr && arena.regions.Keys == {infoPtr, ptr}
      ensures r.BoundaryViolation? ==> arena.regions.Keys == {infoPtr, ptr, dataPtr}
    {
      arena.HeapReset();
      var ip := arena.AllocIntsOfCount(3);
      var p := arena.AllocBytes(bytes);
      assert arena.BytesAt(p, p, |bytes|) == bytes;
      var dp := ModuleLoad(p, |bytes|, ip + 0, ip + 4, ip + 8, 4, p, ip);
      infoPtr, ptr, dataPtr := ip, p, dp;
      if dp == 0 {
        r := Error("Can't decode image");
        return;
      }
      ghost var decoded := codec.load(bytes, 4).value;
      ghost var pixels := decoded.pixels;
      var infos := arena.ReadInts(ip, 3);
      arena.WordsAt(ip, ip, 3);
      var w := infos.value[0];
      var h := infos.value[1];
      var count := Wrap32(w as int * h);
      var data := arena.ReadInts(dp, count);
      if 0 <= count <= |pixels| {
        assert arena.BytesAt(dp, dp, 4 * count) == EncodeWords(pixels)[..4 * count];
        DecodeEncodedPrefix(pixels, count);
      }
      if data.None? {
        r := BoundaryViolation;
        return;
      }
      assert w == decoded.header.width && h == decoded.header.height && data.value == pixels[..count];
      arena.FreeBytes([p, ip, dp]);
      r := Ok(Premultiplied(CoreImage32(w, h, data.value, false), alpha));
    }

    /**
     * `stbi_write_to_memory(image, format, quality)`. The result depends on its
     * arguments alone; the pixels handed to the module are the image's
     * straight-alpha words; on success both regions of the call are freed.
     */
    method WriteToMemory(image: CoreImage32, format: int, quality: int)
      returns (r: Outcome<seq<byte>>, ghost dataPtr: int, ghost outPtr: int)
      requires Valid()
      requires CapacityFits(image.width, image.height)
      modifies arena
      ensures Valid()
      ensures r == WriteSpec(codec, alpha, image, format, quality)
      ensures r.Ok? ==> arena.regions == map[]
      ensures !r.Ok? ==> dataPtr != outPtr && arena.regions.Keys == {dataPtr, outPtr}
    {
      arena.HeapReset();
      var straight := Depremultiplied(image, alpha);
      var dp := arena.AllocInts(straight.data);
      var outSize := Wrap32(image.width as int * image.height * 4 + 1024);
      var op := arena.AllocBytesOfSize(outSize);
      dataPtr, outPtr := dp, op;
      ghost var count := image.width * image.height;
      if 0 <= count <= |straight.data| {
        assert arena.regions[dp][..4 * count] == EncodeWords(straight.data)[..4 * count];
        DecodeEncodedPrefix(straight.data, count);
      }
      var res := ModuleWrite(format, dp, image.width, image.height, op, outSize, quality, op);
      if res.BoundaryViolation? {
        r := BoundaryViolation;
        return;
      }
      var out := arena.ReadBytes(op, res.value);
      if out.None? {
        r := BoundaryViolation;
        return;
      }
      arena.FreeBytes([dp, op]);
      r := Ok(out.value);
    }
  }
}
