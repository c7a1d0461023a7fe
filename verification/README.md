# stb_image bridge of korlibs-image-core (JS target)

This project models the JavaScript-target image codec of korlibs-image-core.
The host hands image work to an stb_image WebAssembly module, `StbiWASM`,
through a shared linear memory. `StbiCoreImageFormatProvider` exposes that
module as a `CoreImageFormatProvider`.

The model has four parts:

- **Format selection.** `encode` turns a format name into a module format
  code. It lower-cases the name and then matches it: "png" gives 0, "bmp" 1,
  "tga" 2, "jpg" or "jpeg" 3, and any other name gives 0 (PNG). Quality 10 is
  always passed on, and the caller's level is ignored.
- **The call protocol.** Each of `stbi_info_from_memory`,
  `stbi_load_from_memory` and `stbi_write_to_memory` follows the same steps:
  1. reset the module heap;
  2. allocate regions and copy the input in;
  3. call the module export with pointers into those regions;
  4. check the export's sentinel result;
  5. read the result back;
  6. free the regions.

  The memory is an `Arena` class. It holds the live regions (start address to
  bytes) and the allocator cursor. Its methods are the module's `malloc` and
  `heap_reset` and the host helpers `allocBytes`, `allocInts`, `readInts`,
  `readBytes` and `freeBytes`.

  A read that leaves the live regions ends the call with `BoundaryViolation`.
  Two reads in the code are unchecked: `readInts(dataPtr, w * h)` and
  `readBytes(outPtr, res)`. The module's own read of the `width * height`
  pixel words in `stbi_write_to_memory` is unchecked too. Because of this,
  their failure is part of what each operation yields.

- **The codec.** The module's image algorithms are a `Codec` value of three
  functions: probe, load and encode. The three export methods read their
  input from the arena, consult the codec, and store its answer where their
  out-pointers say.
- **What the public operations promise.** Each is proved equal to a function
  of its inputs alone: `InfoSpec`, `LoadSpec` or `WriteSpec`. The result
  therefore never depends on what an earlier call left in the heap. Each
  operation also states which regions are still live when it returns. When an
  error is raised, the call ends before `freeBytes` and its regions stay live
  until the next reset.

`Int` arithmetic wraps as Kotlin's does (`Wrap32`). That covers
`infos[2] * 8`, `w * h`, and `width * height * 4 + 1024`.

The error messages are the ones the code raises: "Can't get info from image"
and "Can't decode image".

Modules:

- `Int32Words` (words.dfy): words and their little-endian encoding.
- `AsciiCase` (ascii_case.dfy): case mapping.
- `Images` (images.dfy): image values and alpha conversion.
- `LinearMemory` (arena.dfy): the arena.
- `StbiWasmLib` (stbi.dfy): `StbiWASM`.
- `StbiProvider` (provider.dfy): `StbiCoreImageFormatProvider`.

## Model

Every member below models part of `korlibs-image-core/src@js/korlibs/image/core/Impl.CoreImage.stbiwasm.kt`.

| member | source | states |
|---|---|---|
| StbiProvider.FormatCode | korlibs-image-core/src@js/korlibs/image/core/Impl.CoreImage.stbiwasm.kt:19-25 | The code is BMP iff the name spells "bmp" in any case. TGA iff it spells "tga". JPEG iff it spells "jpg" or "jpeg". PNG iff it spells none of these, so unknown names fall back to PNG. |
| StbiProvider.FormatCodeIgnoresCase | korlibs-image-core/src@js/korlibs/image/core/Impl.CoreImage.stbiwasm.kt:19 | Lower-casing or upper-casing a name does not change its format code, because matching happens after `lowercase()`. |
| StbiProvider.FormatCodeExamples | korlibs-image-core/src@js/korlibs/image/core/Impl.CoreImage.stbiwasm.kt:19-25 | "Jpeg" and "JPEG" select JPEG. "gif" falls back to PNG. |
| StbiProvider.Info | korlibs-image-core/src@js/korlibs/image/core/Impl.CoreImage.stbiwasm.kt:10-12 | `info` yields exactly `InfoSpec` of the bytes. |
| StbiProvider.Decode | korlibs-image-core/src@js/korlibs/image/core/Impl.CoreImage.stbiwasm.kt:14-16 | `decode` yields exactly `LoadSpec` of the bytes. A decoded image is premultiplied. |
| StbiProvider.Encode | korlibs-image-core/src@js/korlibs/image/core/Impl.CoreImage.stbiwasm.kt:18-27 | `encode` yields `WriteSpec` for the format code of the name and quality 10, for any image whose capacity expression is an `Int`. The level does not occur in the result. |
| AsciiCase.Lowercase | korlibs-image-core/src@js/korlibs/image/core/Impl.CoreImage.stbiwasm.kt:19 | The result has the same length, and character i is the lower-case form of character i. |
| AsciiCase.LowercaseEqualsIff | korlibs-image-core/src@js/korlibs/image/core/Impl.CoreImage.stbiwasm.kt:20-23 | A lower-cased name equals a lower-case word iff the name spells that word with letters in either case. |
| AsciiCase.LowercaseIdempotent | korlibs-image-core/src@js/korlibs/image/core/Impl.CoreImage.stbiwasm.kt:19 | Lower-casing twice is the same as lower-casing once. |
| AsciiCase.LowercaseOfUppercase | korlibs-image-core/src@js/korlibs/image/core/Impl.CoreImage.stbiwasm.kt:19 | Lower-casing undoes an upper-casing. |
| Int32Words.Wrap32 | korlibs-image-core/src@js/korlibs/image/core/Impl.CoreImage.stbiwasm.kt:83 | The Kotlin `Int` result differs from the exact value by a multiple of 2^32, and equals it when the exact value is an `Int`. |
| Int32Words.DecodeEncodeWord | korlibs-image-core/src@js/korlibs/image/core/Impl.CoreImage.stbiwasm.kt:56 | A word read back from its four stored bytes is the word written. |
| Int32Words.DecodeWords | korlibs-image-core/src@js/korlibs/image/core/Impl.CoreImage.stbiwasm.kt:73 | `readInts` yields one word per 4 bytes, and word i is decoded from bytes 4i..4i+4. |
| Int32Words.EncodeWords | korlibs-image-core/src@js/korlibs/image/core/Impl.CoreImage.stbiwasm.kt:81 | `allocInts` stores 4 bytes per value. |
| Int32Words.DecodeEncodeWords | korlibs-image-core/src@js/korlibs/image/core/Impl.CoreImage.stbiwasm.kt:81 | Reading back the words `allocInts` stored gives the same sequence of `Int`s. |
| Int32Words.DecodeEncodedPrefix | korlibs-image-core/src@js/korlibs/image/core/Impl.CoreImage.stbiwasm.kt:73 | Reading the first k words of an encoded pixel run gives the first k pixels. |
| Images.Premultiplied | korlibs-image-core/src@js/korlibs/image/core/Impl.CoreImage.stbiwasm.kt:75 | The result is premultiplied, with the same dimensions and pixel count, and is well formed when the input is. |
| Images.Depremultiplied | korlibs-image-core/src@js/korlibs/image/core/Impl.CoreImage.stbiwasm.kt:81 | The result is straight alpha, with the same dimensions and pixel count, and is well formed when the input is. |
| LinearMemory.Arena.constructor | korlibs-image-core/src@js/korlibs/image/core/Impl.CoreImage.stbiwasm.kt:31 | A new module memory has no live region. |
| LinearMemory.Arena.WithinUnique | korlibs-image-core/src@js/korlibs/image/core/Impl.CoreImage.stbiwasm.kt:37 | Live regions do not overlap, so a non-empty range lies in at most one of them. |
| LinearMemory.Arena.WordsAt | korlibs-image-core/src@js/korlibs/image/core/Impl.CoreImage.stbiwasm.kt:56 | Element i of `readInts(p, n)` is the word stored at p + 4i, which is what `infos[0]`, `infos[1]` and `infos[2]` pick out. |
| LinearMemory.Arena.HeapReset | korlibs-image-core/src@js/korlibs/image/core/Impl.CoreImage.stbiwasm.kt:38 | After `heap_reset` no region is live. |
| LinearMemory.Arena.Malloc | korlibs-image-core/src@js/korlibs/image/core/Impl.CoreImage.stbiwasm.kt:37 | `malloc(size)` returns a non-null address that was not live. It is now a live region of `size` bytes, every other region is unchanged, and regions stay disjoint. |
| LinearMemory.Arena.Fetch | korlibs-image-core/src@js/korlibs/image/core/Impl.CoreImage.stbiwasm.kt:39-47 | An export reading `len` bytes at a pointer inside a live region gets exactly the bytes stored there. |
| LinearMemory.Arena.Store | korlibs-image-core/src@js/korlibs/image/core/Impl.CoreImage.stbiwasm.kt:45-47 | Writing bytes inside a live region replaces exactly that range of that region and changes no other region. |
| LinearMemory.Arena.StoreWord | korlibs-image-core/src@js/korlibs/image/core/Impl.CoreImage.stbiwasm.kt:39-44 | After a word is stored, it reads back as the value. Every word of the region that shares no byte with it keeps its value, and no other region changes. |
| LinearMemory.Arena.StoreWords3 | korlibs-image-core/src@js/korlibs/image/core/Impl.CoreImage.stbiwasm.kt:39-44 | Three separate out-words read back as the three values, and only their region changes. |
| LinearMemory.Arena.AllocBytes | korlibs-image-core/src@js/korlibs/image/core/Impl.CoreImage.stbiwasm.kt:51 | `allocBytes(bytes)` adds one new live region that holds exactly `bytes`. Nothing else changes. |
| LinearMemory.Arena.AllocBytesOfSize | korlibs-image-core/src@js/korlibs/image/core/Impl.CoreImage.stbiwasm.kt:84 | `allocBytes(size)` adds one new live region of `size` bytes. Nothing else changes. |
| LinearMemory.Arena.AllocInts | korlibs-image-core/src@js/korlibs/image/core/Impl.CoreImage.stbiwasm.kt:81 | `allocInts(values)` adds one new live region that holds the little-endian words of `values`. |
| LinearMemory.Arena.AllocIntsOfCount | korlibs-image-core/src@js/korlibs/image/core/Impl.CoreImage.stbiwasm.kt:63 | `allocInts(count)` adds one new live region of `4 * count` bytes. |
| LinearMemory.Arena.ReadInts | korlibs-image-core/src@js/korlibs/image/core/Impl.CoreImage.stbiwasm.kt:73 | For a read that starts at a live region, the result is present iff `0 <= n` and the region holds `4n` bytes. When present, it is the decoded words. |
| LinearMemory.Arena.ReadBytes | korlibs-image-core/src@js/korlibs/image/core/Impl.CoreImage.stbiwasm.kt:87 | For a read that starts at a live region, the result is present iff `0 <= n` and the region holds `n` bytes. When present, it is those bytes. |
| LinearMemory.Arena.FreeBytes | korlibs-image-core/src@js/korlibs/image/core/Impl.CoreImage.stbiwasm.kt:88 | Given distinct pointers to live regions, exactly those regions stop being live. The others keep their contents. |
| StbiWasmLib.StbiWasm.constructor | korlibs-image-core/src@js/korlibs/image/core/Impl.CoreImage.stbiwasm.kt:31 | The module instance starts with an empty memory. |
| StbiWasmLib.StbiWasm.ModuleInfo | korlibs-image-core/src@js/korlibs/image/core/Impl.CoreImage.stbiwasm.kt:39-41 | Returns 0 iff the probe fails. Otherwise width, height and components are at the three out-pointers. Only the out-pointers' region changes. |
| StbiWasmLib.StbiWasm.ModuleLoad | korlibs-image-core/src@js/korlibs/image/core/Impl.CoreImage.stbiwasm.kt:42-44 | Returns 0 and changes nothing iff the load fails. Otherwise it returns a new region holding the pixel words, and the header is at the out-pointers. |
| StbiWasmLib.StbiWasm.ModuleWrite | korlibs-image-core/src@js/korlibs/image/core/Impl.CoreImage.stbiwasm.kt:45-47 | A boundary violation iff `w * h` is negative or the region at `inp` holds fewer than `w * h` words. Otherwise it encodes those words; if the encoding fits in `outSize` bytes, it is stored at `out` and its length returned. Only the output region changes. |
| StbiWasmLib.StbiWasm.InfoFromMemory | korlibs-image-core/src@js/korlibs/image/core/Impl.CoreImage.stbiwasm.kt:49-58 | Yields `InfoSpec(codec, bytes)`: the error when the probe fails, otherwise width, height and the Kotlin `Int` product components * 8. Afterwards exactly the input and info regions are live. |
| StbiWasmLib.StbiWasm.LoadFromMemory | korlibs-image-core/src@js/korlibs/image/core/Impl.CoreImage.stbiwasm.kt:60-77 | Yields `LoadSpec(codec, alpha, bytes)`. That is the error when the load fails, or a boundary violation when `w * h` (wrapped) is negative or exceeds the pixels produced. Otherwise it is the premultiplied image of the first `w * h` pixels. On success every region is freed. After an error, the info and input regions stay live; after a boundary violation, the data region does too. |
| StbiWasmLib.StbiWasm.WriteToMemory | korlibs-image-core/src@js/korlibs/image/core/Impl.CoreImage.stbiwasm.kt:79-90 | Yields `WriteSpec` for any image whose capacity expression is an `Int`: the encoding of the first `width * height` straight-alpha pixels when it fits in `width * height * 4 + 1024` bytes. It is a boundary violation when the image has fewer pixels than that or the encoding is too long. On success both regions are freed. |
| StbiWasmLib.LoadSpecOk | korlibs-image-core/src@js/korlibs/image/core/Impl.CoreImage.stbiwasm.kt:67-75 | A successful load has these properties: the decoder succeeded; the image is premultiplied and has the header's dimensions; pixel i is the premultiplied decoder pixel i; it is well formed when `width * height` is a non-negative `Int`. |
| StbiWasmLib.InfoLoadAgree | korlibs-image-core/src@js/korlibs/image/core/Impl.CoreImage.stbiwasm.kt:54-75 | When both succeed, `info` and `decode` report the same width and height iff the module's probe and loader agree on them. |
| StbiWasmLib.LoadSpecWrappedCount | korlibs-image-core/src@js/korlibs/image/core/Impl.CoreImage.stbiwasm.kt:73 | Take a decoder that reports 65536 by 65536 with no pixels. `w * h` wraps to 0, so the load succeeds with an image that is not well formed. |
| StbiWasmLib.OutSizeWraps | korlibs-image-core/src@js/korlibs/image/core/Impl.CoreImage.stbiwasm.kt:83 | For a 32768 by 32768 image the capacity expression overflows and wraps to 1024, which is why `WriteToMemory` requires `CapacityFits`. |
| StbiWasmLib.WriteSpecWellFormed | korlibs-image-core/src@js/korlibs/image/core/Impl.CoreImage.stbiwasm.kt:81-87 | For a well-formed image, all of its straight-alpha pixels are encoded. The encoding is the result exactly when it fits the capacity. |
| StbiWasmLib.WriteSpecStraightAlpha | korlibs-image-core/src@js/korlibs/image/core/Impl.CoreImage.stbiwasm.kt:81 | Encoding an image and encoding its straight-alpha form give the same result. |

## Left out

- Loading the module: the embedded Base64 and deflate payload and its instantiation (lines 31 and 93) are not modelled. The module is a `Codec` value of three functions. Its PNG/BMP/TGA/JPEG algorithms are not part of this model.
- `invokeFuncInt` and `invokeFuncUnit`: the calling convention of the base class `Base64DeflateWASMLib` is not part of this model. Its helpers are modelled from their names and uses. Its source is not part of this model.
- Integer widths and failure: pointers and sizes are unbounded integers, and `malloc` never fails and never grows memory. The 32-bit address space is not modelled.
- Fresh allocations: what `malloc` hands out holds unspecified bytes. Contracts say nothing about the contents of a fresh region.
- Bytes outside live regions are not kept. A read that leaves the live regions ends the call with `BoundaryViolation`. This covers the host's `readInts` and `readBytes` (lines 73 and 87) and the module's read of the pixel words. On the real memory those reads would return whatever lies there.
- LinearMemory.Arena.ReadInts: the contract is stated only for reads that start at the start of a live region. Every read the host makes is such a read.
- LinearMemory.Arena.ReadBytes: the contract is stated only for reads that start at the start of a live region. Every read the host makes is such a read.
- LinearMemory.Arena.StoreWords3: requires the three out-words in one live region. That matches every call the host makes (`infoPtr + 0/4/8`).
- StbiWasmLib.StbiWasm.ModuleInfo: the three out-pointers must lie in one live region, 4 bytes apart. The host always passes `infoPtr + 0/4/8`.
- StbiWasmLib.StbiWasm.ModuleLoad: the three out-pointers must lie in one live region, 4 bytes apart. The host always passes `infoPtr + 0/4/8`.
- StbiWasmLib.StbiWasm.ModuleWrite: an encoding longer than `outSize` gives -1 here. What the real module writes or returns in that case is not part of this model, so the host's `readBytes(outPtr, res)` then reports a boundary violation.
- StbiWasmLib.StbiWasm.WriteToMemory: requires `width * height * 4 + 1024` to be a non-negative `Int` (`CapacityFits`). The wrapped capacity of larger images is only exhibited, by `OutSizeWraps`, because what `allocBytes` does with a wrapped or negative size is not part of this model. Any pixel count is accepted.
- StbiProvider.Encode: requires `CapacityFits` for the image, for the same reason as `WriteToMemory`. Any pixel count is accepted.
- `image.to32()`: `encode` takes a `CoreImage32`. Other `CoreImage` kinds and their conversion are not modelled.
- Alpha conversion: premultiplying and its inverse are arbitrary per-pixel functions (`AlphaConversion`). Their rounding is not modelled.
- AsciiCase.Lowercase: only ASCII letters change case. Kotlin's `lowercase()` maps all of Unicode, but the only non-ASCII characters it lowers to ASCII letters are the Kelvin sign (to 'k') and the dotted capital I (to 'i' and a combining dot). Neither 'k' nor 'i' occurs in "png", "bmp", "tga", "jpg" or "jpeg", so the format code is the same.
- `suspend` functions and concurrent callers: calls are modelled one at a time on one module instance.
- The components word `n` (line 72) is read and then unused. The model reads it and ignores it too.
