/**
 * `StbiCoreImageFormatProvider`: the image format provider backed by the
 * stb_image module. `info` and `decode` hand the bytes to the module as they
 * are; `encode` picks the module's output format from the format's name and
 * always asks for quality 10.
 */
module StbiProvider {
  import opened Int32Words
  import opened AsciiCase
  import opened Images
  import opened StbiWasmLib

  /** `CoreImageFormat`: an image format known by its name, such as "PNG" or "jpeg". */
  datatype CoreImageFormat = CoreImageFormat(name: string)

  /** The quality `encode` passes to the module whatever level it is given. */
  const ENCODE_QUALITY: int := 10

  /**
   * The module's format code for a format name, compared without regard to
   * case: "bmp", "tga", and "jpg" or "jpeg" select their formats, and every
   * other name, "png" included, selects PNG.
   */
  function FormatCode(name: string): (code: int)
    ensures code == FORMAT_BMP <==> SpellsIgnoringCase(name, "bmp")
    ensures code == FORMAT_TGA <==> SpellsIgnoringCase(name, "tga")
    ensures code == FORMAT_JPEG <==> SpellsIgnoringCase(name, "jpg") || SpellsIgnoringCase(name, "jpeg")
    ensures code == FORMAT_PNG <==>
              !SpellsIgnoringCase(name, "bmp") && !SpellsIgnoringCase(name, "tga")
              && !SpellsIgnoringCase(name, "jpg") && !SpellsIgnoringCase(name, "jpeg")
  {
    LowercaseEqualsIff(name, "png");
    LowercaseEqualsIff(name, "bmp");
    LowercaseEqualsIff(name, "tga");
    LowercaseEqualsIff(name, "jpg");
    LowercaseEqualsIff(name, "jpeg");
    CodeOfLowercase(Lowercase(name))
  }

  /** The `when` over the lower-cased name. */
  function CodeOfLowercase(lower: string): int {
    if lower == "png" then FORMAT_PNG
    else if lower == "bmp" then FORMAT_BMP
    else if lower == "tga" then FORMAT_TGA
    else if lower == "jpg" || lower == "jpeg" then FORMAT_JPEG
    else FORMAT_PNG
  }

  /** The format code depends on the name's letters only, not on their case. */
  lemma FormatCodeIgnoresCase(name: string)
    ensures FormatCode(Lowercase(name)) == FormatCode(name)
    ensures FormatCode(Uppercase(name)) == FormatCode(name)
  {
    LowercaseIdempotent(name);
    LowercaseOfUppercase(name);
  }

  /** Any spelling of "jpeg" selects JPEG; "gif" falls back to PNG. */
  lemma FormatCodeExamples()
    ensures FormatCode("Jpeg") == FORMAT_JPEG && FormatCode("JPEG") == FORMAT_JPEG
    ensures FormatCode("gif") == FORMAT_PNG
  {
    assert SpellsIgnoringCase("Jpeg", "jpeg");
    assert SpellsIgnoringCase("JPEG", "jpeg");
    assert "gif"[0] != "bmp"[0] && "gif"[0] != "tga"[0] && "gif"[0] != "jpg"[0] && "gif"[0] != "jpeg"[0];
  }

  /** `info(data)`: the module's view of the encoded bytes. */
  method Info(lib: StbiWasm, data: seq<byte>) returns (r: Outcome<CoreImageInfo>)
    requires lib.Valid()
    modifies lib.arena
    ensures lib.Valid()
    ensures r == InfoSpec(lib.codec, data)
  {
    ghost var ptr, infoPtr;
    r, ptr, infoPtr := lib.InfoFromMemory(data);
  }

  /** `decode(data)`: the decoded image, premultiplied. */
  method Decode(lib: StbiWasm, data: seq<byte>) returns (r: Outcome<CoreImage32>)
    requires lib.Valid()
    modifies lib.arena
    ensures lib.Valid()
    ensures r == LoadSpec(lib.codec, lib.alpha, data)
    ensures r.Ok? ==> r.value.premultiplied
  {
    ghost var infoPtr, ptr, dataPtr;
    r, infoPtr, ptr, dataPtr := lib.LoadFromMemory(data);
  }

  /**
   * `encode(image, format, level)`: the module's encoding of the image in the
   * format the name selects, at quality 10; `level` has no effect.
   */
  method Encode(lib: StbiWasm, image: CoreImage32, format: CoreImageFormat, level: real) returns (r: Outcome<seq<byte>>)
    requires lib.Valid()
    requires CapacityFits(image.width, image.height)
    modifies lib.arena
    ensures lib.Valid()
    ensures r == WriteSpec(lib.codec, lib.alpha, image, FormatCode(format.name), ENCODE_QUALITY)
  {
    ghost var dataPtr, outPtr;
    r, dataPtr, outPtr := lib.WriteToMemory(image, FormatCode(format.name), ENCODE_QUALITY);
  }
}
